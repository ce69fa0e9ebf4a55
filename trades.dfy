/** Trade records and the effect of one change on a list of them. Both versions of the
    change log fold changes with exactly these rules; only the record id is ever inspected. */
module Trades {
  import opened Wrappers
  import opened Seqs

  /** The UUID string stored at index 0 of a trade record. */
  type TradeId = string

  datatype Side = Buy | Sell

  /** A trade record `[id, pair, side, date, quantity, price]`. Quantity and price are
      exact decimals in the source; the change log never computes with them. */
  datatype Trade = Trade(id: TradeId, pair: string, side: Side, date: string, quantity: real, price: real)

  /** The payload of a change entry, by change type: `add` carries only the new record,
      `edit` the old and the new one, `delete` only the old one. */
  datatype ChangeKind =
    | Add(newData: Trade)
    | Edit(originalData: Trade, newData: Trade)
    | Delete(originalData: Trade)

  /** Position of the first record carrying `id`, if any. */
  function FirstWithId(records: seq<Trade>, id: TradeId): (r: Option<nat>)
    ensures r.Some? ==> r.value < |records| && records[r.value].id == id
    ensures r.Some? ==> forall j :: 0 <= j < r.value ==> records[j].id != id
    ensures r.None? ==> forall j :: 0 <= j < |records| ==> records[j].id != id
  {
    if records == [] then None
    else if records[0].id == id then Some(0)
    else match FirstWithId(records[1..], id)
      case None => None
      case Some(k) => Some(k + 1)
  }

  /** The list after an edit: the first record with `id` is replaced by `newData`. */
  function Edited(records: seq<Trade>, id: TradeId, newData: Trade): (r: seq<Trade>)
    ensures |r| == |records|
  {
    if records == [] then []
    else if records[0].id == id then [newData] + records[1..]
    else [records[0]] + Edited(records[1..], id, newData)
  }

  /** An edit replaces exactly the first record with a matching id; with no match the list is unchanged. */
  lemma {:induction false} EditedReplacesFirst(records: seq<Trade>, id: TradeId, newData: Trade)
    ensures FirstWithId(records, id).None? ==> Edited(records, id, newData) == records
    ensures FirstWithId(records, id).Some? ==>
              Edited(records, id, newData) == records[FirstWithId(records, id).value := newData]
  {
    if records == [] {
    } else if records[0].id == id {
      assert FirstWithId(records, id) == Some(0);
      assert Edited(records, id, newData) == [newData] + records[1..];
      assert [newData] + records[1..] == records[0 := newData];
    } else {
      var tail := records[1..];
      EditedReplacesFirst(tail, id, newData);
      assert Edited(records, id, newData) == [records[0]] + Edited(tail, id, newData);
      var first := FirstWithId(tail, id);
      if first.None? {
        assert FirstWithId(records, id) == None;
        assert records == [records[0]] + tail;
      } else {
        assert FirstWithId(records, id) == Some(first.value + 1);
        assert [records[0]] + tail[first.value := newData] == records[first.value + 1 := newData];
      }
    }
  }

  /** The list after a delete: every record with `id` is gone, every other record is kept. */
  function Deleted(records: seq<Trade>, id: TradeId): (r: seq<Trade>)
    ensures |r| <= |records|
    ensures forall t :: t in r <==> t in records && t.id != id
  {
    if records == [] then []
    else
      assert records == [records[0]] + records[1..];
      (if records[0].id == id then [] else [records[0]]) + Deleted(records[1..], id)
  }

  /** The records a delete of `id` keeps. */
  function Survives(id: TradeId): Trade -> bool
  {
    (t: Trade) => t.id != id
  }

  /** A delete keeps the other records in their order and multiplicity: it is the filter
      of the list by "the id differs". */
  lemma {:induction false} DeletedIsFilter(records: seq<Trade>, id: TradeId)
    ensures Deleted(records, id) == Filter(records, Survives(id))
    decreases |records|
  {
    if records != [] {
      var init, last := records[..|records| - 1], records[|records| - 1];
      assert records == init + [last];
      DeletedConcat(init, [last], id);
      DeletedIsFilter(init, id);
      assert [last][1..] == [];
    }
  }

  /** Deleting works part by part, so the surviving records keep their relative order. */
  lemma {:induction false} DeletedConcat(a: seq<Trade>, b: seq<Trade>, id: TradeId)
    ensures Deleted(a + b, id) == Deleted(a, id) + Deleted(b, id)
  {
    if a == [] {
      assert a + b == b;
    } else {
      assert (a + b)[0] == a[0];
      assert (a + b)[1..] == a[1..] + b;
      DeletedConcat(a[1..], b, id);
    }
  }

  /** Deleting an id no record carries leaves the list unchanged. */
  lemma {:induction false} DeletedAbsent(records: seq<Trade>, id: TradeId)
    requires forall j :: 0 <= j < |records| ==> records[j].id != id
    ensures Deleted(records, id) == records
  {
    if records != [] {
      DeletedAbsent(records[1..], id);
      assert records == [records[0]] + records[1..];
    }
  }

  /** Folds one change into the working list, by change type. */
  function Apply(records: seq<Trade>, change: ChangeKind): (r: seq<Trade>)
    ensures change.Add? ==> |r| == |records| + 1 && r[..|records|] == records && r[|records|] == change.newData
    ensures change.Edit? ==> |r| == |records|
    ensures change.Delete? ==> forall t :: t in r ==> t.id != change.originalData.id
  {
    match change
    case Add(newData) => records + [newData]
    case Edit(originalData, newData) => Edited(records, originalData.id, newData)
    case Delete(originalData) => Deleted(records, originalData.id)
  }

  /** Folds a whole sequence of changes, first to last, into `base`. */
  function FoldAll(base: seq<Trade>, changes: seq<ChangeKind>): seq<Trade>
    decreases |changes|
  {
    if changes == [] then base
    else Apply(FoldAll(base, changes[..|changes| - 1]), changes[|changes| - 1])
  }

  /** Folding is sequential: folding `xs + ys` is folding `ys` into the result of folding `xs`. */
  lemma {:induction false} FoldAllConcat(base: seq<Trade>, xs: seq<ChangeKind>, ys: seq<ChangeKind>)
    ensures FoldAll(base, xs + ys) == FoldAll(FoldAll(base, xs), ys)
    decreases |ys|
  {
    if ys == [] {
      assert xs + ys == xs;
    } else {
      var ys' := ys[..|ys| - 1];
      assert (xs + ys)[..|xs + ys| - 1] == xs + ys';
      assert (xs + ys)[|xs + ys| - 1] == ys[|ys| - 1];
      FoldAllConcat(base, xs, ys');
    }
  }

  /** The `edit` branch of the fold loop: scan with `enumerate`, replace the first match, `break`. */
  method ReplaceFirst(records: seq<Trade>, id: TradeId, newData: Trade) returns (r: seq<Trade>)
    ensures r == Edited(records, id, newData)
  {
    EditedReplacesFirst(records, id, newData);
    r := records;
    var i := 0;
    while i < |r|
      invariant i <= |r| == |records|
      invariant r == records
      invariant forall j :: 0 <= j < i ==> records[j].id != id
    {
      if r[i].id == id {
        r := r[i := newData];
        break;
      }
      i := i + 1;
    }
  }

  /** The body of the fold loop for one entry, dispatching on the change type. */
  method ApplyChange(records: seq<Trade>, change: ChangeKind) returns (r: seq<Trade>)
    ensures r == Apply(records, change)
  {
    match change
    case Add(newData) =>
      r := records + [newData];
    case Edit(originalData, newData) =>
      r := ReplaceFirst(records, originalData.id, newData);
    case Delete(originalData) =>
      r := Deleted(records, originalData.id);
  }
}
