/** The current change log (`source/change_log.py`): a journal of flagged changes replayed on
    top of the last saved trade list, with undo/redo by flag and pruning after every pass. */
module Journal {
  import opened Wrappers
  import opened Seqs
  import opened Trades

  /** How many previously-active entries a processing pass keeps. */
  const KeepApplied: nat := 10

  /** One journal entry: the change and its two flags. */
  datatype Change = Change(kind: ChangeKind, applied: bool, undone: bool)

  /** The four states the two flags encode. */
  predicate IsPending(c: Change) { !c.applied && !c.undone }
  predicate IsActive(c: Change) { c.applied && !c.undone }
  predicate IsUndoneApplied(c: Change) { c.applied && c.undone }
  predicate IsDiscarded(c: Change) { !c.applied && c.undone }

  predicate NotApplied(c: Change) { !c.applied }
  predicate NotUndone(c: Change) { !c.undone }

  /** `all_applied`: every entry has `applied != undone`. That holds exactly when every
      entry is active or discarded, so any pending entry makes it false. */
  function AllApplied(changes: seq<Change>): (r: bool)
    ensures r <==> forall i :: 0 <= i < |changes| ==> IsActive(changes[i]) || IsDiscarded(changes[i])
    ensures r ==> forall i :: 0 <= i < |changes| ==> !IsPending(changes[i])
  {
    forall c | c in changes :: c.applied != c.undone
  }

  /** The log after `add`: every entry with `undone` set is purged, the others keep their
      order, and a pending entry for the new change is appended. */
  function AfterAdd(changes: seq<Change>, kind: ChangeKind): seq<Change>
  {
    Filter(changes, NotUndone) + [Change(kind, false, false)]
  }

  /** The kinds of the pending entries, in log order: what a processing pass folds. */
  function PendingKinds(changes: seq<Change>): (r: seq<ChangeKind>)
    ensures |r| <= |changes|
    decreases |changes|
  {
    if changes == [] then []
    else
      var last := changes[|changes| - 1];
      PendingKinds(changes[..|changes| - 1]) + (if IsPending(last) then [last.kind] else [])
  }

  /** The trade list a processing pass returns for `base`. */
  function Projection(base: seq<Trade>, changes: seq<Change>): seq<Trade>
  {
    FoldAll(base, PendingKinds(changes))
  }

  /** The flag update one processing pass makes on one entry. */
  function Settle(c: Change, changeApplied: bool): Change
  {
    if IsPending(c) then c.(applied := changeApplied)
    else if IsUndoneApplied(c) then c.(applied := false)
    else c
  }

  /** A pass sets `applied` to `changeApplied` on a pending entry, clears it on an undone
      applied entry, leaves every other entry alone, and never touches `undone` or the change. */
  lemma SettleFlags(c: Change, changeApplied: bool)
    ensures Settle(c, changeApplied).kind == c.kind
    ensures Settle(c, changeApplied).undone == c.undone
    ensures IsPending(c) ==> Settle(c, changeApplied).applied == changeApplied
    ensures IsUndoneApplied(c) ==> !Settle(c, changeApplied).applied
    ensures IsActive(c) || IsDiscarded(c) ==> Settle(c, changeApplied) == c
  {
  }

  /** Every entry after the flag updates of one pass, before pruning. */
  function SettledLog(changes: seq<Change>, changeApplied: bool): seq<Change>
  {
    seq(|changes|, i requires 0 <= i < |changes| => Settle(changes[i], changeApplied))
  }

  /** The log after a processing pass: the last `KeepApplied` entries that were active when
      the pass began, then every entry whose `applied` is false after the flag updates. */
  function Pruned(changes: seq<Change>, changeApplied: bool): seq<Change>
  {
    LastN(Filter(changes, IsActive), KeepApplied) + Filter(SettledLog(changes, changeApplied), NotApplied)
  }

  /** `get_last_to_undo`: the position of the last entry that is not undone. */
  function LastToUndo(changes: seq<Change>): (r: Option<nat>)
    ensures r.Some? ==> r.value < |changes| && !changes[r.value].undone
    ensures r.Some? ==> forall j :: r.value < j < |changes| ==> changes[j].undone
    ensures r.None? ==> forall j :: 0 <= j < |changes| ==> changes[j].undone
    decreases |changes|
  {
    if changes == [] then None
    else if !changes[|changes| - 1].undone then Some(|changes| - 1)
    else LastToUndo(changes[..|changes| - 1])
  }

  /** `get_next_to_redo`: the position of the first entry that is undone. */
  function NextToRedo(changes: seq<Change>): (r: Option<nat>)
    ensures r.Some? ==> r.value < |changes| && changes[r.value].undone
    ensures r.Some? ==> forall j :: 0 <= j < r.value ==> !changes[j].undone
    ensures r.None? ==> forall j :: 0 <= j < |changes| ==> !changes[j].undone
  {
    if changes == [] then None
    else if changes[0].undone then Some(0)
    else match NextToRedo(changes[1..])
      case None => None
      case Some(k) => Some(k + 1)
  }

  /** The log after `undo`. */
  function AfterUndo(changes: seq<Change>): seq<Change>
  {
    match LastToUndo(changes)
    case None => changes
    case Some(k) => changes[k := changes[k].(undone := true)]
  }

  /** The log after `redo`. */
  function AfterRedo(changes: seq<Change>): seq<Change>
  {
    match NextToRedo(changes)
    case None => changes
    case Some(k) => changes[k := changes[k].(undone := false)]
  }

  /** The log after `clear_not_applied`: every unapplied entry is marked undone. */
  function AfterClear(changes: seq<Change>): seq<Change>
  {
    seq(|changes|, i requires 0 <= i < |changes| =>
      if changes[i].applied then changes[i] else changes[i].(undone := true))
  }

  /** What one more entry contributes to a processing pass: its kind to the folded
      changes, if pending, and itself to the collected entries, if active. */
  lemma PassStep(changes: seq<Change>, i: nat)
    requires i < |changes|
    ensures PendingKinds(changes[..i + 1]) ==
              PendingKinds(changes[..i]) + (if IsPending(changes[i]) then [changes[i].kind] else [])
    ensures Filter(changes[..i + 1], IsActive) ==
              Filter(changes[..i], IsActive) + (if IsActive(changes[i]) then [changes[i]] else [])
  {
    assert changes[..i + 1][..i] == changes[..i];
    assert changes[..i + 1][i] == changes[i];
  }

  /** A log whose every entry got the flag update of a pass is the settled log. */
  lemma SettledLogAt(changes: seq<Change>, settled: seq<Change>, changeApplied: bool)
    requires |settled| == |changes|
    requires forall j :: 0 <= j < |changes| ==> settled[j] == Settle(changes[j], changeApplied)
    ensures settled == SettledLog(changes, changeApplied)
  {
  }

  /** Folding one more change folds it into the previous result. */
  lemma FoldSnoc(base: seq<Trade>, kinds: seq<ChangeKind>, kind: ChangeKind)
    ensures FoldAll(base, kinds + [kind]) == Apply(FoldAll(base, kinds), kind)
  {
    assert (kinds + [kind])[..|kinds|] == kinds;
  }

  class ChangeLog {
    /** The journal of the currently open document, oldest entry first. */
    var changes: seq<Change>
    /** The journal file's contents: one journal per document path. */
    ghost var persisted: map<string, seq<Change>>

    /** A new log is empty; the journal file keeps whatever it already holds. */
    constructor (ghost journalFile: map<string, seq<Change>>)
      ensures changes == [] && persisted == journalFile
    {
      changes := [];
      persisted := journalFile;
    }

    /** `write_changes`: stores the current journal under `filePath`. */
    method WriteChanges(filePath: string)
      modifies this`persisted
      ensures persisted == old(persisted)[filePath := changes]
    {
      persisted := persisted[filePath := changes];
    }

    method Add(filePath: string, kind: ChangeKind)
      modifies this
      ensures changes == AfterAdd(old(changes), kind)
      ensures persisted == old(persisted)[filePath := changes]
    {
      changes := Filter(changes, NotUndone);
      changes := changes + [Change(kind, false, false)];
      WriteChanges(filePath);
    }

    /** One processing pass: folds the pending entries into a copy of `original`, updates
        the flags entry by entry, prunes the journal and writes it out. */
    method Process(filePath: string, original: seq<Trade>, changeApplied: bool) returns (processed: seq<Trade>)
      modifies this
      ensures processed == Projection(original, old(changes))
      ensures changes == Pruned(old(changes), changeApplied)
      ensures persisted == old(persisted)[filePath := changes]
    {
      ghost var log := changes;
      ghost var folded: seq<ChangeKind> := [];
      processed := original;
      var appliedChanges: seq<Change> := [];
      var i := 0;
      while i < |changes|
        invariant 0 <= i <= |changes| == |log|
        invariant forall j :: 0 <= j < i ==> changes[j] == Settle(log[j], changeApplied)
        invariant forall j :: i <= j < |changes| ==> changes[j] == log[j]
        invariant folded == PendingKinds(log[..i])
        invariant processed == FoldAll(original, folded)
        invariant appliedChanges == Filter(log[..i], IsActive)
        invariant persisted == old(persisted)
      {
        PassStep(log, i);
        var change := changes[i];
        if !change.applied && !change.undone {
          FoldSnoc(original, folded, change.kind);
          processed := ApplyChange(processed, change.kind);
          folded := folded + [change.kind];
          changes := changes[i := change.(applied := changeApplied)];
        } else if change.applied && !change.undone {
          appliedChanges := appliedChanges + [change];
        } else if change.applied && change.undone {
          changes := changes[i := change.(applied := false)];
        }
        i := i + 1;
      }
      assert log[..i] == log;
      SettledLogAt(log, changes, changeApplied);
      changes := LastN(appliedChanges, KeepApplied) + Filter(changes, NotApplied);
      WriteChanges(filePath);
    }

    method ClearNotApplied(filePath: string)
      modifies this
      ensures changes == AfterClear(old(changes))
      ensures persisted == old(persisted)[filePath := changes]
    {
      var i := 0;
      while i < |changes|
        invariant 0 <= i <= |changes| == |old(changes)|
        invariant forall j :: 0 <= j < i ==> changes[j] == AfterClear(old(changes))[j]
        invariant forall j :: i <= j < |changes| ==> changes[j] == old(changes)[j]
        invariant persisted == old(persisted)
      {
        if !changes[i].applied {
          changes := changes[i := changes[i].(undone := true)];
        }
        i := i + 1;
      }
      WriteChanges(filePath);
    }

    /** Marks the last entry that is not undone as undone; the journal is not written. */
    method Undo()
      modifies this`changes
      ensures changes == AfterUndo(old(changes))
    {
      var k := LastToUndo(changes);
      if k.Some? {
        changes := changes[k.value := changes[k.value].(undone := true)];
      }
    }

    /** Clears `undone` on the first entry that has it; the journal is not written. */
    method Redo()
      modifies this`changes
      ensures changes == AfterRedo(old(changes))
    {
      var k := NextToRedo(changes);
      if k.Some? {
        changes := changes[k.value := changes[k.value].(undone := false)];
      }
    }
  }
}
