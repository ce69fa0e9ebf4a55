/** The early change log (`change_log.py`): an unflagged list of changes that every
    `process` call folds, in order, into a copy of the base trade list. */
module EarlyJournal {
  import opened Wrappers
  import opened Trades

  class ChangeLog {
    /** The logged changes, oldest first. */
    var changes: seq<ChangeKind>

    constructor ()
      ensures changes == []
    {
      changes := [];
    }

    /** Appends one change; the earlier entries are untouched and the new one is last. */
    method Add(change: ChangeKind)
      modifies this
      ensures changes == old(changes) + [change]
      ensures GetLast() == Some(change)
    {
      changes := changes + [change];
    }

    /** The base list with every logged change folded in, in log order. Neither the log
        nor the caller's list is modified: the fold works on a copy. */
    method Process(original: seq<Trade>) returns (processed: seq<Trade>)
      ensures processed == FoldAll(original, changes)
      ensures changes == [] ==> processed == original
    {
      processed := original;
      var i := 0;
      while i < |changes|
        invariant 0 <= i <= |changes|
        invariant processed == FoldAll(original, changes[..i])
      {
        assert changes[..i + 1][..i] == changes[..i];
        processed := ApplyChange(processed, changes[i]);
        i := i + 1;
      }
      assert changes[..i] == changes;
    }

    /** Empties the log. */
    method Clear()
      modifies this
      ensures GetLog() == []
    {
      changes := [];
    }

    /** The most recent change; the source raises `IndexError` on an empty log, modelled as `None`. */
    function GetLast(): (r: Option<ChangeKind>)
      reads this
      ensures r.None? <==> changes == []
      ensures r.Some? ==> r.value == changes[|changes| - 1]
    {
      if changes == [] then None else Some(changes[|changes| - 1])
    }

    /** The log itself, oldest entry first: `get_last` reads its final entry. */
    function GetLog(): (r: seq<ChangeKind>)
      reads this
      ensures r == [] <==> GetLast().None?
      ensures r != [] ==> GetLast() == Some(r[|r| - 1])
    {
      changes
    }

    /** Drops the most recent change; `ok` is false (and nothing changes) where the source's
        `pop` would raise on an empty log. */
    method RemoveLast() returns (ok: bool)
      modifies this
      ensures ok <==> old(changes) != []
      ensures ok ==> changes == old(changes)[..|old(changes)| - 1]
      ensures !ok ==> changes == old(changes)
    {
      ok := changes != [];
      if ok {
        changes := changes[..|changes| - 1];
      }
    }

    /** Replaces the whole log. */
    method Restore(log: seq<ChangeKind>)
      modifies this
      ensures GetLog() == log
    {
      changes := log;
    }
  }

  /** `add` followed by `remove_last` gives back the log as it was. */
  method AddThenRemoveLast(log: ChangeLog, change: ChangeKind)
    modifies log
    ensures log.GetLog() == old(log.GetLog())
  {
    log.Add(change);
    var ok := log.RemoveLast();
    assert ok;
  }
}
