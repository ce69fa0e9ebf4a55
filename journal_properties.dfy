/** Properties of the current change log that relate its operations to each other:
    what a processing pass projects and keeps, how undo and redo move through the log,
    and which shapes of log the operations can produce from an empty one. */
module JournalProperties {
  import opened Wrappers
  import opened Seqs
  import opened Trades
  import opened Journal

  /** No entry has its `applied` flag set. */
  predicate NeverApplied(changes: seq<Change>)
  {
    forall c | c in changes :: !c.applied
  }

  /** Every entry from the first undone one on is undone: the undone entries come last. */
  predicate UndoneSuffix(changes: seq<Change>)
  {
    NextToRedo(changes).Some? ==>
      forall i :: NextToRedo(changes).value <= i < |changes| ==> changes[i].undone
  }

  /** The logs that `add`, `process`, `undo`, `redo` and `clear_not_applied` can build
      from an empty one (see the `...KeepsReachable` lemmas). */
  predicate Reachable(changes: seq<Change>)
  {
    NeverApplied(changes) && UndoneSuffix(changes)
  }

  // ----- pending kinds -----

  /** The kinds folded for a log are those folded for each of its parts, in order. */
  lemma {:induction false} PendingKindsConcat(a: seq<Change>, b: seq<Change>)
    ensures PendingKinds(a + b) == PendingKinds(a) + PendingKinds(b)
    decreases |b|
  {
    if b == [] {
      assert a + b == a;
    } else {
      var b' := b[..|b| - 1];
      assert (a + b)[..|a + b| - 1] == a + b';
      assert (a + b)[|a + b| - 1] == b[|b| - 1];
      PendingKindsConcat(a, b');
    }
  }

  /** A log folds nothing exactly when it has no pending entry. */
  lemma {:induction false} PendingKindsEmpty(changes: seq<Change>)
    ensures PendingKinds(changes) == [] <==> forall c :: c in changes ==> !IsPending(c)
    decreases |changes|
  {
    if changes != [] {
      var n := |changes| - 1;
      assert changes == changes[..n] + [changes[n]];
      PendingKindsEmpty(changes[..n]);
    }
  }

  // ----- one processing pass -----

  /** Unapplied entries after a pass that does not commit are pending exactly when they were. */
  lemma {:induction false} RedrawKeepsPending(changes: seq<Change>)
    ensures PendingKinds(Filter(SettledLog(changes, false), NotApplied)) == PendingKinds(changes)
    decreases |changes|
  {
    if changes != [] {
      var n := |changes| - 1;
      var prefix := changes[..n];
      var settled := SettledLog(changes, false);
      assert settled[..n] == SettledLog(prefix, false);
      RedrawKeepsPending(prefix);
      var s := Settle(changes[n], false);
      var tail := if NotApplied(s) then [s] else [];
      assert Filter(settled, NotApplied) == Filter(SettledLog(prefix, false), NotApplied) + tail;
      PendingKindsConcat(Filter(SettledLog(prefix, false), NotApplied), tail);
      assert [s][..0] == [];
      assert PendingKinds(tail) == if IsPending(changes[n]) then [changes[n].kind] else [];
    }
  }

  /** A pass with `change_applied` false leaves the next pass folding the same changes,
      so redrawing twice shows the same trades. */
  lemma RedrawKeepsProjection(base: seq<Trade>, changes: seq<Change>)
    ensures PendingKinds(Pruned(changes, false)) == PendingKinds(changes)
    ensures Projection(base, Pruned(changes, false)) == Projection(base, changes)
  {
    var kept := LastN(Filter(changes, IsActive), KeepApplied);
    var unapplied := Filter(SettledLog(changes, false), NotApplied);
    FilterMembers(changes, IsActive);
    assert forall c :: c in kept ==> c in Filter(changes, IsActive);
    PendingKindsEmpty(kept);
    PendingKindsConcat(kept, unapplied);
    RedrawKeepsPending(changes);
  }

  /** A committing pass (`change_applied` true, as on save) leaves nothing pending and
      `all_applied` true; reopening the saved list with the pruned log shows the same trades. */
  lemma CommitSettlesLog(base: seq<Trade>, changes: seq<Change>)
    ensures PendingKinds(Pruned(changes, true)) == []
    ensures AllApplied(Pruned(changes, true))
    ensures Projection(Projection(base, changes), Pruned(changes, true)) == Projection(base, changes)
  {
    var kept := LastN(Filter(changes, IsActive), KeepApplied);
    var settled := SettledLog(changes, true);
    var pruned := Pruned(changes, true);
    FilterMembers(changes, IsActive);
    FilterMembers(settled, NotApplied);
    forall i | 0 <= i < |pruned|
      ensures IsActive(pruned[i]) || IsDiscarded(pruned[i])
    {
      if i < |kept| {
        assert pruned[i] in Filter(changes, IsActive);
      } else {
        assert pruned[i] in Filter(settled, NotApplied);
        var j :| 0 <= j < |settled| && settled[j] == pruned[i];
        SettleFlags(changes[j], true);
      }
    }
    PendingKindsEmpty(pruned);
  }

  /** Pruning keeps exactly the last `KeepApplied` entries that were active when the pass
      began, and every entry left unapplied by the pass, in order. */
  lemma PruneBound(changes: seq<Change>, changeApplied: bool)
    ensures Filter(Pruned(changes, changeApplied), IsActive) == LastN(Filter(changes, IsActive), KeepApplied)
    ensures |Filter(Pruned(changes, changeApplied), IsActive)| <= KeepApplied
    ensures Filter(Pruned(changes, changeApplied), NotApplied) == Filter(SettledLog(changes, changeApplied), NotApplied)
  {
    var kept := LastN(Filter(changes, IsActive), KeepApplied);
    var unapplied := Filter(SettledLog(changes, changeApplied), NotApplied);
    FilterMembers(changes, IsActive);
    FilterMembers(SettledLog(changes, changeApplied), NotApplied);
    assert forall c :: c in kept ==> c in Filter(changes, IsActive);
    FilterConcat(kept, unapplied, IsActive);
    FilterConcat(kept, unapplied, NotApplied);
    FilterKeepsAll(kept, IsActive);
    FilterKeepsNone(kept, NotApplied);
    FilterKeepsNone(unapplied, IsActive);
    FilterKeepsAll(unapplied, NotApplied);
  }

  /** On a log with no applied entry, a committing pass keeps only the discarded entries. */
  lemma {:induction false} CommitFilter(changes: seq<Change>)
    requires NeverApplied(changes)
    ensures Filter(SettledLog(changes, true), NotApplied) == Filter(changes, IsDiscarded)
    decreases |changes|
  {
    if changes != [] {
      var n := |changes| - 1;
      var prefix := changes[..n];
      assert changes == prefix + [changes[n]];
      assert SettledLog(changes, true)[..n] == SettledLog(prefix, true);
      CommitFilter(prefix);
    }
  }

  /** Entries that a save marks applied go to neither the kept active entries nor the
      unapplied ones: on a log with no applied entry, a save keeps only the discarded entries,
      and a redraw keeps the log as it is. */
  lemma PassOnUnappliedLog(changes: seq<Change>)
    requires NeverApplied(changes)
    ensures Pruned(changes, true) == Filter(changes, IsDiscarded)
    ensures Pruned(changes, false) == changes
  {
    FilterKeepsNone(changes, IsActive);
    assert LastN(Filter(changes, IsActive), KeepApplied) == [];
    CommitFilter(changes);
    forall j | 0 <= j < |changes| ensures changes[j] == Settle(changes[j], false) {
      assert changes[j] in changes;
    }
    SettledLogAt(changes, changes, false);
    FilterKeepsAll(changes, NotApplied);
  }

  // ----- undo and redo -----

  /** The first undone entry is the one `redo` targets. */
  lemma NextToRedoIs(changes: seq<Change>, k: nat)
    requires k < |changes| && changes[k].undone
    requires forall j :: 0 <= j < k ==> !changes[j].undone
    ensures NextToRedo(changes) == Some(k)
  {
  }

  /** The last entry that is not undone is the one `undo` targets. */
  lemma LastToUndoIs(changes: seq<Change>, k: nat)
    requires k < |changes| && !changes[k].undone
    requires forall j :: k < j < |changes| ==> changes[j].undone
    ensures LastToUndo(changes) == Some(k)
  {
  }

  /** A log that is not undone before `m` and undone from `m` on has its undone entries last. */
  lemma SuffixFrom(changes: seq<Change>, m: nat)
    requires forall i :: 0 <= i < m && i < |changes| ==> !changes[i].undone
    requires forall i :: m <= i < |changes| ==> changes[i].undone
    ensures UndoneSuffix(changes)
  {
    if m < |changes| {
      NextToRedoIs(changes, m);
    }
  }

  /** Below the entry undo targets, a log whose undone entries come last has none undone. */
  lemma NoneUndoneBefore(changes: seq<Change>, k: nat)
    requires UndoneSuffix(changes)
    requires k < |changes| && !changes[k].undone
    ensures forall j :: 0 <= j < k ==> !changes[j].undone
  {
    if NextToRedo(changes).Some? {
      assert k < NextToRedo(changes).value;
    }
  }

  /** Undo then redo gives back the log, when undone entries form a suffix and there is
      something to undo. */
  lemma UndoThenRedo(changes: seq<Change>)
    requires UndoneSuffix(changes)
    requires LastToUndo(changes).Some?
    ensures AfterRedo(AfterUndo(changes)) == changes
  {
    var k := LastToUndo(changes).value;
    var u := AfterUndo(changes);
    assert u == changes[k := changes[k].(undone := true)];
    NoneUndoneBefore(changes, k);
    NextToRedoIs(u, k);
    assert u[k := u[k].(undone := false)] == changes;
  }

  /** Redo then undo gives back the log, when undone entries form a suffix and there is
      something to redo. */
  lemma RedoThenUndo(changes: seq<Change>)
    requires UndoneSuffix(changes)
    requires NextToRedo(changes).Some?
    ensures AfterUndo(AfterRedo(changes)) == changes
  {
    var k := NextToRedo(changes).value;
    var r := AfterRedo(changes);
    assert r == changes[k := changes[k].(undone := false)];
    LastToUndoIs(r, k);
    assert r[k := r[k].(undone := true)] == changes;
  }

  /** On a log with no applied entry, undo withdraws the most recent pending change from
      what the next pass folds. */
  lemma {:induction false} UndoRetractsLastEdit(changes: seq<Change>)
    requires NeverApplied(changes)
    requires PendingKinds(changes) != []
    ensures PendingKinds(AfterUndo(changes)) == PendingKinds(changes)[..|PendingKinds(changes)| - 1]
    decreases |changes|
  {
    var n := |changes| - 1;
    var prefix := changes[..n];
    var last := changes[n];
    assert changes == prefix + [last];
    if !last.undone {
      var discarded := last.(undone := true);
      assert AfterUndo(changes) == prefix + [discarded];
      PendingKindsConcat(prefix, [discarded]);
      assert [discarded][..0] == [];
      assert PendingKinds([discarded]) == [];
    } else {
      assert PendingKinds(changes) == PendingKinds(prefix) + [];
      PendingKindsEmpty(prefix);
      UndoRetractsLastEdit(prefix);
      var k := LastToUndo(prefix).value;
      assert AfterUndo(changes) == AfterUndo(prefix) + [last];
      PendingKindsConcat(AfterUndo(prefix), [last]);
      assert [last][..0] == [];
      assert PendingKinds([last]) == [];
    }
  }

  /** From an undone entry on, a log whose undone entries come last folds nothing. */
  lemma UndoneTailFoldsNothing(changes: seq<Change>, j: nat)
    requires UndoneSuffix(changes)
    requires j < |changes| && changes[j].undone
    ensures PendingKinds(changes[j..]) == []
    ensures PendingKinds(changes[j + 1..]) == []
  {
    forall c | c in changes[j..] ensures !IsPending(c) {
      var i :| 0 <= i < |changes[j..]| && changes[j..][i] == c;
      assert c == changes[j + i];
    }
    PendingKindsEmpty(changes[j..]);
    PendingKindsEmpty(changes[j + 1..]);
  }

  /** Re-activating an entry in front of a tail that folds nothing adds exactly its change
      to what a pass folds. */
  lemma ReinstateBeforeQuietTail(before: seq<Change>, redone: Change, rest: seq<Change>)
    requires IsPending(redone)
    requires PendingKinds(rest) == []
    ensures PendingKinds(before + ([redone] + rest)) == PendingKinds(before) + [redone.kind]
  {
    PendingKindsConcat(before, [redone] + rest);
    PendingKindsConcat([redone], rest);
    assert [redone][..0] == [];
    assert PendingKinds([redone]) == [redone.kind];
  }

  /** Redo rewrites the log around the entry it re-activates. */
  lemma RedoSplitsLog(changes: seq<Change>, j: nat)
    requires NextToRedo(changes) == Some(j)
    ensures changes == changes[..j] + changes[j..]
    ensures AfterRedo(changes) == changes[..j] + ([changes[j].(undone := false)] + changes[j + 1..])
  {
    var redone := changes[j].(undone := false);
    assert AfterRedo(changes) == changes[j := redone];
    var split := changes[..j] + ([redone] + changes[j + 1..]);
    assert |split| == |changes|;
    assert forall i :: 0 <= i < |changes| ==> split[i] == changes[j := redone][i];
  }

  /** On a reachable log, redo puts the earliest undone change back at the end of what the
      next pass folds. */
  lemma RedoReinstatesEdit(changes: seq<Change>)
    requires Reachable(changes)
    requires NextToRedo(changes).Some?
    ensures PendingKinds(AfterRedo(changes)) ==
              PendingKinds(changes) + [changes[NextToRedo(changes).value].kind]
  {
    var j := NextToRedo(changes).value;
    assert changes[j] in changes;
    UndoneTailFoldsNothing(changes, j);
    RedoSplitsLog(changes, j);
    PendingKindsConcat(changes[..j], changes[j..]);
    ReinstateBeforeQuietTail(changes[..j], changes[j].(undone := false), changes[j + 1..]);
  }

  /** After `add` no entry is undone, so a following redo has nothing to do: a fresh edit
      discards the redo branch. */
  lemma RedoAfterAddIsNoop(changes: seq<Change>, kind: ChangeKind)
    ensures NextToRedo(AfterAdd(changes, kind)).None?
    ensures AfterRedo(AfterAdd(changes, kind)) == AfterAdd(changes, kind)
  {
    FilterMembers(changes, NotUndone);
    var added := AfterAdd(changes, kind);
    assert forall i :: 0 <= i < |added| - 1 ==> added[i] in Filter(changes, NotUndone);
  }

  // ----- the unsaved-work indicator -----

  /** `all_applied` is true on an empty log and false right after any `add`. */
  lemma AddLeavesUnsavedWork(changes: seq<Change>, kind: ChangeKind)
    ensures AllApplied([])
    ensures !AllApplied(AfterAdd(changes, kind))
  {
    var added := AfterAdd(changes, kind);
    assert IsPending(added[|added| - 1]);
  }

  /** On a log with no applied entry, `all_applied` holds exactly when a pass would fold
      nothing, i.e. exactly when there is no unsaved change. */
  lemma AllAppliedIffNothingPending(changes: seq<Change>)
    requires NeverApplied(changes)
    ensures AllApplied(changes) <==> PendingKinds(changes) == []
  {
    PendingKindsEmpty(changes);
    if PendingKinds(changes) == [] {
      assert forall i :: 0 <= i < |changes| ==> changes[i] in changes && !IsPending(changes[i]);
    }
  }

  /** After `clear_not_applied` nothing is folded any more; on a log with no applied entry
      `all_applied` then holds. */
  lemma ClearSettlesLog(changes: seq<Change>)
    ensures PendingKinds(AfterClear(changes)) == []
    ensures NeverApplied(changes) ==> AllApplied(AfterClear(changes))
  {
    PendingKindsEmpty(AfterClear(changes));
  }

  // ----- the shapes of log the operations build -----

  /** The empty log is reachable, and `add` keeps a log reachable. */
  lemma AddKeepsReachable(changes: seq<Change>, kind: ChangeKind)
    requires Reachable(changes)
    ensures Reachable([])
    ensures Reachable(AfterAdd(changes, kind))
  {
    FilterMembers(changes, NotUndone);
    var kept := Filter(changes, NotUndone);
    var added := AfterAdd(changes, kind);
    assert added == kept + [Change(kind, false, false)];
    forall i | 0 <= i < |added| ensures !added[i].undone && !added[i].applied {
      if i < |kept| {
        assert added[i] in kept;
      }
    }
    SuffixFrom(added, |added|);
  }

  /** A processing pass keeps a log reachable. */
  lemma PassKeepsReachable(changes: seq<Change>, changeApplied: bool)
    requires Reachable(changes)
    ensures Reachable(Pruned(changes, changeApplied))
  {
    PassOnUnappliedLog(changes);
    if changeApplied {
      FilterMembers(changes, IsDiscarded);
      var saved := Filter(changes, IsDiscarded);
      forall i | 0 <= i < |saved| ensures IsDiscarded(saved[i]) {
        assert saved[i] in saved;
      }
      SuffixFrom(saved, 0);
    }
  }

  /** `undo` keeps a log reachable. */
  lemma UndoKeepsReachable(changes: seq<Change>)
    requires Reachable(changes)
    ensures Reachable(AfterUndo(changes))
  {
    if LastToUndo(changes).Some? {
      var k := LastToUndo(changes).value;
      var u := AfterUndo(changes);
      assert u == changes[k := changes[k].(undone := true)];
      NoneUndoneBefore(changes, k);
      SuffixFrom(u, k);
      forall c | c in u ensures !c.applied {
        var i :| 0 <= i < |u| && u[i] == c;
        assert changes[i] in changes;
      }
    }
  }

  /** `redo` keeps a log reachable. */
  lemma RedoKeepsReachable(changes: seq<Change>)
    requires Reachable(changes)
    ensures Reachable(AfterRedo(changes))
  {
    if NextToRedo(changes).Some? {
      var k := NextToRedo(changes).value;
      var r := AfterRedo(changes);
      assert r == changes[k := changes[k].(undone := false)];
      SuffixFrom(r, k + 1);
      forall c | c in r ensures !c.applied {
        var i :| 0 <= i < |r| && r[i] == c;
        assert changes[i] in changes;
      }
    }
  }

  /** `clear_not_applied` keeps a log reachable: on such a log it marks every entry undone. */
  lemma ClearKeepsReachable(changes: seq<Change>)
    requires Reachable(changes)
    ensures Reachable(AfterClear(changes))
  {
    var cleared := AfterClear(changes);
    forall i | 0 <= i < |cleared| ensures cleared[i].undone && !cleared[i].applied {
      assert changes[i] in changes;
    }
    SuffixFrom(cleared, 0);
  }

  // ----- small scenarios -----

  /** Folding a log of one pending entry applies that entry's change to the base. */
  lemma ProjectSingle(base: seq<Trade>, kind: ChangeKind)
    ensures Projection(base, [Change(kind, false, false)]) == Apply(base, kind)
  {
    var log := [Change(kind, false, false)];
    assert log[..0] == [];
    assert PendingKinds(log) == [] + [kind];
    assert [kind][..0] == [];
    assert FoldAll(base, [kind]) == Apply(FoldAll(base, []), kind);
  }

  /** Adding a trade to an empty document and processing shows that trade. */
  lemma AddScenario(t: Trade)
    ensures Projection([], AfterAdd([], Add(t))) == [t]
  {
    assert AfterAdd([], Add(t)) == [Change(Add(t), false, false)];
    ProjectSingle([], Add(t));
  }

  /** Editing a trade replaces all of its fields. */
  lemma EditScenario(t: Trade, edited: Trade)
    requires edited.id == t.id
    ensures Projection([t], AfterAdd([], Edit(t, edited))) == [edited]
  {
    assert AfterAdd([], Edit(t, edited)) == [Change(Edit(t, edited), false, false)];
    ProjectSingle([t], Edit(t, edited));
    assert [t][1..] == [];
    assert [edited] + [] == [edited];
  }

  /** Deleting one of two trades leaves the other. */
  lemma DeleteScenario(t1: Trade, t2: Trade)
    requires t1.id != t2.id
    ensures Projection([t1, t2], AfterAdd([], Delete(t1))) == [t2]
  {
    assert AfterAdd([], Delete(t1)) == [Change(Delete(t1), false, false)];
    ProjectSingle([t1, t2], Delete(t1));
    assert [t1, t2][1..] == [t2];
    assert [t2][1..] == [];
    assert Deleted([t2], t1.id) == [t2] + Deleted([], t1.id);
    assert Deleted([t1, t2], t1.id) == [] + Deleted([t2], t1.id);
  }
}
