# Change-log engine of a crypto trades tracker, in Dafny

This project models the change log of a desktop trade tracker. The change log is a journal
of pending trade edits (add, edit, delete). Each time the window redraws, the journal is
replayed on top of the last saved list of trade records. Two versions of the component
are modelled.

- `change_log.py` is the early version, module `EarlyJournal`. Its log is a plain list of
  changes. `process` folds every change, in order, into a copy of the base list. The log
  also supports `add`, `clear`, `get_last`, `get_log`, `remove_last` and `restore`.
- `source/change_log.py` is the current version, module `Journal`. Every entry carries two
  flags, `applied` and `undone`:
  - `process` folds only the pending entries (neither flag set) and then updates the flags.
  - It then prunes the log to the last 10 previously-active entries, followed by every
    unapplied entry.
  - `undo` marks the last entry that is not undone. `redo` un-marks the first undone entry.
  - `add` purges every undone entry before it appends.
  - `clear_not_applied` marks every unapplied entry undone.
  - `all_applied` drives the unsaved-changes indicator.

Both versions share one set of fold rules, in module `Trades`:
- `add` appends the new record.
- `edit` replaces the first record whose id matches. With no match, nothing changes.
- `delete` removes every record with that id.

A trade record is a datatype. The fold rules only look at its `id`. Quantity and price are
exact decimals in the program and are modelled as `real`, because nothing here computes
with them.

Each class keeps its log in a `seq` field that its methods reassign. The flag flips that
the source makes in place become element updates of that sequence. Each method is proved
against a pure function of the old log (`AfterAdd`, `Pruned`, `AfterUndo`, `AfterRedo`,
`AfterClear`). Module `JournalProperties` then relates these functions to each other.

The journal file is modelled as the ghost map `persisted`, from document path to journal.
`add`, `process` and `clear_not_applied` write to it. `undo` and `redo` do not, as in the
source.

Where the code and its own comments disagree, the model follows the code:
- The docstring of `all_applied` (source/change_log.py:18) speaks of entries that are
  "applied and not undone". The test at line 20 is `applied != undone`, so it is also true
  for an entry that is undone and not applied (a discarded entry). Any pending entry makes
  it false.
- `process` folds only the pending entries (not applied, not undone; line 113). An entry that
  is applied and not undone is only kept for pruning (lines 134-135). The base list passed
  in is taken to contain it already.
- The docstring of `redo` (line 191) and the comment in `get_next_to_redo` (line 175) say
  "last". The loop at lines 176-178 returns the first undone entry, and that is the one
  `redo` re-activates.

The lemmas also show a consequence of the code as written. A save (`process(..., True)`)
marks the pending entries applied, but puts them in neither the kept active entries nor the
unapplied ones, so they leave the log. From an empty log, `add`, `process`, `undo`, `redo`
and `clear_not_applied` therefore never produce an entry whose `applied` flag is set
(the `...KeepsReachable` lemmas). The "last 10 applied" branch of the
pruning only matters for journals loaded from a file written some other way.

## Model

| member | source | states |
|---|---|---|
| Trades.FirstWithId | source/change_log.py:123-127 | the position found is the first record whose id matches; none means no record has that id |
| Trades.Edited | source/change_log.py:121-127 | an edit never changes the length of the trade list |
| Trades.EditedReplacesFirst | source/change_log.py:121-127 | an edit replaces exactly the first record with a matching id; with no match the list is unchanged |
| Trades.ReplaceFirst | source/change_log.py:123-127 | the enumerate-and-break loop computes exactly the edit result |
| Trades.Deleted | source/change_log.py:128-129 | a delete keeps exactly the records whose id differs, so none with the deleted id remains |
| Trades.DeletedIsFilter | source/change_log.py:128-129 | a delete keeps exactly the records whose id differs, in their order and with their repetitions |
| Trades.DeletedConcat | change_log.py:29-31 | a delete works part by part, so the surviving records keep their order |
| Trades.DeletedAbsent | change_log.py:29-31 | deleting an id no record carries changes nothing |
| Trades.Apply | source/change_log.py:118-129 | add appends the new record after the unchanged list; edit keeps the length; delete leaves no record with the id |
| Trades.FoldAllConcat | change_log.py:15-31 | changes are folded in sequence: folding xs then ys equals folding xs + ys |
| Trades.ApplyChange | change_log.py:16-31 | the per-entry branch on the change type computes the fold of that change |
| EarlyJournal.ChangeLog.constructor | change_log.py:2-3 | a new log is empty |
| EarlyJournal.ChangeLog.Add | change_log.py:5-10 | appends exactly one entry at the end, leaves the earlier entries unchanged, and `get_last` then returns it |
| EarlyJournal.ChangeLog.Process | change_log.py:12-33 | returns the base with every logged change folded in order; modifies neither the log nor the input; an empty log returns the input |
| EarlyJournal.ChangeLog.Clear | change_log.py:35-36 | after `clear`, `get_log` is empty |
| EarlyJournal.ChangeLog.GetLog | change_log.py:41-42 | returns the current log, whose final entry is the one `get_last` returns; empty exactly when `get_last` has nothing |
| EarlyJournal.ChangeLog.GetLast | change_log.py:38-39 | the last entry of a non-empty log; none exactly when the log is empty (where the source raises) |
| EarlyJournal.ChangeLog.RemoveLast | change_log.py:44-45 | drops exactly the last entry; on an empty log it reports failure and changes nothing |
| EarlyJournal.ChangeLog.Restore | change_log.py:47-48 | after `restore(log)`, `get_log` returns exactly `log` |
| EarlyJournal.AddThenRemoveLast | change_log.py:5-10 | `add` followed by `remove_last` gives back the previous log |
| Journal.AllApplied | source/change_log.py:16-20 | true exactly when every entry is active or discarded; so any pending entry makes it false |
| Journal.SettleFlags | source/change_log.py:131-139 | a pass sets `applied` to `change_applied` on pending entries, clears it on applied-and-undone ones, leaves the rest alone, and never changes `undone` |
| Journal.LastToUndo | source/change_log.py:161-169 | the position of the last entry that is not undone; none exactly when every entry is undone |
| Journal.NextToRedo | source/change_log.py:171-179 | the position of the first undone entry; none exactly when no entry is undone |
| Journal.ChangeLog.constructor | source/change_log.py:10-14 | a new log is empty; the journal file is left as it was |
| Journal.ChangeLog.WriteChanges | source/change_log.py:85-101 | the journal file now holds the current log under the document's path, the other paths unchanged |
| Journal.ChangeLog.Add | source/change_log.py:71-83 | the new log is the entries whose `undone` is false, in order, followed by one new pending entry; the log is written out |
| Journal.ChangeLog.Process | source/change_log.py:103-150 | returns the base with only the pending entries folded in, in log order; the new log is the last 10 entries active at the start followed by every entry unapplied after the flag updates; the log is written out |
| Journal.ChangeLog.ClearNotApplied | source/change_log.py:152-159 | every entry with `applied` false becomes undone and nothing else changes; the log is written out |
| Journal.ChangeLog.Undo | source/change_log.py:181-187 | marks undone the last entry that is not undone and nothing else; no-op when all are undone; the file is not written |
| Journal.ChangeLog.Redo | source/change_log.py:189-195 | clears `undone` on the first undone entry and nothing else; no-op when none is undone; the file is not written |
| JournalProperties.PendingKindsConcat | source/change_log.py:111-117 | the changes folded for a log are those folded for each of its parts, in log order |
| JournalProperties.PendingKindsEmpty | source/change_log.py:111-141 | a pass folds nothing exactly when the log has no pending entry |
| JournalProperties.RedrawKeepsPending | source/change_log.py:131-145 | after a pass with `change_applied` false, the unapplied entries that are pending are exactly the entries that were pending |
| JournalProperties.RedrawKeepsProjection | source/change_log.py:103-150 | after a pass with `change_applied` false, the next pass projects the same trades |
| JournalProperties.CommitSettlesLog | source/change_log.py:103-150 | after a saving pass nothing is pending, `all_applied` holds, and the saved list with the pruned log projects to itself |
| JournalProperties.PruneBound | source/change_log.py:143-146 | the pruned log's active entries are the last 10 active at the start, so at most 10; its unapplied entries are exactly the unapplied entries after the pass, in order |
| JournalProperties.CommitFilter | source/change_log.py:131-146 | on a log with no applied entry, the unapplied entries after a saving pass are exactly the discarded entries |
| JournalProperties.PassOnUnappliedLog | source/change_log.py:131-146 | on a log with no applied entry, a saving pass keeps only the discarded entries (saved ones leave the log) and a redraw keeps the log unchanged |
| JournalProperties.NextToRedoIs | source/change_log.py:171-179 | the first undone entry is the one redo targets |
| JournalProperties.LastToUndoIs | source/change_log.py:161-169 | the last entry that is not undone is the one undo targets |
| JournalProperties.UndoThenRedo | source/change_log.py:181-195 | when undone entries form a suffix and something can be undone, undo then redo restores the log |
| JournalProperties.RedoThenUndo | source/change_log.py:181-195 | when undone entries form a suffix and something can be redone, redo then undo restores the log |
| JournalProperties.UndoRetractsLastEdit | source/change_log.py:161-187 | on a log with no applied entry, undo removes the most recent pending change from what the next pass folds |
| JournalProperties.RedoReinstatesEdit | source/change_log.py:171-195 | on a reachable log, redo appends the earliest undone change to what the next pass folds |
| JournalProperties.RedoAfterAddIsNoop | source/change_log.py:71-83 | after `add` no entry is undone, so a redo is a no-op: a fresh edit discards the redo branch |
| JournalProperties.AddLeavesUnsavedWork | source/change_log.py:16-20 | `all_applied` is true on an empty log and false right after any `add` |
| JournalProperties.AllAppliedIffNothingPending | source/change_log.py:16-20 | on a log with no applied entry, `all_applied` holds exactly when a pass would fold nothing |
| JournalProperties.ClearSettlesLog | source/change_log.py:152-159 | after `clear_not_applied` a pass folds nothing; on a log with no applied entry `all_applied` then holds |
| JournalProperties.AddKeepsReachable | source/change_log.py:71-83 | the empty log is reachable, and `add` keeps a log reachable (no applied entry, undone entries last) |
| JournalProperties.PassKeepsReachable | source/change_log.py:103-150 | a processing pass keeps a log reachable |
| JournalProperties.UndoKeepsReachable | source/change_log.py:181-187 | undo keeps a log reachable |
| JournalProperties.RedoKeepsReachable | source/change_log.py:189-195 | redo keeps a log reachable |
| JournalProperties.ClearKeepsReachable | source/change_log.py:152-159 | `clear_not_applied` keeps a log reachable |
| JournalProperties.ProjectSingle | source/change_log.py:111-131 | a log of one pending entry folds exactly that change into the base |
| JournalProperties.AddScenario | source/change_log.py:118-120 | adding a trade to an empty document and processing shows exactly that trade |
| JournalProperties.EditScenario | source/change_log.py:121-127 | editing a trade replaces all of its fields |
| JournalProperties.DeleteScenario | source/change_log.py:128-129 | deleting one of two trades leaves the other |

## Left out

- `load` and `create_new_file` (source/change_log.py:22-69) are left out. They read and
  rewrite the JSON journal file, check its version string and turn decimal strings back
  into decimals. All of that is file I/O.
- `write_changes` is reduced to updating the ghost map `persisted`. The source re-reads the
  journal file first. When that file is missing or malformed, it starts from an empty
  dictionary, which drops the other documents' journals. The model does not capture that.
- Change payloads are a tagged union, so malformed entries cannot be represented:
  - a `None` record where the change type needs one;
  - an unknown `change_type` string;
  - an entry loaded without its `applied`/`undone` keys, where the `.get` defaults would apply.
- The model works on values, so it does not capture aliasing:
  - `get_last_to_undo` and `get_next_to_redo` return the live entry object.
  - The early `get_log` returns the live list.
  - `restore` shares the caller's list.
- Journal.LastToUndo and Journal.NextToRedo return the entry's position, not the entry
  itself. The source returns the entry at that position.
- EarlyJournal.ChangeLog.GetLast and EarlyJournal.ChangeLog.RemoveLast do not raise on an
  empty log, where the source raises `IndexError`. They report the error as `None` and as
  `false` respectively.
- The window code, dialogs, validators, table items and JSON encoders are not part of this
  model. So are the position and profit/loss aggregation and all decimal arithmetic.
