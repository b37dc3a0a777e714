/** The index object: rows, undo stack and revision as fields that every operation updates in place.

Each operation is proved against the step functions of UndoStack.  The containers of a frame are sorted by id, so
the loops of an undo visit the smallest id first; the loops of a squash, where the order is of no consequence, pick
the next id arbitrarily.
 */
module GenericIndexes {
  import opened UndoStack

  class GenericIndex {
    var rows: Rows
    var stack: seq<Frame>
    var revision: int

    ghost function Current(): State
      reads this
    {
      State(rows, stack, revision)
    }

    constructor ()
      ensures Current() == EMPTY
    {
      rows, stack, revision := map[], [], 0;
    }

    /** Stores a row under a caller-chosen id, or throws (`ok` is false) on a uniqueness violation. */
    method Create(id: int, row: Row) returns (ok: bool)
      modifies this
      ensures ok == CanInsert(old(rows), id, row)
      ensures ok <==> id !in old(rows) && KeysFree(old(rows), id, row)
      ensures rows == if ok then old(rows)[id := row] else old(rows)
      ensures Current() == CreateStep(old(Current()), id, row)
    {
      InsertRefused(rows, id, row);
      ok := CanInsert(rows, id, row);
      if !ok { return; }
      rows := rows[id := row];
      if |stack| > 0 {
        var head := stack[|stack| - 1];
        stack := stack[..|stack| - 1] + [head.(newIds := head.newIds + {id})];
      }
    }

    /** Replaces a live row.  The change is recorded first, and the process aborts (`ok` is false) if the new
        content violates a unique index. */
    method Modify(id: int, row: Row) returns (ok: bool)
      requires id in rows
      modifies this
      ensures ok == CanReplace(old(rows), id, row) == KeysFree(old(rows), id, row)
      ensures ok ==> rows == old(rows)[id := row] && Current() == ModifyStep(old(Current()), id, row)
    {
      InsertRefused(rows, id, row);
      if |stack| > 0 {
        var head := stack[|stack| - 1];
        if id !in head.newIds && id !in head.oldValues {
          stack := stack[..|stack| - 1] + [head.(oldValues := head.oldValues[id := rows[id]])];
        } else {
          assert stack == stack[..|stack| - 1] + [head];
        }
      }
      ok := CanReplace(rows, id, row);
      if ok {
        rows := rows[id := row];
      }
    }

    /** Removes a live row. */
    method Remove(id: int)
      requires id in rows
      modifies this
      ensures Current() == RemoveStep(old(Current()), id)
    {
      if |stack| > 0 {
        var head := stack[|stack| - 1];
        if id in head.newIds {
          head := head.(newIds := head.newIds - {id});
        } else if id in head.oldValues {
          if id !in head.removedValues {
            head := head.(removedValues := head.removedValues[id := head.oldValues[id]]);
          }
          head := head.(oldValues := head.oldValues - {id});
        } else if id !in head.removedValues {
          head := head.(removedValues := head.removedValues[id := rows[id]]);
        }
        stack := stack[..|stack| - 1] + [head];
      }
      rows := rows - {id};
    }

    /** Opens a session, unless it is disabled. */
    method StartUndoSession(enabled: bool)
      modifies this
      ensures Current() == if enabled then StartStep(old(Current())) else old(Current())
    {
      if enabled {
        revision := revision + 1;
        stack := stack + [Frame(map[], map[], {}, revision)];
      }
    }

    /** Erases the rows that the frame created; fails only if one of them is missing. */
    method EraseNew(head: Frame) returns (ok: bool)
      modifies this`rows
      ensures ok == (head.newIds <= old(rows).Keys)
      ensures ok ==> rows == old(rows) - head.newIds
    {
      var todo := head.newIds;
      while todo != {}
        invariant todo <= head.newIds && head.newIds - todo <= old(rows).Keys
        invariant rows == old(rows) - (head.newIds - todo)
        decreases |todo|
      {
        var id := Least(todo);
        if id !in rows { return false; }
        rows := rows - {id};
        todo := todo - {id};
      }
      return true;
    }

    /** Puts the old contents back; fails if a unique index is violated on the way. */
    method RestoreOld(head: Frame, ghost before: Rows) returns (ok: bool)
      requires rows == Restored(before, head, {})
      modifies this`rows
      ensures ok == RestoreSafe(before, head)
      ensures ok ==> rows == Restored(before, head, head.oldValues.Keys)
    {
      hide Restored, CanReplace;
      var todo := head.oldValues.Keys;
      ghost var done: set<int> := {};
      while todo != {}
        invariant todo !! done && todo + done == head.oldValues.Keys
        invariant forall d, t | d in done && t in todo :: d < t
        invariant rows == Restored(before, head, done)
        invariant forall id | id in done ::
                    CanReplace(Restored(before, head, Lower(head.oldValues.Keys, id)), id, head.oldValues[id])
        decreases |todo|
      {
        var id := Least(todo);
        DoneIsLower(todo, done, id);
        if !CanReplace(rows, id, head.oldValues[id]) { return false; }
        RestoreAdds(before, head, done, id);
        rows := rows[id := head.oldValues[id]];
        todo, done := todo - {id}, done + {id};
      }
      return true;
    }

    /** Puts the removed rows back; fails if a unique index is violated on the way. */
    method ReinsertRemoved(head: Frame, ghost before: Rows) returns (ok: bool)
      requires rows == Reinserted(before, head, {})
      modifies this`rows
      ensures ok == ReinsertSafe(before, head)
      ensures ok ==> rows == Reinserted(before, head, head.removedValues.Keys)
    {
      hide Reinserted, CanInsert;
      var todo := head.removedValues.Keys;
      ghost var done: set<int> := {};
      while todo != {}
        invariant todo !! done && todo + done == head.removedValues.Keys
        invariant forall d, t | d in done && t in todo :: d < t
        invariant rows == Reinserted(before, head, done)
        invariant forall id | id in done ::
                    CanInsert(Reinserted(before, head, Lower(head.removedValues.Keys, id)), id, head.removedValues[id])
        decreases |todo|
      {
        var id := Least(todo);
        DoneIsLower(todo, done, id);
        if !CanInsert(rows, id, head.removedValues[id]) { return false; }
        ReinsertAdds(before, head, done, id);
        rows := rows[id := head.removedValues[id]];
        todo, done := todo - {id}, done + {id};
      }
      return true;
    }

    /** Discards the top frame's changes; aborts (`ok` is false) exactly if a unique index is violated on the way. */
    method Undo() returns (ok: bool)
      modifies this
      ensures ok == UndoStepSafe(old(Current()))
      ensures ok ==> Current() == UndoStep(old(Current()))
    {
      hide RestoreSafe, ReinsertSafe, Restored, Reinserted, UndoRows;
      if |stack| == 0 { return true; }
      var head := stack[|stack| - 1];
      ok := EraseNew(head);
      if !ok { return; }
      UndoPhases(old(rows), head);
      ok := RestoreOld(head, old(rows));
      if !ok { return; }
      ok := ReinsertRemoved(head, old(rows));
      if !ok { return; }
      stack := stack[..|stack| - 1];
      revision := revision - 1;
    }

    /** Merges the top frame into the one below; the rows do not change. */
    method Squash()
      modifies this
      ensures rows == old(rows)
      ensures Current() == SquashStep(old(Current()))
    {
      if |stack| == 0 { return; }
      if |stack| == 1 {
        stack := stack[1..];
        revision := revision - 1;
        return;
      }
      var n := |stack|;
      var merged := MergeLoops(stack[n - 2], stack[n - 1]);
      stack := stack[..n - 2] + [merged];
      revision := revision - 1;
    }

    /** Discards the history up to and including a revision. */
    method Commit(upTo: int)
      modifies this`stack
      ensures Current() == CommitStep(old(Current()), upTo)
    {
      while |stack| > 0 && stack[0].revision <= upTo
        invariant CommitStep(Current(), upTo) == CommitStep(old(Current()), upTo)
        decreases |stack|
      {
        stack := stack[1..];
      }
    }

    /** Unwinds every frame; aborts (`ok` is false) exactly if one of the undos aborts. */
    method UndoAll() returns (ok: bool)
      modifies this
      ensures ok == UndoAllSafe(old(Current()))
      ensures ok ==> Current() == UndoAllStep(old(Current()))
    {
      hide UndoSafe, UndoRows;
      ok := true;
      while |stack| > 0
        invariant ok
        invariant UndoAllSafe(old(Current())) == UndoAllSafe(Current())
        invariant UndoAllStep(Current()) == UndoAllStep(old(Current()))
        decreases |stack|
      {
        ok := Undo();
        if !ok { return; }
      }
    }

    /** Sets the revision of an index without history; throws (`ok` is false) otherwise. */
    method SetRevision(value: int) returns (ok: bool)
      requires value >= 0
      modifies this`revision
      ensures ok == (|stack| == 0 && value < 0x8000_0000_0000_0000)
      ensures Current() == SetRevisionStep(old(Current()), value)
    {
      ok := |stack| == 0 && value <= MAX_REVISION;
      if ok {
        revision := value;
      }
    }

    /** The revisions before the oldest frame and at the newest one. */
    method UndoStackRevisionRange() returns (begin: int, end: int)
      requires Contiguous(Current())
      ensures begin == revision - |stack| && end == revision
    {
      begin, end := revision, revision;
      if |stack| > 0 {
        begin := stack[0].revision - 1;
        end := stack[|stack| - 1].revision;
      }
    }
  }

  // ----- single steps of an undo -----

  lemma RestoreAdds(before: Rows, f: Frame, done: set<int>, id: int)
    requires id in f.oldValues
    ensures Restored(before, f, done + {id}) == Restored(before, f, done)[id := f.oldValues[id]]
  {
  }

  lemma ReinsertAdds(before: Rows, f: Frame, done: set<int>, id: int)
    requires id in f.removedValues
    ensures Reinserted(before, f, done + {id}) == Reinserted(before, f, done)[id := f.removedValues[id]]
  {
  }

  lemma DoneIsLower(todo: set<int>, done: set<int>, id: int)
    requires todo !! done && id in todo && forall other | other in todo :: id <= other
    requires forall d, t | d in done && t in todo :: d < t
    ensures done == Lower(todo + done, id)
  {
  }

  /** The states at which one loop of an undo hands over to the next. */
  lemma UndoPhases(before: Rows, f: Frame)
    ensures Restored(before, f, {}) == before - f.newIds
    ensures Reinserted(before, f, {}) == Restored(before, f, f.oldValues.Keys)
    ensures Reinserted(before, f, f.removedValues.Keys) == UndoRows(before, f)
  {
  }

  // ----- the loops of squash -----

  /** What the first loop of squash has put into the old values of the frame below once it has seen `ids`. */
  ghost function CopiedRows(prev: Frame, top: Frame, ids: set<int>): Rows {
    prev.oldValues +
    (map id | id in ids && id in top.oldValues && id !in prev.newIds && id !in prev.oldValues :: top.oldValues[id])
  }

  lemma CopiedRowsAdds(prev: Frame, top: Frame, ids: set<int>, id: int)
    requires id in top.oldValues && id !in ids
    ensures var rows := CopiedRows(prev, top, ids);
            CopiedRows(prev, top, ids + {id}) ==
              if id in prev.newIds || id in rows then rows else rows[id := top.oldValues[id]]
  {
  }

  lemma CopiedRowsEnds(prev: Frame, top: Frame)
    ensures CopiedRows(prev, top, {}) == prev.oldValues
    ensures CopiedRows(prev, top, top.oldValues.Keys) == MergedOld(prev, top)
  {
  }

  /** The first loop of squash. */
  method MergeOldLoop(prev: Frame, top: Frame) returns (oldValues: Rows)
    ensures oldValues == MergedOld(prev, top)
  {
    oldValues := prev.oldValues;
    CopiedRowsEnds(prev, top);
    hide CopiedRows, MergedOld;
    var todo := top.oldValues.Keys;
    ghost var done: set<int> := {};
    while todo != {}
      invariant todo !! done && todo + done == top.oldValues.Keys
      invariant oldValues == CopiedRows(prev, top, done)
      decreases |todo|
    {
      var id := AnyOf(todo);
      CopiedRowsAdds(prev, top, done, id);
      todo, done := todo - {id}, done + {id};
      if id !in prev.newIds && id !in oldValues {
        oldValues := oldValues[id := top.oldValues[id]];
      }
    }
    assert done == top.oldValues.Keys;
  }

  /** The second loop of squash. */
  method MergeNewLoop(prev: Frame, top: Frame) returns (newIds: set<int>)
    ensures newIds == MergedNew(prev, top)
  {
    newIds := prev.newIds;
    var todo := top.newIds;
    while todo != {}
      invariant todo <= top.newIds
      invariant newIds == prev.newIds + (top.newIds - todo)
      decreases |todo|
    {
      var id := AnyOf(todo);
      newIds := newIds + {id};
      todo := todo - {id};
    }
  }

  /** What the third loop of squash has put into the removed rows of the frame below once it has seen `ids`. */
  ghost function MovedRows(old1: Rows, new1: set<int>, prev: Frame, top: Frame, ids: set<int>): Rows {
    (map id | id in ids && id in top.removedValues && id !in new1 ::
       if id in old1 then old1[id] else top.removedValues[id]) + prev.removedValues
  }

  /** What the third loop has left in the old values of the frame below once it has seen `ids`. */
  ghost function KeptRows(old1: Rows, new1: set<int>, ids: set<int>): Rows {
    old1 - (ids - new1)
  }

  lemma MovedRowsAdds(old1: Rows, new1: set<int>, prev: Frame, top: Frame, ids: set<int>, id: int)
    requires id in top.removedValues && id !in ids
    ensures var rows := MovedRows(old1, new1, prev, top, ids);
            MovedRows(old1, new1, prev, top, ids + {id}) ==
              if id in new1 then rows
              else Emplace(rows, id, if id in old1 then old1[id] else top.removedValues[id])
  {
  }

  lemma KeptRowsDrops(old1: Rows, new1: set<int>, ids: set<int>, id: int)
    requires id !in ids
    ensures var rows := KeptRows(old1, new1, ids);
            && (id in rows <==> id in old1) && (id in old1 ==> rows[id] == old1[id])
            && KeptRows(old1, new1, ids + {id}) == if id in new1 then rows else rows - {id}
  {
  }

  lemma ThirdLoopEnds(old1: Rows, new1: set<int>, prev: Frame, top: Frame)
    ensures MovedRows(old1, new1, prev, top, {}) == prev.removedValues
    ensures KeptRows(old1, new1, {}) == old1
  {
  }

  /** The third loop of squash. */
  method MergeRemovedLoop(prev: Frame, top: Frame, old1: Rows, new1: set<int>)
    returns (oldValues: Rows, newIds: set<int>, removedValues: Rows)
    ensures newIds == new1 - top.removedValues.Keys
    ensures oldValues == KeptRows(old1, new1, top.removedValues.Keys)
    ensures removedValues == MovedRows(old1, new1, prev, top, top.removedValues.Keys)
  {
    oldValues, newIds, removedValues := old1, new1, prev.removedValues;
    ThirdLoopEnds(old1, new1, prev, top);
    hide MovedRows, KeptRows;
    var todo := top.removedValues.Keys;
    ghost var done: set<int> := {};
    while todo != {}
      invariant todo !! done && todo + done == top.removedValues.Keys
      invariant newIds == new1 - done
      invariant oldValues == KeptRows(old1, new1, done)
      invariant removedValues == MovedRows(old1, new1, prev, top, done)
      decreases |todo|
    {
      var id := AnyOf(todo);
      MovedRowsAdds(old1, new1, prev, top, done, id);
      KeptRowsDrops(old1, new1, done, id);
      if id in newIds {
        newIds := newIds - {id};
      } else if id in oldValues {
        removedValues := Emplace(removedValues, id, oldValues[id]);
        oldValues := oldValues - {id};
      } else {
        removedValues := Emplace(removedValues, id, top.removedValues[id]);
        assert oldValues - {id} == oldValues;
      }
      todo, done := todo - {id}, done + {id};
    }
    assert done == top.removedValues.Keys;
  }

  /** The three loops of squash. */
  method MergeLoops(prev: Frame, top: Frame) returns (merged: Frame)
    ensures merged == Merge(prev, top)
  {
    var old1 := MergeOldLoop(prev, top);
    var new1 := MergeNewLoop(prev, top);
    var oldValues, newIds, removedValues := MergeRemovedLoop(prev, top, old1, new1);
    merged := Frame(oldValues, removedValues, newIds, prev.revision);
  }

  /** The first element of a container that is traversed in ascending order. */
  method Least(ids: set<int>) returns (id: int)
    requires ids != {}
    ensures id in ids && forall other | other in ids :: id <= other
  {
    LeastExists(ids);
    id :| id in ids && forall other | other in ids :: id <= other;
  }

  lemma {:induction false} LeastExists(ids: set<int>)
    requires ids != {}
    ensures exists id :: id in ids && forall other | other in ids :: id <= other
    decreases |ids|
  {
    var least := FindLeast(ids);
  }

  lemma {:induction false} FindLeast(ids: set<int>) returns (least: int)
    requires ids != {}
    ensures least in ids && forall other | other in ids :: least <= other
    decreases |ids|
  {
    assert (forall i :: i !in ids) ==> ids == {};
    var id :| id in ids;
    var rest := ids - {id};
    least := id;
    if rest != {} {
      var next := FindLeast(rest);
      least := if id < next then id else next;
    }
    assert forall other | other in ids :: other == id || other in rest;
  }

  /** The next element of a container whose order is of no consequence. */
  method AnyOf(ids: set<int>) returns (id: int)
    requires ids != {}
    ensures id in ids
  {
    assert (forall i :: i !in ids) ==> ids == {};
    id :| id in ids;
  }
}
