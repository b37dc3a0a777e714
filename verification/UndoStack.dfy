/** The undo stack of one chainbase index.

The rows of the index are a map from object id to row.  Every undo frame holds the compacted
difference between the rows when the frame was opened and the rows when the next frame was opened
(or the present rows, for the top frame).  The recorders keep that difference up to date, and
undo, squash and commit consume it.
 */
module UndoStack {

  /** What the container stores under an id: one key for each unique index besides the id itself, and the rest. */
  datatype Row = Row(keys: seq<int>, body: string)

  type Rows = map<int, Row>

  /** Two rows that cannot both be stored, because some unique index maps them to the same key. */
  predicate Clash(a: Row, b: Row) {
    exists j :: 0 <= j < |a.keys| && j < |b.keys| && a.keys[j] == b.keys[j]
  }

  /** Whether the container accepts `row` under `id`. */
  predicate CanInsert(rows: Rows, id: int, row: Row) {
    id !in rows && forall other | other in rows :: !Clash(row, rows[other])
  }

  /** Whether the container accepts `row` as the new content of `id`. */
  predicate CanReplace(rows: Rows, id: int, row: Row) {
    id in rows && forall other | other in rows && other != id :: !Clash(row, rows[other])
  }

  ghost predicate Unique(rows: Rows) {
    forall a, b | a in rows && b in rows && a != b :: !Clash(rows[a], rows[b])
  }

  /** No row under another id has the key of `row` in any unique index that both are in. */
  ghost predicate KeysFree(rows: Rows, id: int, row: Row) {
    forall other, j: nat | other in rows && other != id && j < |row.keys| && j < |rows[other].keys| ::
      rows[other].keys[j] != row.keys[j]
  }

  /** A row is refused exactly if its id is taken or some stored row has the same key at the same position. */
  lemma InsertRefused(rows: Rows, id: int, row: Row)
    ensures CanInsert(rows, id, row) <==> id !in rows && KeysFree(rows, id, row)
    ensures id in rows ==> (CanReplace(rows, id, row) <==> KeysFree(rows, id, row))
  {
    forall other | other in rows && other != id
      ensures Clash(row, rows[other]) <==>
                exists j: nat :: j < |row.keys| && j < |rows[other].keys| && rows[other].keys[j] == row.keys[j]
    {
    }
    hide Clash;
  }

  datatype Frame = Frame(oldValues: Rows, removedValues: Rows, newIds: set<int>, revision: int)

  datatype State = State(rows: Rows, stack: seq<Frame>, revision: int) {
    predicate Enabled() { |stack| > 0 }

    function Head(): Frame
      requires Enabled()
    {
      stack[|stack| - 1]
    }

    function WithHead(head: Frame): State
      requires Enabled()
    {
      this.(stack := stack[..|stack| - 1] + [head])
    }
  }

  /** Insertion that leaves an entry already there alone. */
  function Emplace(m: Rows, id: int, row: Row): Rows {
    if id in m then m else m[id := row]
  }

  // ----- the recorders -----

  function OnCreate(f: Frame, id: int): Frame {
    f.(newIds := f.newIds + {id})
  }

  function OnModify(f: Frame, id: int, was: Row): Frame {
    if id in f.newIds then f
    else if id in f.oldValues then f
    else f.(oldValues := Emplace(f.oldValues, id, was))
  }

  function OnRemove(f: Frame, id: int, was: Row): Frame {
    if id in f.newIds then
      f.(newIds := f.newIds - {id})
    else if id in f.oldValues then
      f.(removedValues := Emplace(f.removedValues, id, f.oldValues[id]), oldValues := f.oldValues - {id})
    else if id in f.removedValues then f
    else f.(removedValues := Emplace(f.removedValues, id, was))
  }

  // ----- consuming frames -----

  /** The rows that undoing `f` leaves: new rows erased, old contents restored, removed rows put back. */
  function UndoRows(rows: Rows, f: Frame): Rows {
    (rows - f.newIds) + f.oldValues + f.removedValues
  }

  /** The state in the middle of an undo, when only the old values of `ids` have been restored. */
  ghost function Restored(rows: Rows, f: Frame, ids: set<int>): Rows {
    (rows - f.newIds) + (map id | id in ids && id in f.oldValues :: f.oldValues[id])
  }

  /** The state in the middle of an undo, when all old values but only the removed rows of `ids` are back. */
  ghost function Reinserted(rows: Rows, f: Frame, ids: set<int>): Rows {
    (rows - f.newIds) + f.oldValues + (map id | id in ids && id in f.removedValues :: f.removedValues[id])
  }

  /** The ids that a container in ascending order visits before `id`. */
  ghost function Lower(ids: set<int>, id: int): set<int> {
    set other | other in ids && other < id
  }

  /** Every old value is accepted in its turn; the loop visits the ids in ascending order. */
  ghost predicate RestoreSafe(rows: Rows, f: Frame) {
    forall id | id in f.oldValues :: CanReplace(Restored(rows, f, Lower(f.oldValues.Keys, id)), id, f.oldValues[id])
  }

  /** Every removed row is accepted in its turn. */
  ghost predicate ReinsertSafe(rows: Rows, f: Frame) {
    forall id | id in f.removedValues ::
      CanInsert(Reinserted(rows, f, Lower(f.removedValues.Keys, id)), id, f.removedValues[id])
  }

  /** Undoing `f` finds every row it looks for and never violates a unique index on the way. */
  ghost predicate UndoSafe(rows: Rows, f: Frame) {
    f.newIds <= rows.Keys && RestoreSafe(rows, f) && ReinsertSafe(rows, f)
  }

  /** The first loop of squash: changes of the top frame that the frame below does not already know. */
  function MergedOld(prev: Frame, top: Frame): Rows {
    prev.oldValues +
    (map id | id in top.oldValues && id !in prev.newIds && id !in prev.oldValues :: top.oldValues[id])
  }

  function MergedNew(prev: Frame, top: Frame): set<int> {
    prev.newIds + top.newIds
  }

  /** The frame that squash leaves in place of `prev` and `top`. */
  function Merge(prev: Frame, top: Frame): Frame {
    var old1 := MergedOld(prev, top);
    var new1 := MergedNew(prev, top);
    var gone := top.removedValues.Keys - new1;
    Frame(old1 - gone,
          (map id | id in gone :: if id in old1 then old1[id] else top.removedValues[id]) + prev.removedValues,
          new1 - top.removedValues.Keys,
          prev.revision)
  }

  // ----- the operations of the index -----

  datatype Op =
    | Create(id: int, row: Row)
    | Modify(id: int, row: Row)
    | Remove(id: int)
    | Start
    | Undo
    | Squash
    | Commit(upTo: int)
    | UndoAll
    | SetRevision(value: int)

  const MAX_REVISION := 0x7fff_ffff_ffff_ffff

  function CreateStep(s: State, id: int, row: Row): State {
    if !CanInsert(s.rows, id, row) then s
    else
      var t := s.(rows := s.rows[id := row]);
      if t.Enabled() then t.WithHead(OnCreate(t.Head(), id)) else t
  }

  function ModifyStep(s: State, id: int, row: Row): State
    requires id in s.rows
  {
    var t := s.(rows := s.rows[id := row]);
    if t.Enabled() then t.WithHead(OnModify(t.Head(), id, s.rows[id])) else t
  }

  function RemoveStep(s: State, id: int): State
    requires id in s.rows
  {
    var t := s.(rows := s.rows - {id});
    if t.Enabled() then t.WithHead(OnRemove(t.Head(), id, s.rows[id])) else t
  }

  function StartStep(s: State): State {
    State(s.rows, s.stack + [Frame(map[], map[], {}, s.revision + 1)], s.revision + 1)
  }

  function UndoStep(s: State): State {
    if !s.Enabled() then s
    else State(UndoRows(s.rows, s.Head()), s.stack[..|s.stack| - 1], s.revision - 1)
  }

  function SquashStep(s: State): State {
    var n := |s.stack|;
    if n == 0 then s
    else if n == 1 then State(s.rows, s.stack[1..], s.revision - 1)
    else State(s.rows, s.stack[..n - 2] + [Merge(s.stack[n - 2], s.stack[n - 1])], s.revision - 1)
  }

  function CommitStep(s: State, upTo: int): State
    decreases |s.stack|
  {
    if |s.stack| > 0 && s.stack[0].revision <= upTo then CommitStep(s.(stack := s.stack[1..]), upTo) else s
  }

  function UndoAllStep(s: State): State
    decreases |s.stack|
  {
    if s.Enabled() then UndoAllStep(UndoStep(s)) else s
  }

  /** The next undo is safe. */
  ghost predicate UndoStepSafe(s: State) {
    s.Enabled() ==> UndoSafe(s.rows, s.Head())
  }

  /** Every undo on the way down the stack is safe. */
  ghost predicate UndoAllSafe(s: State)
    decreases |s.stack|
  {
    UndoStepSafe(s) && (s.Enabled() ==> UndoAllSafe(UndoStep(s)))
  }

  function SetRevisionStep(s: State, value: int): State {
    if s.Enabled() || value < 0 || value > MAX_REVISION then s else s.(revision := value)
  }

  /** What the code demands of its callers: a live row to modify or remove, a modification that does not clash, an
      undo that does not abort, and a squash of two frames that compose. */
  ghost predicate Allowed(s: State, op: Op) {
    match op
    case Modify(id, row) => CanReplace(s.rows, id, row)
    case Remove(id) => id in s.rows
    case Undo => UndoStepSafe(s)
    case UndoAll => UndoAllSafe(s)
    case Squash => |s.stack| >= 2 ==> ContentsAgree(s.rows, s.stack[|s.stack| - 2], s.Head())
    case _ => true
  }

  predicate Defined(s: State, op: Op) {
    op.Modify? || op.Remove? ==> op.id in s.rows
  }

  function Step(s: State, op: Op): State
    requires Defined(s, op)
  {
    match op
    case Create(id, row) => CreateStep(s, id, row)
    case Modify(id, row) => ModifyStep(s, id, row)
    case Remove(id) => RemoveStep(s, id)
    case Start => StartStep(s)
    case Undo => UndoStep(s)
    case Squash => SquashStep(s)
    case Commit(upTo) => CommitStep(s, upTo)
    case UndoAll => UndoAllStep(s)
    case SetRevision(value) => SetRevisionStep(s, value)
  }

  /** Ids that the top frame removed and then created again. */
  function Recreated(top: Frame): set<int> {
    top.newIds * top.removedValues.Keys
  }

  /** Every id the top frame removed and created again is either changed by the frame below, or untouched by
      it and back to the value it was removed with. */
  ghost predicate ContentsAgree(rows: Rows, prev: Frame, top: Frame) {
    forall id | id in Recreated(top) && id in rows ::
      id in prev.oldValues || (id !in prev.newIds && rows[id] == top.removedValues[id])
  }

  /** No row still holds a unique key when the frame gives that key back to a row with a smaller id. */
  ghost predicate NoKeyTrade(rows: Rows, f: Frame) {
    forall i, j | i in f.oldValues && j in f.oldValues && j in rows && i < j :: !Clash(f.oldValues[i], rows[j])
  }

  /** What the two frames must satisfy so that the undo after their squash is that of both, and does not abort. */
  ghost predicate SquashSound(rows: Rows, prev: Frame, top: Frame) {
    ContentsAgree(rows, prev, top) && NoKeyTrade(rows, Merge(prev, top))
  }

  // ----- what a frame means -----

  /** `f` is the compacted difference that leads from `after` back to `before`. */
  ghost predicate Records(f: Frame, before: Rows, after: Rows) {
    && f.newIds <= after.Keys
    && f.oldValues.Keys <= before.Keys * after.Keys
    && f.removedValues.Keys <= before.Keys
    && f.oldValues.Keys !! f.newIds
    && f.oldValues.Keys !! f.removedValues.Keys
    && (forall id | id in f.oldValues :: f.oldValues[id] == before[id])
    && (forall id | id in f.removedValues :: f.removedValues[id] == before[id] && (id in after <==> id in f.newIds))
    && (forall id | id in f.newIds :: id in before <==> id in f.removedValues)
    && (forall id | id in before && id !in f.removedValues && id !in f.oldValues :: id in after && after[id] == before[id])
    && (forall id | id in after && id !in f.newIds :: id in before)
  }

  /** The id was there before and is there now, as the same row. */
  ghost predicate Survives(f: Frame, before: Rows, after: Rows, id: int) {
    id in before && id in after && id !in f.newIds
  }

  /** No surviving row holds a unique key that a surviving row with a smaller id had before. */
  ghost predicate KeysOrdered(f: Frame, before: Rows, after: Rows) {
    forall i, j | Survives(f, before, after, i) && Survives(f, before, after, j) && i < j :: !Clash(before[i], after[j])
  }

  /** No surviving row holds a unique key that another surviving row had before. */
  ghost predicate KeysApart(f: Frame, before: Rows, after: Rows) {
    forall i, j | Survives(f, before, after, i) && Survives(f, before, after, j) && i != j :: !Clash(before[i], after[j])
  }

  /** Rows that survived from `before` to `after` have the unique keys they had. */
  ghost predicate KeysKept(f: Frame, before: Rows, after: Rows) {
    forall id | Survives(f, before, after, id) :: before[id].keys == after[id].keys
  }

  /** What the code asks of modifications: after any part of the undo, every other row can be given back. */
  ghost predicate AnyOrderSafe(rows: Rows, f: Frame) {
    && f.newIds <= rows.Keys
    && (forall done: set<int>, id | id in f.oldValues && id !in done ::
          CanReplace(Restored(rows, f, done), id, f.oldValues[id]))
    && (forall done: set<int>, id | id in f.removedValues && id !in done ::
          CanInsert(Reinserted(rows, f, done), id, f.removedValues[id]))
  }

  lemma ClashSymmetric(a: Row, b: Row)
    ensures Clash(a, b) == Clash(b, a)
  {
  }

  lemma SameKeysClash(a: Row, b: Row, a': Row, b': Row)
    requires a.keys == a'.keys && b.keys == b'.keys
    ensures Clash(a, b) == Clash(a', b')
  {
  }

  /** Rows that all carry the keys they have in a state without clashes do not clash either. */
  lemma SubsetUnique(part: Rows, whole: Rows)
    requires Unique(whole)
    requires forall id | id in part :: id in whole && part[id].keys == whole[id].keys
    ensures Unique(part)
  {
    forall a, b | a in part && b in part && a != b
      ensures !Clash(part[a], part[b])
    {
      SameKeysClash(part[a], part[b], whole[a], whole[b]);
    }
  }

  /** Undoing a frame gives back exactly the rows that were there when the frame was opened. */
  lemma UndoInverts(f: Frame, before: Rows, after: Rows)
    requires Records(f, before, after)
    ensures UndoRows(after, f) == before
  {
    var undone := UndoRows(after, f);
    forall id
      ensures id in undone <==> id in before
      ensures id in before ==> undone[id] == before[id]
    {
    }
  }

  /** Undoing a frame cannot abort exactly when no surviving row holds a key that is given back too early. */
  lemma UndoSafeExact(f: Frame, before: Rows, after: Rows)
    requires Records(f, before, after) && Unique(before) && Unique(after)
    ensures UndoSafe(after, f) <==> KeysOrdered(f, before, after)
  {
    hide Clash;
    if KeysOrdered(f, before, after) {
      forall id | id in f.oldValues
        ensures CanReplace(Restored(after, f, Lower(f.oldValues.Keys, id)), id, f.oldValues[id])
      {
        RestoreAccepted(f, before, after, Lower(f.oldValues.Keys, id), id);
      }
      forall id | id in f.removedValues
        ensures CanInsert(Reinserted(after, f, Lower(f.removedValues.Keys, id)), id, f.removedValues[id])
      {
        ReinsertAccepted(f, before, after, Lower(f.removedValues.Keys, id), id);
      }
    }
    if UndoSafe(after, f) {
      forall i, j | Survives(f, before, after, i) && Survives(f, before, after, j) && i < j
        ensures !Clash(before[i], after[j])
      {
        SafePair(f, before, after, Lower(f.oldValues.Keys, i), i, j);
      }
    }
  }

  /** One old value is accepted if the rows whose turn has not come do not hold its keys. */
  lemma RestoreAccepted(f: Frame, before: Rows, after: Rows, done: set<int>, id: int)
    requires Records(f, before, after) && Unique(before) && id in f.oldValues && id !in done
    requires forall j | Survives(f, before, after, j) && j != id && j in f.oldValues && j !in done ::
               !Clash(before[id], after[j])
    ensures CanReplace(Restored(after, f, done), id, f.oldValues[id])
  {
    hide Clash;
    var mid := Restored(after, f, done);
    forall other | other in mid && other != id
      ensures !Clash(f.oldValues[id], mid[other])
    {
      assert Survives(f, before, after, other);
      if other in f.oldValues && other !in done {
        assert mid[other] == after[other];
      } else {
        assert mid[other] == before[other];
      }
    }
  }

  lemma ReinsertAccepted(f: Frame, before: Rows, after: Rows, done: set<int>, id: int)
    requires Records(f, before, after) && Unique(before) && id in f.removedValues && id !in done
    ensures CanInsert(Reinserted(after, f, done), id, f.removedValues[id])
  {
    hide Clash;
    var mid := Reinserted(after, f, done);
    forall other | other in mid
      ensures other in before && mid[other] == before[other] && other != id
    {
    }
  }

  /** An old value that is accepted does not clash with a row whose turn has not come. */
  lemma SafePair(f: Frame, before: Rows, after: Rows, done: set<int>, i: int, j: int)
    requires Records(f, before, after) && Unique(after) && i != j && j !in done
    requires Survives(f, before, after, i) && Survives(f, before, after, j)
    requires i in f.oldValues ==> CanReplace(Restored(after, f, done), i, f.oldValues[i])
    ensures !Clash(before[i], after[j])
  {
    hide Clash;
    if i in f.oldValues {
      assert Restored(after, f, done)[j] == after[j];
    } else {
      assert before[i] == after[i];
    }
  }

  /** The documented demand, that the changes can be undone in any order, means that no two survivors traded keys. */
  lemma AnyOrderExact(f: Frame, before: Rows, after: Rows)
    requires Records(f, before, after) && Unique(before) && Unique(after)
    ensures AnyOrderSafe(after, f) <==> KeysApart(f, before, after)
  {
    hide Clash, CanReplace, CanInsert;
    if KeysApart(f, before, after) {
      forall done: set<int>, id | id in f.oldValues && id !in done
        ensures CanReplace(Restored(after, f, done), id, f.oldValues[id])
      {
        RestoreAccepted(f, before, after, done, id);
      }
      forall done: set<int>, id | id in f.removedValues && id !in done
        ensures CanInsert(Reinserted(after, f, done), id, f.removedValues[id])
      {
        ReinsertAccepted(f, before, after, done, id);
      }
    }
    if AnyOrderSafe(after, f) {
      forall i, j | Survives(f, before, after, i) && Survives(f, before, after, j) && i != j
        ensures !Clash(before[i], after[j])
      {
        SafePair(f, before, after, {}, i, j);
      }
    }
  }

  /** The documented demand is enough for an undo that does not abort, and is met where surviving rows keep their
      unique keys, even when a removed row's key was taken over by a row with a new id. */
  lemma UndoNeverAborts(f: Frame, before: Rows, after: Rows)
    requires Records(f, before, after) && Unique(before) && Unique(after)
    ensures AnyOrderSafe(after, f) ==> UndoSafe(after, f)
    ensures KeysKept(f, before, after) ==> AnyOrderSafe(after, f)
  {
    hide Clash, UndoSafe, AnyOrderSafe;
    UndoSafeExact(f, before, after);
    AnyOrderExact(f, before, after);
    if KeysKept(f, before, after) {
      forall i, j | Survives(f, before, after, i) && Survives(f, before, after, j) && i != j
        ensures !Clash(before[i], after[j])
      {
        SameKeysClash(before[i], after[j], after[i], after[j]);
      }
    }
  }

  // ----- the recorders keep the difference -----

  lemma CreateRecorded(f: Frame, before: Rows, after: Rows, id: int, row: Row)
    requires Records(f, before, after) && id !in after
    ensures Records(OnCreate(f, id), before, after[id := row])
    ensures KeysOrdered(f, before, after) ==> KeysOrdered(OnCreate(f, id), before, after[id := row])
  {
    hide Clash;
  }

  /** Recording a change keeps the difference exact; where undo was safe it stays so exactly when the new content
      takes no key that an earlier row gets back. */
  lemma ModifyRecorded(f: Frame, before: Rows, after: Rows, id: int, row: Row)
    requires Records(f, before, after) && Unique(before) && Unique(after) && CanReplace(after, id, row)
    ensures Records(OnModify(f, id, after[id]), before, after[id := row])
    ensures KeysOrdered(f, before, after) ==>
              (KeysOrdered(OnModify(f, id, after[id]), before, after[id := row]) <==>
                 (id !in f.newIds ==> forall i | i in f.oldValues && i < id :: !Clash(f.oldValues[i], row)))
  {
    hide Clash;
    ChangeRecorded(f, before, after, id, row);
    if KeysOrdered(f, before, after) {
      ChangeOrdered(f, before, after, id, row);
    }
  }

  lemma ChangeRecorded(f: Frame, before: Rows, after: Rows, id: int, row: Row)
    requires Records(f, before, after) && id in after
    ensures Records(OnModify(f, id, after[id]), before, after[id := row])
  {
  }

  lemma ChangeOrdered(f: Frame, before: Rows, after: Rows, id: int, row: Row)
    requires Records(f, before, after) && Unique(before) && Unique(after) && CanReplace(after, id, row)
    requires KeysOrdered(f, before, after)
    ensures KeysOrdered(OnModify(f, id, after[id]), before, after[id := row]) <==>
              (id !in f.newIds ==> forall i | i in f.oldValues && i < id :: !Clash(f.oldValues[i], row))
  {
    hide Clash;
    var f', after' := OnModify(f, id, after[id]), after[id := row];
    if id !in f.newIds ==> forall i | i in f.oldValues && i < id :: !Clash(f.oldValues[i], row) {
      forall i, j | Survives(f', before, after', i) && Survives(f', before, after', j) && i < j
        ensures !Clash(before[i], after'[j])
      {
        assert Survives(f, before, after, i) && Survives(f, before, after, j);
        if j == id && i !in f.oldValues {
          assert before[i] == after[i];
          ClashSymmetric(before[i], row);
        }
      }
    }
    if KeysOrdered(f', before, after') && id !in f.newIds {
      forall i | i in f.oldValues && i < id
        ensures !Clash(f.oldValues[i], row)
      {
        assert Survives(f', before, after', i) && Survives(f', before, after', id);
        assert before[i] == f.oldValues[i] && after'[id] == row;
      }
    }
  }

  lemma RemoveRecorded(f: Frame, before: Rows, after: Rows, id: int)
    requires Records(f, before, after) && id in after
    ensures Records(OnRemove(f, id, after[id]), before, after - {id})
    ensures KeysOrdered(f, before, after) ==> KeysOrdered(OnRemove(f, id, after[id]), before, after - {id})
  {
    hide Clash;
    RemovalRecorded(f, before, after, id);
    var f', after' := OnRemove(f, id, after[id]), after - {id};
    forall i | Survives(f', before, after', i)
      ensures Survives(f, before, after, i) && after'[i] == after[i]
    {
    }
  }

  lemma RemovalRecorded(f: Frame, before: Rows, after: Rows, id: int)
    requires Records(f, before, after) && id in after
    ensures Records(OnRemove(f, id, after[id]), before, after - {id})
  {
  }

  // ----- squash -----

  /** The merged frame is the difference across both levels, in every cell of the squash matrix. */
  lemma MergeRecords(prev: Frame, top: Frame, s0: Rows, s1: Rows, rows: Rows)
    requires Records(prev, s0, s1) && Records(top, s1, rows)
    requires ContentsAgree(rows, prev, top)
    ensures Records(Merge(prev, top), s0, rows)
  {
    hide Merge, ContentsAgree;
    var f := Merge(prev, top);
    forall id
      ensures id in f.oldValues ==>
                id in s0 && id in rows && f.oldValues[id] == s0[id] && id !in f.newIds && id !in f.removedValues
      ensures id in f.removedValues ==> id in s0 && f.removedValues[id] == s0[id] && (id in rows <==> id in f.newIds)
    {
      MergedRowIs(prev, top, s0, s1, rows, id);
    }
    forall id
      ensures id in f.newIds ==> id in rows && (id in s0 <==> id in f.removedValues)
      ensures id in s0 && id !in f.removedValues && id !in f.oldValues ==> id in rows && rows[id] == s0[id]
      ensures id in rows && id !in f.newIds ==> id in s0
    {
      MergedRestIs(prev, top, s0, s1, rows, id);
    }
  }

  /** One row in the old or removed values of the merged frame. */
  lemma MergedRowIs(prev: Frame, top: Frame, s0: Rows, s1: Rows, rows: Rows, id: int)
    requires Records(prev, s0, s1) && Records(top, s1, rows) && ContentsAgree(rows, prev, top)
    ensures var f := Merge(prev, top);
            && (id in f.oldValues ==>
                  id in s0 && id in rows && f.oldValues[id] == s0[id] && id !in f.newIds && id !in f.removedValues)
            && (id in f.removedValues ==> id in s0 && f.removedValues[id] == s0[id] && (id in rows <==> id in f.newIds))
  {
  }

  /** A row that the merged frame creates or does not mention. */
  lemma MergedRestIs(prev: Frame, top: Frame, s0: Rows, s1: Rows, rows: Rows, id: int)
    requires Records(prev, s0, s1) && Records(top, s1, rows) && ContentsAgree(rows, prev, top)
    ensures var f := Merge(prev, top);
            && (id in f.newIds ==> id in rows && (id in s0 <==> id in f.removedValues))
            && (id in s0 && id !in f.removedValues && id !in f.oldValues ==> id in rows && rows[id] == s0[id])
            && (id in rows && id !in f.newIds ==> id in s0)
  {
  }

  /** Rows that a frame does not restore have the keys they had, so only pairs of restored rows matter. */
  lemma UntradedKeysOrdered(f: Frame, before: Rows, after: Rows)
    requires Records(f, before, after) && Unique(before) && Unique(after)
    ensures NoKeyTrade(after, f) <==> KeysOrdered(f, before, after)
  {
    hide Clash;
    if NoKeyTrade(after, f) {
      forall i, j | Survives(f, before, after, i) && Survives(f, before, after, j) && i < j
        ensures !Clash(before[i], after[j])
      {
        if i !in f.oldValues {
          assert before[i] == after[i];
        } else if j !in f.oldValues {
          assert before[j] == after[j];
        }
      }
    }
    if KeysOrdered(f, before, after) {
      forall i, j | i in f.oldValues && j in f.oldValues && j in after && i < j
        ensures !Clash(f.oldValues[i], after[j])
      {
        assert Survives(f, before, after, i) && Survives(f, before, after, j);
      }
    }
  }

  /** The outcome that squash promises: one undo of the merged frame cannot abort and gives what undoing the
      top frame and then the frame below would have given. */
  ghost predicate SquashComposes(rows: Rows, prev: Frame, top: Frame) {
    && UndoSafe(rows, Merge(prev, top))
    && UndoRows(rows, Merge(prev, top)) == UndoRows(UndoRows(rows, top), prev)
  }

  /** A removed row cannot be put back while a row of its id is there. */
  lemma StillThere(f: Frame, rows: Rows, id: int)
    requires id in f.removedValues && id in rows && id !in f.newIds
    ensures !ReinsertSafe(rows, f)
  {
    assert id in Reinserted(rows, f, Lower(f.removedValues.Keys, id));
  }

  lemma ComposingContents(prev: Frame, top: Frame, s0: Rows, s1: Rows, rows: Rows)
    requires Records(prev, s0, s1) && Records(top, s1, rows)
    requires SquashComposes(rows, prev, top)
    ensures ContentsAgree(rows, prev, top)
  {
    hide Clash;
    UndoInverts(top, s1, rows);
    UndoInverts(prev, s0, s1);
    var f := Merge(prev, top);
    forall id | id in Recreated(top) && id in rows
      ensures id in prev.oldValues || (id !in prev.newIds && rows[id] == top.removedValues[id])
    {
      if id !in prev.oldValues {
        assert id in s1 && id !in f.newIds && id !in f.oldValues;
        if id in f.removedValues {
          StillThere(f, rows, id);
        }
        assert UndoRows(rows, f)[id] == rows[id];
      }
    }
  }

  /** The merged frame is the difference across both levels only if the contents of re-created rows agree. */
  lemma RecordedContents(prev: Frame, top: Frame, s0: Rows, s1: Rows, rows: Rows)
    requires Records(prev, s0, s1) && Records(top, s1, rows) && Records(Merge(prev, top), s0, rows)
    ensures ContentsAgree(rows, prev, top)
  {
    var f := Merge(prev, top);
    forall id | id in Recreated(top) && id in rows
      ensures id in prev.oldValues || (id !in prev.newIds && rows[id] == top.removedValues[id])
    {
      assert id in s1 && id !in f.newIds;
      if id !in prev.oldValues {
        assert id !in f.oldValues;
      }
    }
  }

  /** The merged frame is the difference across both levels exactly when the contents of re-created rows agree.  One
      undo of it does not abort and gives what two undos give exactly when besides it gives no key back too early. */
  lemma SquashExact(prev: Frame, top: Frame, s0: Rows, s1: Rows, rows: Rows)
    requires Records(prev, s0, s1) && Records(top, s1, rows) && Unique(s0) && Unique(rows)
    ensures Records(Merge(prev, top), s0, rows) <==> ContentsAgree(rows, prev, top)
    ensures SquashComposes(rows, prev, top) <==> SquashSound(rows, prev, top)
  {
    hide Records, UndoSafe, NoKeyTrade, UndoRows;
    if SquashComposes(rows, prev, top) {
      ComposingContents(prev, top, s0, s1, rows);
    }
    if Records(Merge(prev, top), s0, rows) {
      RecordedContents(prev, top, s0, s1, rows);
    }
    if ContentsAgree(rows, prev, top) {
      MergeRecords(prev, top, s0, s1, rows);
      UntradedKeysOrdered(Merge(prev, top), s0, rows);
      UndoSafeExact(Merge(prev, top), s0, rows);
      UndoInverts(Merge(prev, top), s0, rows);
      UndoInverts(top, s1, rows);
      UndoInverts(prev, s0, s1);
    }
  }

  /** Where surviving rows keep their unique keys and the top frame re-creates no id, squash always composes. */
  lemma PlainSquashComposes(prev: Frame, top: Frame, s0: Rows, s1: Rows, rows: Rows)
    requires Records(prev, s0, s1) && Records(top, s1, rows)
    requires Unique(s0) && Unique(rows)
    requires KeysKept(prev, s0, s1) && KeysKept(top, s1, rows) && Recreated(top) == {}
    ensures SquashComposes(rows, prev, top)
  {
    hide Clash, UndoSafe, UndoRows, AnyOrderSafe;
    var f := Merge(prev, top);
    assert ContentsAgree(rows, prev, top);
    MergeRecords(prev, top, s0, s1, rows);
    forall id | Survives(f, s0, rows, id)
      ensures s0[id].keys == rows[id].keys
    {
      assert id in top.removedValues ==> id in Recreated(top);
      assert Survives(prev, s0, s1, id) && Survives(top, s1, rows, id);
    }
    UndoNeverAborts(f, s0, rows);
    UntradedKeysOrdered(f, s0, rows);
    UndoSafeExact(f, s0, rows);
    SquashExact(prev, top, s0, s1, rows);
  }

  /** The cells of the squash matrix that squash asserts away, or assumes not to happen, do not happen. */
  ghost predicate OnlyPossibleCells(prev: Frame, top: Frame) {
    && (forall id | id in top.oldValues && id !in prev.newIds && id !in prev.oldValues :: id !in prev.removedValues)
    && (forall id | id in top.newIds && id in prev.oldValues :: id in top.removedValues)
    && (forall id | id in top.removedValues && id !in MergedNew(prev, top) && id !in MergedOld(prev, top) ::
          id !in prev.removedValues)
  }

  lemma SquashAssertsHold(prev: Frame, top: Frame, s0: Rows, s1: Rows, rows: Rows)
    requires Records(prev, s0, s1) && Records(top, s1, rows)
    ensures OnlyPossibleCells(prev, top)
  {
    forall id | id in prev.oldValues || id in top.oldValues || id in top.removedValues
      ensures id in s1
    {
      assert id in prev.oldValues.Keys || id in top.oldValues.Keys || id in top.removedValues.Keys;
    }
    forall id | id in prev.removedValues && id in s1
      ensures id in prev.newIds
    {
    }
  }

  /** A situation in which squash loses a removal, reached by the run in SquashFailureReached: the top frame
      removes row 1 and creates it again with another body, so undoing the merged frame does not bring the first
      body back. */
  lemma SquashCanLoseARow()
    ensures var prev := Frame(map[], map[], {}, 1);
            var top := Frame(map[], map[1 := Row([7], "a")], {1}, 2);
            var s0: Rows := map[1 := Row([7], "a")];
            var rows: Rows := map[1 := Row([7], "b")];
            && Records(prev, s0, s0) && Records(top, s0, rows) && Unique(s0) && Unique(rows)
            && UndoRows(UndoRows(rows, top), prev) == s0
            && UndoRows(rows, Merge(prev, top)) == rows != s0
  {
    RecreatedRecords(Row([7], "a"), Row([7], "b"));
    RecreationLost(Row([7], "a"), Row([7], "b"));
  }

  lemma RecreatedRecords(a: Row, b: Row)
    ensures Records(Frame(map[], map[], {}, 1), map[1 := a], map[1 := a])
    ensures Records(Frame(map[], map[1 := a], {1}, 2), map[1 := a], map[1 := b])
    ensures Unique(map[1 := a]) && Unique(map[1 := b])
  {
    hide Clash;
  }

  lemma RecreationLost(a: Row, b: Row)
    ensures var prev, top := Frame(map[], map[], {}, 1), Frame(map[], map[1 := a], {1}, 2);
            && UndoRows(UndoRows(map[1 := b], top), prev) == map[1 := a]
            && UndoRows(map[1 := b], Merge(prev, top)) == map[1 := b]
            && (a != b ==> map[1 := b] != map[1 := a])
  {
    var prev, top := Frame(map[], map[], {}, 1), Frame(map[], map[1 := a], {1}, 2);
    assert Merge(prev, top).newIds == {} && Merge(prev, top).removedValues == map[];
    assert map[1 := b][1] == b && map[1 := a][1] == a;
  }

  // ----- whole runs -----

  /** The simple form of the index: every open session keeps a full copy of the rows. */
  datatype Reference = Reference(rows: Rows, copies: seq<Rows>, revision: int)

  ghost function ReferenceStep(r: Reference, op: Op): Reference {
    var n := |r.copies|;
    match op
    case Create(id, row) => if CanInsert(r.rows, id, row) then r.(rows := r.rows[id := row]) else r
    case Modify(id, row) => r.(rows := r.rows[id := row])
    case Remove(id) => r.(rows := r.rows - {id})
    case Start => Reference(r.rows, r.copies + [r.rows], r.revision + 1)
    case Undo => if n == 0 then r else Reference(r.copies[n - 1], r.copies[..n - 1], r.revision - 1)
    case Squash => if n == 0 then r else Reference(r.rows, r.copies[..n - 1], r.revision - 1)
    case Commit(upTo) => r.(copies := r.copies[Dropped(n, r.revision, upTo)..])
    case UndoAll => if n == 0 then r else Reference(r.copies[0], [], r.revision - n)
    case SetRevision(value) => if n > 0 || value < 0 || value > MAX_REVISION then r else r.(revision := value)
  }

  /** How many of the oldest of `depth` frames a commit drops: those whose revision is at most `upTo`. */
  function Dropped(depth: nat, revision: int, upTo: int): (k: nat)
    ensures k <= depth
    ensures k > 0 ==> revision - depth + k <= upTo
    ensures k < depth ==> upTo < revision - depth + k + 1
  {
    if upTo <= revision - depth then 0 else if upTo >= revision then depth else upTo - (revision - depth)
  }

  /** The rows that frame `k` leads away from: the copy above it, or the present rows. */
  ghost function Above(copies: seq<Rows>, rows: Rows, k: nat): Rows
    requires k < |copies|
  {
    if k + 1 < |copies| then copies[k + 1] else rows
  }

  /** The frames of `s` are the differences between the full copies, level by level, and their revisions are
      consecutive and end at the current one. */
  ghost predicate Tracks(s: State, copies: seq<Rows>) {
    && |copies| == |s.stack|
    && Unique(s.rows)
    && (forall k: nat | k < |copies| :: Unique(copies[k]))
    && (forall k: nat | k < |copies| :: Records(s.stack[k], copies[k], Above(copies, s.rows, k)))
    && Contiguous(s)
  }

  ghost predicate Contiguous(s: State) {
    && 0 <= s.revision - |s.stack|
    && forall k: nat | k < |s.stack| :: s.stack[k].revision == s.revision - |s.stack| + 1 + k
  }

  ghost predicate Simulates(s: State, r: Reference) {
    s.rows == r.rows && s.revision == r.revision && Tracks(s, r.copies)
  }

  /** Only the rows and the newest frame have changed. */
  lemma HeadSimulates(s: State, r: Reference, rows: Rows, head: Frame)
    requires Simulates(s, r) && s.Enabled() && Unique(rows)
    requires Records(head, r.copies[|r.copies| - 1], rows) && head.revision == s.Head().revision
    ensures Simulates(s.(rows := rows).WithHead(head), r.(rows := rows))
  {
    hide Records, Unique;
    var t, q := s.(rows := rows).WithHead(head), r.(rows := rows);
    forall k: nat | k < |q.copies|
      ensures Records(t.stack[k], q.copies[k], Above(q.copies, t.rows, k))
    {
      if k + 1 < |q.copies| {
        assert Records(s.stack[k], r.copies[k], Above(r.copies, s.rows, k));
      }
    }
  }

  /** The newest level, and that all copies are free of clashes. */
  lemma HeadRecords(s: State, r: Reference)
    requires Simulates(s, r)
    ensures Unique(s.rows)
    ensures s.Enabled() ==> |r.copies| > 0 && Unique(r.copies[|r.copies| - 1])
                            && Records(s.Head(), r.copies[|r.copies| - 1], s.rows)
  {
    hide Records, Unique;
  }

  lemma CreateSimulates(s: State, r: Reference, id: int, row: Row)
    requires Simulates(s, r)
    ensures Simulates(CreateStep(s, id, row), ReferenceStep(r, Create(id, row)))
  {
    hide Records, Unique, Clash;
    HeadRecords(s, r);
    if CanInsert(s.rows, id, row) {
      InsertedUnique(s.rows, id, row);
      if s.Enabled() {
        CreateRecorded(s.Head(), r.copies[|r.copies| - 1], s.rows, id, row);
        HeadSimulates(s, r, s.rows[id := row], OnCreate(s.Head(), id));
      }
    }
  }

  lemma InsertedUnique(rows: Rows, id: int, row: Row)
    requires Unique(rows) && CanInsert(rows, id, row)
    ensures Unique(rows[id := row])
  {
    hide Clash;
    var next := rows[id := row];
    forall a, b | a in next && b in next && a != b
      ensures !Clash(next[a], next[b])
    {
      if b == id {
        ClashSymmetric(rows[a], row);
      }
    }
  }

  lemma ModifySimulates(s: State, r: Reference, id: int, row: Row)
    requires Simulates(s, r) && CanReplace(s.rows, id, row)
    ensures Simulates(ModifyStep(s, id, row), ReferenceStep(r, Modify(id, row)))
  {
    HeadRecords(s, r);
    ReplacedUnique(s.rows, id, row);
    if s.Enabled() {
      ModifyRecorded(s.Head(), r.copies[|r.copies| - 1], s.rows, id, row);
      HeadSimulates(s, r, s.rows[id := row], OnModify(s.Head(), id, s.rows[id]));
    }
    hide Unique, Clash, Records, KeysOrdered;
  }

  lemma ReplacedUnique(rows: Rows, id: int, row: Row)
    requires Unique(rows) && CanReplace(rows, id, row)
    ensures Unique(rows[id := row])
  {
    hide Clash;
    forall a, b | a in rows && b in rows && a != b
      ensures !Clash(rows[id := row][a], rows[id := row][b])
    {
      if b == id {
        ClashSymmetric(rows[a], row);
      }
    }
  }

  lemma RemoveSimulates(s: State, r: Reference, id: int)
    requires Simulates(s, r) && id in s.rows
    ensures Simulates(RemoveStep(s, id), ReferenceStep(r, Remove(id)))
  {
    hide Records, Unique, Clash;
    HeadRecords(s, r);
    SubsetUnique(s.rows - {id}, s.rows);
    if s.Enabled() {
      RemoveRecorded(s.Head(), r.copies[|r.copies| - 1], s.rows, id);
      HeadSimulates(s, r, s.rows - {id}, OnRemove(s.Head(), id, s.rows[id]));
    }
  }

  lemma StartSimulates(s: State, r: Reference)
    requires Simulates(s, r)
    ensures Simulates(StartStep(s), ReferenceStep(r, Start))
  {
    hide Unique;
    var t, q := StartStep(s), ReferenceStep(r, Start);
    forall k: nat | k < |q.copies|
      ensures Records(t.stack[k], q.copies[k], Above(q.copies, t.rows, k))
    {
      if k < |r.copies| {
        assert Records(s.stack[k], r.copies[k], Above(r.copies, s.rows, k));
      }
    }
  }

  lemma UndoSimulates(s: State, r: Reference)
    requires Simulates(s, r)
    ensures Simulates(UndoStep(s), ReferenceStep(r, Undo))
    ensures UndoStepSafe(s) <==> (s.Enabled() ==> NoKeyTrade(s.rows, s.Head()))
  {
    hide UndoSafe, NoKeyTrade, Records, Unique, UndoRows;
    HeadRecords(s, r);
    if s.Enabled() {
      var n := |r.copies|;
      UndoInverts(s.Head(), r.copies[n - 1], s.rows);
      UndoSafeExact(s.Head(), r.copies[n - 1], s.rows);
      UntradedKeysOrdered(s.Head(), r.copies[n - 1], s.rows);
      var t, q := UndoStep(s), ReferenceStep(r, Undo);
      forall k: nat | k < |q.copies|
        ensures Records(t.stack[k], q.copies[k], Above(q.copies, t.rows, k))
      {
        assert Records(s.stack[k], r.copies[k], Above(r.copies, s.rows, k));
      }
    }
  }

  lemma SquashSimulates(s: State, r: Reference)
    requires Simulates(s, r)
    requires |s.stack| >= 2 ==> ContentsAgree(s.rows, s.stack[|s.stack| - 2], s.Head())
    ensures Simulates(SquashStep(s), ReferenceStep(r, Squash))
  {
    hide Records, Unique, ContentsAgree, MergedOld, MergedNew;
    var n := |r.copies|;
    if n >= 2 {
      HeadRecords(s, r);
      assert Records(s.stack[n - 2], r.copies[n - 2], Above(r.copies, s.rows, n - 2));
      var f := Merge(s.stack[n - 2], s.stack[n - 1]);
      assert Records(f, r.copies[n - 2], s.rows) by {
        MergeRecords(s.stack[n - 2], s.stack[n - 1], r.copies[n - 2], r.copies[n - 1], s.rows);
      }
      TopTwoSimulate(s, r, f);
      assert SquashStep(s) == State(s.rows, s.stack[..n - 2] + [f], s.revision - 1);
    } else if n == 1 {
      DropOldestSimulates(s, r);
      assert ReferenceStep(r, Squash).copies == r.copies[1..];
    }
  }

  /** Replacing the top two frames by one that spans both levels. */
  lemma TopTwoSimulate(s: State, r: Reference, f: Frame)
    requires Simulates(s, r) && |s.stack| >= 2
    requires Records(f, r.copies[|r.copies| - 2], s.rows) && f.revision == s.revision - 1
    ensures Simulates(State(s.rows, s.stack[..|s.stack| - 2] + [f], s.revision - 1), ReferenceStep(r, Squash))
  {
    hide Records, Unique;
    var n := |r.copies|;
    var t, q := State(s.rows, s.stack[..n - 2] + [f], s.revision - 1), ReferenceStep(r, Squash);
    forall k: nat | k < |q.copies|
      ensures Records(t.stack[k], q.copies[k], Above(q.copies, t.rows, k))
    {
      if k < n - 2 {
        assert Records(s.stack[k], r.copies[k], Above(r.copies, s.rows, k));
      }
    }
  }

  /** Commit drops exactly the frames at or below the given revision. */
  lemma {:induction false} CommitDrops(s: State, upTo: int)
    requires Contiguous(s)
    ensures CommitStep(s, upTo) == s.(stack := s.stack[Dropped(|s.stack|, s.revision, upTo)..])
    ensures Contiguous(CommitStep(s, upTo))
    decreases |s.stack|
  {
    if |s.stack| > 0 && s.stack[0].revision <= upTo {
      var t := s.(stack := s.stack[1..]);
      CommitDrops(t, upTo);
      var k := Dropped(|t.stack|, t.revision, upTo);
      assert t.stack[k..] == s.stack[k + 1..];
      assert k + 1 == Dropped(|s.stack|, s.revision, upTo);
    } else {
      assert Dropped(|s.stack|, s.revision, upTo) == 0;
    }
  }

  lemma DropOldestSimulates(s: State, r: Reference)
    requires Simulates(s, r) && s.Enabled()
    ensures Simulates(s.(stack := s.stack[1..]), r.(copies := r.copies[1..]))
  {
    hide Records, Unique;
    var t, q := s.(stack := s.stack[1..]), r.(copies := r.copies[1..]);
    forall k: nat | k < |q.copies|
      ensures Records(t.stack[k], q.copies[k], Above(q.copies, t.rows, k))
    {
      assert Records(s.stack[k + 1], r.copies[k + 1], Above(r.copies, s.rows, k + 1));
    }
  }

  /** The reference machine may commit one copy at a time. */
  lemma ReferenceCommitsStepwise(r: Reference, upTo: int)
    requires |r.copies| > 0
    ensures r.revision - |r.copies| + 1 <= upTo ==>
              ReferenceStep(r.(copies := r.copies[1..]), Commit(upTo)) == ReferenceStep(r, Commit(upTo))
    ensures upTo < r.revision - |r.copies| + 1 ==> ReferenceStep(r, Commit(upTo)) == r
  {
  }

  lemma {:induction false} CommitSimulates(s: State, r: Reference, upTo: int)
    requires Simulates(s, r)
    ensures Simulates(CommitStep(s, upTo), ReferenceStep(r, Commit(upTo)))
    decreases |s.stack|
  {
    if s.Enabled() {
      assert s.stack[0].revision == r.revision - |r.copies| + 1;
      ReferenceCommitsStepwise(r, upTo);
      if s.stack[0].revision <= upTo {
        DropOldestSimulates(s, r);
        CommitSimulates(s.(stack := s.stack[1..]), r.(copies := r.copies[1..]), upTo);
      }
    }
  }

  lemma ReferenceUndoesStepwise(r: Reference)
    ensures ReferenceStep(ReferenceStep(r, Undo), UndoAll) == ReferenceStep(r, UndoAll)
  {
  }

  /** No frame gives a key back too early when its turn comes. */
  ghost predicate Untraded(s: State, r: Reference)
    requires |r.copies| == |s.stack|
  {
    forall k: nat | k < |s.stack| :: NoKeyTrade(Above(r.copies, s.rows, k), s.stack[k])
  }

  /** Unwinding the whole stack restores the rows of the oldest session still open, and does not abort exactly if no
      frame gives a key back too early. */
  lemma {:induction false} UndoAllSimulates(s: State, r: Reference)
    requires Simulates(s, r)
    ensures Simulates(UndoAllStep(s), ReferenceStep(r, UndoAll))
    ensures UndoAllSafe(s) <==> Untraded(s, r)
    decreases |s.stack|
  {
    hide Unique, Records, UndoRows, NoKeyTrade;
    if s.Enabled() {
      UndoSimulates(s, r);
      ReferenceUndoesStepwise(r);
      UndoAllSimulates(UndoStep(s), ReferenceStep(r, Undo));
      UntradedBelow(s, r);
    }
  }

  /** The frames below the newest one lead away from the same rows before and after its undo. */
  lemma UntradedBelow(s: State, r: Reference)
    requires Simulates(s, r) && s.Enabled() && Simulates(UndoStep(s), ReferenceStep(r, Undo))
    ensures Untraded(s, r) <==> NoKeyTrade(s.rows, s.Head()) && Untraded(UndoStep(s), ReferenceStep(r, Undo))
  {
    hide Unique, Records, UndoRows, NoKeyTrade;
    var n := |s.stack|;
    var t, q := UndoStep(s), ReferenceStep(r, Undo);
    forall k: nat | k < n - 1
      ensures Above(q.copies, t.rows, k) == Above(r.copies, s.rows, k) && t.stack[k] == s.stack[k]
    {
    }
    assert Above(r.copies, s.rows, n - 1) == s.rows;
    if NoKeyTrade(s.rows, s.Head()) && Untraded(t, q) {
      forall k: nat | k < n
        ensures NoKeyTrade(Above(r.copies, s.rows, k), s.stack[k])
      {
        if k < n - 1 {
          assert NoKeyTrade(Above(q.copies, t.rows, k), t.stack[k]);
        }
      }
    }
  }

  lemma StepSimulates(s: State, r: Reference, op: Op)
    requires Simulates(s, r) && Allowed(s, op)
    ensures Simulates(Step(s, op), ReferenceStep(r, op))
  {
    match op
    case Create(id, row) => CreateSimulates(s, r, id, row);
    case Modify(id, row) => ModifySimulates(s, r, id, row);
    case Remove(id) => RemoveSimulates(s, r, id);
    case Start => StartSimulates(s, r);
    case Undo => UndoSimulates(s, r);
    case Squash => SquashSimulates(s, r);
    case Commit(upTo) => CommitSimulates(s, r, upTo);
    case UndoAll => UndoAllSimulates(s, r);
    case SetRevision(value) =>
  }

  ghost predicate AllAllowed(s: State, ops: seq<Op>)
    decreases |ops|
  {
    ops == [] || (Allowed(s, ops[0]) && AllAllowed(Step(s, ops[0]), ops[1..]))
  }

  ghost function Run(s: State, ops: seq<Op>): State
    requires AllAllowed(s, ops)
    decreases |ops|
  {
    if ops == [] then s else Run(Step(s, ops[0]), ops[1..])
  }

  ghost function ReferenceRun(r: Reference, ops: seq<Op>): Reference
    decreases |ops|
  {
    if ops == [] then r else ReferenceRun(ReferenceStep(r, ops[0]), ops[1..])
  }

  const EMPTY := State(map[], [], 0)

  lemma EmptySimulates()
    ensures Simulates(EMPTY, Reference(map[], [], 0))
  {
  }

  /** Over every run, the index with compacted frames does what the index with full copies does, and undoing the
      frames it ends with does not abort exactly if none of them gives a key back too early. */
  lemma {:induction false} RunSimulates(s: State, r: Reference, ops: seq<Op>)
    requires Simulates(s, r) && AllAllowed(s, ops)
    ensures Simulates(Run(s, ops), ReferenceRun(r, ops))
    ensures UndoAllSafe(Run(s, ops)) <==> Untraded(Run(s, ops), ReferenceRun(r, ops))
    decreases |ops|
  {
    hide Unique, Records, UndoRows, Untraded;
    if ops == [] {
      UndoAllSimulates(s, r);
    } else {
      StepSimulates(s, r, ops[0]);
      RunSimulates(Step(s, ops[0]), ReferenceStep(r, ops[0]), ops[1..]);
    }
  }

  lemma RunFirst(s: State, op: Op, ops: seq<Op>)
    requires Allowed(s, op) && AllAllowed(Step(s, op), ops)
    ensures AllAllowed(s, [op] + ops) && Run(s, [op] + ops) == Run(Step(s, op), ops)
  {
    hide Allowed, Step;
    assert ([op] + ops)[1..] == ops;
  }

  // ----- runs in which no undo can abort -----

  /** A changed row takes no unique key that undo gives back to a row with a smaller id first. */
  ghost predicate KeepsUndoable(s: State, id: int, row: Row) {
    s.Enabled() && id !in s.Head().newIds ==>
      forall i | i in s.Head().oldValues && i < id :: !Clash(s.Head().oldValues[i], row)
  }

  /** An operation that leaves every later undo safe; whether it is one can be seen before it. */
  ghost predicate Careful(s: State, op: Op) {
    match op
    case Modify(id, row) => CanReplace(s.rows, id, row) && KeepsUndoable(s, id, row)
    case Remove(id) => id in s.rows
    case Squash => |s.stack| >= 2 ==> SquashSound(s.rows, s.stack[|s.stack| - 2], s.Head())
    case _ => true
  }

  /** Operations that keep the keys apart never make an undo unsafe. */
  lemma CarefulStep(s: State, r: Reference, op: Op)
    requires Simulates(s, r) && UndoAllSafe(s) && Careful(s, op)
    ensures Allowed(s, op) && UndoAllSafe(Step(s, op))
  {
    hide Unique, Records, UndoRows, NoKeyTrade, Clash, Step, ReferenceStep, KeepsUndoable, Merge, CanInsert;
    UndoAllSimulates(s, r);
    var t, q := Step(s, op), ReferenceStep(r, op);
    StepSimulates(s, r, op);
    UndoAllSimulates(t, q);
    forall k: nat | k < |t.stack|
      ensures NoKeyTrade(Above(q.copies, t.rows, k), t.stack[k])
    {
      CarefulLevel(s, r, op, k);
    }
  }

  /** One frame after a careful operation. */
  lemma CarefulLevel(s: State, r: Reference, op: Op, k: nat)
    requires Simulates(s, r) && Untraded(s, r) && Careful(s, op) && Allowed(s, op)
    requires Simulates(Step(s, op), ReferenceStep(r, op)) && k < |Step(s, op).stack|
    ensures NoKeyTrade(Above(ReferenceStep(r, op).copies, Step(s, op).rows, k), Step(s, op).stack[k])
  {
    hide Unique, Records, UndoRows, Clash, UndoAllSafe;
    match op
    case Create(_, _) => CarefulChange(s, r, op, k);
    case Modify(_, _) => CarefulChange(s, r, op, k);
    case Remove(_) => CarefulChange(s, r, op, k);
    case Start =>
    case Undo =>
    case Squash =>
    case Commit(upTo) => CommitDrops(s, upTo);
    case UndoAll => UndoAllLeavesNone(s);
    case SetRevision(_) =>
  }

  lemma {:induction false} UndoAllLeavesNone(s: State)
    ensures UndoAllStep(s).stack == []
    decreases |s.stack|
  {
    hide UndoRows;
    if s.Enabled() {
      UndoAllLeavesNone(UndoStep(s));
    }
  }

  /** A change of the rows concerns the newest frame only. */
  lemma CarefulChange(s: State, r: Reference, op: Op, k: nat)
    requires Simulates(s, r) && Untraded(s, r) && Careful(s, op) && (op.Create? || op.Modify? || op.Remove?)
    requires Simulates(Step(s, op), ReferenceStep(r, op)) && k < |Step(s, op).stack|
    ensures NoKeyTrade(Above(ReferenceStep(r, op).copies, Step(s, op).rows, k), Step(s, op).stack[k])
  {
    hide Unique, Records, Clash, KeysOrdered, NoKeyTrade, OnCreate, OnModify, OnRemove;
    HeadRecords(s, r);
    HeadRecords(Step(s, op), ReferenceStep(r, op));
    if k == |s.stack| - 1 {
      var before := r.copies[k];
      UntradedKeysOrdered(s.Head(), before, s.rows);
      UntradedKeysOrdered(Step(s, op).Head(), before, Step(s, op).rows);
      match op
      case Create(id, row) => if CanInsert(s.rows, id, row) { CreateRecorded(s.Head(), before, s.rows, id, row); }
      case Modify(id, row) => ModifyRecorded(s.Head(), before, s.rows, id, row);
      case Remove(id) => RemoveRecorded(s.Head(), before, s.rows, id);
    }
  }

  ghost predicate AllCareful(s: State, ops: seq<Op>)
    decreases |ops|
  {
    ops == [] || (Careful(s, ops[0]) && AllCareful(Step(s, ops[0]), ops[1..]))
  }

  /** Runs of careful operations only: every undo on the way down from where they end is safe. */
  lemma {:induction false} CarefulRunsNeverAbort(s: State, r: Reference, ops: seq<Op>)
    requires Simulates(s, r) && UndoAllSafe(s) && AllCareful(s, ops)
    ensures AllAllowed(s, ops) && UndoAllSafe(Run(s, ops))
    decreases |ops|
  {
    hide Unique, Records, UndoRows, UndoSafe, Careful, Step, ReferenceStep, ContentsAgree, Clash;
    if ops != [] {
      CarefulStep(s, r, ops[0]);
      StepSimulates(s, r, ops[0]);
      CarefulRunsNeverAbort(Step(s, ops[0]), ReferenceStep(r, ops[0]), ops[1..]);
    }
  }

  /** A run that ends where SquashCanLoseARow begins. */
  lemma SquashFailureReached()
    ensures var a, b := Row([7], "a"), Row([7], "b");
            var ops := [Create(1, a)] + ([Start] + ([Start] + ([Remove(1)] + ([Create(1, b)] + []))));
            && AllAllowed(EMPTY, ops)
            && Run(EMPTY, ops) == State(map[1 := b], [Frame(map[], map[], {}, 1), Frame(map[], map[1 := a], {1}, 2)], 2)
  {
    hide Clash, UndoRows, Merge;
    var a, b := Row([7], "a"), Row([7], "b");
    var s1 := State(map[1 := a], [], 0);
    var s2 := State(map[1 := a], [Frame(map[], map[], {}, 1)], 1);
    var s3 := State(map[1 := a], [Frame(map[], map[], {}, 1), Frame(map[], map[], {}, 2)], 2);
    var s4 := State(map[], [Frame(map[], map[], {}, 1), Frame(map[], map[1 := a], {}, 2)], 2);
    var last := State(map[1 := b], [Frame(map[], map[], {}, 1), Frame(map[], map[1 := a], {1}, 2)], 2);
    assert Step(EMPTY, Create(1, a)) == s1;
    assert Step(s1, Start) == s2;
    assert Step(s2, Start) == s3;
    assert Step(s3, Remove(1)) == s4 by {
      assert s3.rows - {1} == map[];
    }
    assert Step(s4, Create(1, b)) == last by {
      assert s4.rows[1 := b] == map[1 := b];
      assert OnCreate(s4.Head(), 1) == last.Head();
      assert s4.stack[..1] == last.stack[..1];
    }
    hide Step, Run, AllAllowed;
    RunNone(last);
    RunFirst(s4, Create(1, b), []);
    RunFirst(s3, Remove(1), [Create(1, b)] + []);
    RunFirst(s2, Start, [Remove(1)] + ([Create(1, b)] + []));
    RunFirst(s1, Start, [Start] + ([Remove(1)] + ([Create(1, b)] + [])));
    RunFirst(EMPTY, Create(1, a), [Start] + ([Start] + ([Remove(1)] + ([Create(1, b)] + []))));
  }

  /** After every run, no two rows have the same key in any unique index, whatever the other keys are. */
  lemma KeysDistinctInRuns(ops: seq<Op>)
    requires AllAllowed(EMPTY, ops)
    ensures var rows := Run(EMPTY, ops).rows;
            forall a, b, j: nat | a in rows && b in rows && a != b && j < |rows[a].keys| && j < |rows[b].keys| ::
              rows[a].keys[j] != rows[b].keys[j]
  {
    hide *;
    EmptySimulates();
    RunSimulates(EMPTY, Reference(map[], [], 0), ops);
    UniqueKeys(Run(EMPTY, ops), ReferenceRun(Reference(map[], [], 0), ops));
  }

  lemma UniqueKeys(s: State, r: Reference)
    requires Simulates(s, r)
    ensures forall a, b, j: nat | a in s.rows && b in s.rows && a != b && j < |s.rows[a].keys| && j < |s.rows[b].keys| ::
              s.rows[a].keys[j] != s.rows[b].keys[j]
  {
    forall a, b, j: nat | a in s.rows && b in s.rows && a != b && j < |s.rows[a].keys| && j < |s.rows[b].keys|
      ensures s.rows[a].keys[j] != s.rows[b].keys[j]
    {
      assert !Clash(s.rows[a], s.rows[b]);
    }
  }

  lemma RunNone(s: State)
    ensures AllAllowed(s, []) && Run(s, []) == s
  {
  }

  /** Two rows, a session, and a modification of each: the second row takes the key that the first one had. */
  const TRADE: seq<Op> :=
    [Create(1, Row([1], ""))] +
    ([Create(2, Row([2], ""))] + ([Start] + ([Modify(1, Row([3], ""))] + ([Modify(2, Row([1], ""))] + []))))

  const TRADED := State(map[1 := Row([3], ""), 2 := Row([1], "")],
                        [Frame(map[1 := Row([1], ""), 2 := Row([2], "")], map[], {}, 1)], 1)

  lemma TradeCreates(s1: State, s2: State)
    requires s1 == State(map[1 := Row([1], "")], [], 0) && s2 == State(TwoRows(1, 2), [], 0)
    ensures Step(EMPTY, Create(1, Row([1], ""))) == s1
    ensures Step(s1, Create(2, Row([2], ""))) == s2
  {
    NoClash(2, 1);
    hide Clash;
  }

  lemma TradeChanges(s2: State, s3: State, s4: State)
    requires s2 == State(TwoRows(1, 2), [], 0) && s3 == State(TwoRows(1, 2), [Frame(map[], map[], {}, 1)], 1)
    requires s4 == State(TwoRows(3, 2), [Frame(map[1 := Row([1], "")], map[], {}, 1)], 1)
    ensures Step(s2, Start) == s3
    ensures Allowed(s3, Modify(1, Row([3], ""))) && Step(s3, Modify(1, Row([3], ""))) == s4
  {
    NoClash(3, 2);
    hide Clash;
    assert s3.rows[1 := Row([3], "")] == s4.rows;
  }

  lemma TradeLast(s4: State)
    requires s4 == State(TwoRows(3, 2), [Frame(map[1 := Row([1], "")], map[], {}, 1)], 1)
    ensures Allowed(s4, Modify(2, Row([1], ""))) && Step(s4, Modify(2, Row([1], ""))) == TRADED
  {
    NoClash(1, 3);
    hide Clash;
    assert s4.rows[2 := Row([1], "")] == TRADED.rows;
  }

  lemma TradeReached()
    ensures AllAllowed(EMPTY, TRADE) && Run(EMPTY, TRADE) == TRADED
  {
    var s1 := State(map[1 := Row([1], "")], [], 0);
    var s2 := State(TwoRows(1, 2), [], 0);
    var s3 := State(TwoRows(1, 2), [Frame(map[], map[], {}, 1)], 1);
    var s4 := State(TwoRows(3, 2), [Frame(map[1 := Row([1], "")], map[], {}, 1)], 1);
    hide Step, Run, AllAllowed, TwoRows;
    TradeCreates(s1, s2);
    TradeChanges(s2, s3, s4);
    TradeLast(s4);
    assert Allowed(EMPTY, Create(1, Row([1], ""))) && Allowed(s1, Create(2, Row([2], ""))) && Allowed(s2, Start);
    RunNone(TRADED);
    RunFirst(s4, Modify(2, Row([1], "")), []);
    RunFirst(s3, Modify(1, Row([3], "")), [Modify(2, Row([1], ""))] + []);
    RunFirst(s2, Start, [Modify(1, Row([3], ""))] + ([Modify(2, Row([1], ""))] + []));
    RunFirst(s1, Create(2, Row([2], "")), [Start] + ([Modify(1, Row([3], ""))] + ([Modify(2, Row([1], ""))] + [])));
    RunFirst(EMPTY, Create(1, Row([1], "")),
             [Create(2, Row([2], ""))] + ([Start] + ([Modify(1, Row([3], ""))] + ([Modify(2, Row([1], ""))] + []))));
  }

  lemma NoClash(a: int, b: int)
    ensures Clash(Row([a], ""), Row([b], "")) <==> a == b
  {
    if a == b {
      assert Row([a], "").keys[0] == Row([b], "").keys[0];
    }
  }

  function TwoRows(a: int, b: int): Rows { map[1 := Row([a], ""), 2 := Row([b], "")] }

  /** Two rows changed in a session can be given back exactly if the second does not hold the former key of the
      first, and in any order exactly if neither holds the former key of the other. */
  lemma TwoChanges(a: int, b: int, c: int, d: int)
    requires a != b && c != d
    ensures var head := Frame(TwoRows(a, b), map[], {}, 1);
            && Unique(TwoRows(c, d))
            && (UndoSafe(TwoRows(c, d), head) <==> a != d)
            && (AnyOrderSafe(TwoRows(c, d), head) <==> a != d && b != c)
  {
    var before, after, head := TwoRows(a, b), TwoRows(c, d), Frame(TwoRows(a, b), map[], {}, 1);
    TwoUnique(a, b);
    TwoUnique(c, d);
    NoClash(a, d);
    NoClash(b, c);
    hide Clash, UndoSafe, AnyOrderSafe;
    assert Records(head, before, after);
    UndoSafeExact(head, before, after);
    AnyOrderExact(head, before, after);
    assert Survives(head, before, after, 1) && Survives(head, before, after, 2);
  }

  lemma TwoUnique(a: int, b: int)
    requires a != b
    ensures Unique(TwoRows(a, b))
  {
    NoClash(a, b);
    NoClash(b, a);
    hide Clash;
  }

  lemma TradeUnsafe()
    ensures !UndoStepSafe(TRADED)
  {
    TwoChanges(1, 2, 3, 1);
    hide UndoSafe, Clash;
    assert TRADED.rows == TwoRows(3, 1) && TRADED.Head() == Frame(TwoRows(1, 2), map[], {}, 1);
  }

  const REPAIR := Modify(2, Row([2], ""))

  lemma RepairStep()
    ensures Allowed(TRADED, REPAIR) && Step(TRADED, REPAIR) == TRADED.(rows := TwoRows(3, 2))
  {
    NoClash(2, 3);
    hide Clash;
    assert OnModify(TRADED.Head(), 2, TRADED.rows[2]) == TRADED.Head();
    assert TRADED.rows[2 := Row([2], "")] == TwoRows(3, 2);
  }

  lemma TradeRepaired()
    ensures Allowed(TRADED, REPAIR) && UndoStepSafe(Step(TRADED, REPAIR))
  {
    hide UndoSafe, Step, Allowed;
    RepairStep();
    TwoChanges(1, 2, 3, 2);
    assert TRADED.Head() == Frame(TwoRows(1, 2), map[], {}, 1);
  }

  /** An allowed run after which undo aborts, and a further modification after which it does not. */
  lemma UndoAborts()
    ensures AllAllowed(EMPTY, TRADE) && !UndoStepSafe(Run(EMPTY, TRADE))
    ensures Allowed(TRADED, REPAIR) && UndoStepSafe(Step(TRADED, REPAIR))
  {
    hide UndoStepSafe, Step, Run, AllAllowed, Allowed;
    TradeReached();
    TradeUnsafe();
    TradeRepaired();
  }

  /** After every run, squashing the top two frames passes its asserts, and composes them exactly when the condition
      on them holds. */
  lemma SquashExactInRuns(ops: seq<Op>)
    requires AllAllowed(EMPTY, ops) && |Run(EMPTY, ops).stack| >= 2
    ensures var s := Run(EMPTY, ops);
            var prev, top := s.stack[|s.stack| - 2], s.Head();
            OnlyPossibleCells(prev, top) && (SquashComposes(s.rows, prev, top) <==> SquashSound(s.rows, prev, top))
  {
    hide Records, OnlyPossibleCells, SquashComposes, SquashSound, Run, AllAllowed, Unique;
    var r0 := Reference(map[], [], 0);
    EmptySimulates();
    RunSimulates(EMPTY, r0, ops);
    var s, r := Run(EMPTY, ops), ReferenceRun(r0, ops);
    var n := |r.copies|;
    assert Records(s.stack[n - 1], r.copies[n - 1], s.rows);
    assert Records(s.stack[n - 2], r.copies[n - 2], r.copies[n - 1]);
    SquashExact(s.stack[n - 2], s.stack[n - 1], r.copies[n - 2], r.copies[n - 1], s.rows);
    SquashAssertsHold(s.stack[n - 2], s.stack[n - 1], r.copies[n - 2], r.copies[n - 1], s.rows);
  }

  // ----- what a session remembers -----

  /** The frame with this revision is on the stack. */
  predicate Live(s: State, revision: int) {
    s.revision - |s.stack| < revision <= s.revision
  }

  /** The frame with this revision stays on the stack throughout the run. */
  ghost predicate StaysLive(s: State, revision: int, ops: seq<Op>)
    requires AllAllowed(s, ops)
    decreases |ops|
  {
    Live(s, revision) && (ops != [] ==> StaysLive(Step(s, ops[0]), revision, ops[1..]))
  }

  /** None of the undos until the frame with this revision is gone aborts. */
  ghost predicate UndoThroughSafe(s: State, revision: int)
    decreases |s.stack|
  {
    s.Enabled() && s.revision >= revision ==> UndoStepSafe(s) && UndoThroughSafe(UndoStep(s), revision)
  }

  /** Undoing until the frame with this revision is gone, if no undo aborts. */
  function UndoThrough(s: State, revision: int): State
    decreases |s.stack|
  {
    if s.Enabled() && s.revision >= revision then UndoThrough(UndoStep(s), revision) else s
  }

  /** The full copy that belongs to the frame with this revision. */
  ghost function CopyAt(r: Reference, revision: int): Rows
    requires r.revision - |r.copies| < revision <= r.revision
  {
    r.copies[revision - 1 - (r.revision - |r.copies|)]
  }

  ghost predicate LiveCopy(r: Reference, revision: int) {
    r.revision - |r.copies| < revision <= r.revision
  }

  /** As long as a session stays open, every step leaves its full copy alone. */
  lemma ReferenceKeepsCopy(r: Reference, op: Op, revision: int)
    requires LiveCopy(r, revision) && LiveCopy(ReferenceStep(r, op), revision)
    ensures CopyAt(ReferenceStep(r, op), revision) == CopyAt(r, revision)
  {
  }

  lemma {:induction false} RunKeepsCopy(s: State, r: Reference, ops: seq<Op>, revision: int)
    requires Simulates(s, r) && AllAllowed(s, ops) && StaysLive(s, revision, ops)
    ensures Simulates(Run(s, ops), ReferenceRun(r, ops))
    ensures LiveCopy(r, revision) && LiveCopy(ReferenceRun(r, ops), revision)
    ensures CopyAt(ReferenceRun(r, ops), revision) == CopyAt(r, revision)
    decreases |ops|
  {
    if ops != [] {
      StepSimulates(s, r, ops[0]);
      ReferenceKeepsCopy(r, ops[0], revision);
      RunKeepsCopy(Step(s, ops[0]), ReferenceStep(r, ops[0]), ops[1..], revision);
    }
  }

  /** No frame from this revision on gives a key back too early when its turn comes. */
  ghost predicate UntradedFrom(s: State, r: Reference, revision: int)
    requires |r.copies| == |s.stack|
  {
    forall k: nat | k < |s.stack| && s.stack[k].revision >= revision :: NoKeyTrade(Above(r.copies, s.rows, k), s.stack[k])
  }

  lemma {:induction false} UndoThroughRestores(s: State, r: Reference, revision: int)
    requires Simulates(s, r) && LiveCopy(r, revision)
    ensures UndoThrough(s, revision).rows == CopyAt(r, revision)
    ensures UndoThrough(s, revision).revision == revision - 1
    ensures UndoThroughSafe(s, revision) <==> UntradedFrom(s, r, revision)
    decreases |s.stack|
  {
    hide Unique, Records, UndoSafe, NoKeyTrade, UndoRows;
    UndoSimulates(s, r);
    UntradedAbove(s, r, revision);
    if s.revision > revision {
      ReferenceKeepsCopy(r, Undo, revision);
      UndoThroughRestores(UndoStep(s), ReferenceStep(r, Undo), revision);
    } else {
      NoneAbove(UndoStep(s), ReferenceStep(r, Undo), revision);
    }
  }

  lemma NoneAbove(s: State, r: Reference, revision: int)
    requires Simulates(s, r) && s.revision < revision
    ensures UntradedFrom(s, r, revision) && UndoThroughSafe(s, revision) && UndoThrough(s, revision) == s
  {
    hide Records, Unique, NoKeyTrade, UndoSafe;
  }

  lemma UntradedAbove(s: State, r: Reference, revision: int)
    requires Simulates(s, r) && s.Enabled() && s.revision >= revision
    requires Simulates(UndoStep(s), ReferenceStep(r, Undo))
    ensures UntradedFrom(s, r, revision) <==>
              NoKeyTrade(s.rows, s.Head()) && UntradedFrom(UndoStep(s), ReferenceStep(r, Undo), revision)
  {
    hide Unique, Records, UndoRows, NoKeyTrade;
    var n := |s.stack|;
    var t, q := UndoStep(s), ReferenceStep(r, Undo);
    forall k: nat | k < n - 1
      ensures Above(q.copies, t.rows, k) == Above(r.copies, s.rows, k) && t.stack[k] == s.stack[k]
    {
    }
    assert Above(r.copies, s.rows, n - 1) == s.rows && s.stack[n - 1].revision == s.revision;
    if NoKeyTrade(s.rows, s.Head()) && UntradedFrom(t, q, revision) {
      forall k: nat | k < n && s.stack[k].revision >= revision
        ensures NoKeyTrade(Above(r.copies, s.rows, k), s.stack[k])
      {
        if k < n - 1 {
          assert NoKeyTrade(Above(q.copies, t.rows, k), t.stack[k]);
        }
      }
    }
  }

  /** The rows that a session opened in `s` gives back when it is undone after the run `during`. */
  lemma SessionReturnsTo(s: State, r: Reference, during: seq<Op>)
    requires Simulates(s, r) && AllAllowed(StartStep(s), during)
    requires StaysLive(StartStep(s), s.revision + 1, during)
    ensures var end := UndoThrough(Run(StartStep(s), during), s.revision + 1);
            end.rows == s.rows && end.revision == s.revision
  {
    hide Unique, Records, Step, Allowed;
    StartSimulates(s, r);
    var q := ReferenceStep(r, Start);
    RunKeepsCopy(StartStep(s), q, during, s.revision + 1);
    UndoThroughRestores(Run(StartStep(s), during), ReferenceRun(q, during), s.revision + 1);
  }

  /** Whatever happens above a session, undoing through it, if that does not abort, restores exactly the rows present
      when it was opened.  The prefix `before` is any run from the empty index, the session then starts, and `during`
      is any run that neither undoes, squashes away nor commits the session. */
  lemma SessionRestores(before: seq<Op>, during: seq<Op>)
    requires AllAllowed(EMPTY, before)
    requires var start := Run(EMPTY, before);
             && AllAllowed(StartStep(start), during)
             && StaysLive(StartStep(start), start.revision + 1, during)
    ensures var start := Run(EMPTY, before);
            var end := UndoThrough(Run(StartStep(start), during), start.revision + 1);
            end.rows == start.rows && end.revision == start.revision
  {
    hide *;
    var r0 := Reference(map[], [], 0);
    EmptySimulates();
    RunSimulates(EMPTY, r0, before);
    SessionReturnsTo(Run(EMPTY, before), ReferenceRun(r0, before), during);
  }
}
