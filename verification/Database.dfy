/** A chainbase database as the list of the states of its indices.

Every database operation is forwarded to all indices, which keeps their undo stacks in lockstep: they have
the same revision and the same depth.  An index that is first added while sessions are open is given empty
frames until it has the revision range of the others.
 */
module Databases {
  import opened UndoStack

  type Indices = seq<State>

  /** All undo stacks have consecutive revisions and the same revision range. */
  ghost predicate Lockstep(ds: Indices) {
    forall i: nat | i < |ds| ::
      Contiguous(ds[i]) && ds[i].revision == ds[0].revision && |ds[i].stack| == |ds[0].stack|
  }

  /** The revision before the oldest frame, and the current one. */
  function RevisionRange(s: State): (int, int) {
    (s.revision - |s.stack|, s.revision)
  }

  predicate IsLocal(op: Op) {
    op.Create? || op.Modify? || op.Remove?
  }

  /** A change of one index, an operation forwarded to all of them, or a new index. */
  datatype DatabaseOp =
    | Local(index: nat, op: Op)
    | Global(op: Op)
    | AddIndex

  /** Opens sessions until the given revision is reached. */
  function StartUntil(s: State, revision: int): State
    decreases revision - s.revision
  {
    if s.revision < revision then StartUntil(StartStep(s), revision) else s
  }

  /** The state in which an index is first added beside `ds`. */
  function AddedState(ds: Indices): State {
    if |ds| == 0 then EMPTY
    else StartUntil(SetRevisionStep(EMPTY, RevisionRange(ds[0]).0), RevisionRange(ds[0]).1)
  }

  ghost predicate DatabaseAllowed(ds: Indices, op: DatabaseOp) {
    match op
    case Local(i, op) => i < |ds| && IsLocal(op) && Allowed(ds[i], op)
    case Global(op) => !IsLocal(op) && forall i: nat | i < |ds| :: Allowed(ds[i], op)
    case AddIndex => |ds| > 0 ==> RevisionRange(ds[0]).0 <= MAX_REVISION
  }

  /** With revisions of 63 bits, as they are stored, an index may be added at any time. */
  lemma AddAlwaysAllowed(ds: Indices)
    requires Lockstep(ds) && (|ds| > 0 ==> ds[0].revision <= MAX_REVISION)
    ensures DatabaseAllowed(ds, AddIndex)
  {
  }

  ghost predicate DatabaseDefined(ds: Indices, op: DatabaseOp) {
    match op
    case Local(i, op) => i < |ds| && IsLocal(op) && Defined(ds[i], op)
    case Global(op) => !IsLocal(op)
    case AddIndex => true
  }

  lemma AllowedIsDefined(ds: Indices, op: DatabaseOp)
    requires DatabaseAllowed(ds, op)
    ensures DatabaseDefined(ds, op)
  {
  }

  ghost function DatabaseStep(ds: Indices, op: DatabaseOp): Indices
    requires DatabaseDefined(ds, op)
  {
    match op
    case Local(i, op) => ds[i := Step(ds[i], op)]
    case Global(op) => seq(|ds|, i requires 0 <= i < |ds| => Step(ds[i], op))
    case AddIndex => ds + [AddedState(ds)]
  }

  // ----- revisions and depths move together -----

  /** Revision and depth after an operation, which do not depend on the rows or on what the frames hold. */
  function ShapeAfter(revision: int, depth: nat, op: Op): (int, nat) {
    match op
    case Create(_, _) => (revision, depth)
    case Modify(_, _) => (revision, depth)
    case Remove(_) => (revision, depth)
    case Start => (revision + 1, depth + 1)
    case Undo => if depth == 0 then (revision, depth) else (revision - 1, depth - 1)
    case Squash => if depth == 0 then (revision, depth) else (revision - 1, depth - 1)
    case Commit(upTo) => (revision, depth - Dropped(depth, revision, upTo))
    case UndoAll => (revision - depth, 0)
    case SetRevision(value) => if depth > 0 || value < 0 || value > MAX_REVISION then (revision, depth) else (value, depth)
  }

  lemma {:induction false} UndoAllShape(s: State)
    requires Contiguous(s)
    ensures Contiguous(UndoAllStep(s))
    ensures UndoAllStep(s).revision == s.revision - |s.stack| && UndoAllStep(s).stack == []
    decreases |s.stack|
  {
    hide UndoRows;
    if s.Enabled() {
      UndoAllShape(UndoStep(s));
    }
  }

  /** Neither recording nor merging changes the revision of a frame. */
  lemma RevisionsKept(f: Frame, top: Frame, id: int, was: Row)
    ensures OnCreate(f, id).revision == OnModify(f, id, was).revision == OnRemove(f, id, was).revision == f.revision
    ensures Merge(f, top).revision == f.revision
  {
    hide MergedOld, MergedNew;
  }

  lemma SquashShape(s: State)
    requires Contiguous(s)
    ensures Contiguous(SquashStep(s))
    ensures (SquashStep(s).revision, |SquashStep(s).stack|) == ShapeAfter(s.revision, |s.stack|, Squash)
  {
    hide Merge;
    if |s.stack| >= 2 {
      RevisionsKept(s.stack[|s.stack| - 2], s.Head(), 0, Row([], ""));
    }
  }

  lemma StepShape(s: State, op: Op)
    requires Contiguous(s) && Defined(s, op)
    ensures Contiguous(Step(s, op))
    ensures (Step(s, op).revision, |Step(s, op).stack|) == ShapeAfter(s.revision, |s.stack|, op)
  {
    hide UndoRows, CanInsert, Clash, OnCreate, OnModify, OnRemove, Merge;
    match op
    case Create(id, row) =>
      if s.Enabled() { RevisionsKept(s.Head(), s.Head(), id, row); }
    case Modify(id, _) =>
      if s.Enabled() { RevisionsKept(s.Head(), s.Head(), id, s.rows[id]); }
    case Remove(id) =>
      if s.Enabled() { RevisionsKept(s.Head(), s.Head(), id, s.rows[id]); }
    case Squash => SquashShape(s);
    case Commit(upTo) => CommitDrops(s, upTo);
    case UndoAll => UndoAllShape(s);
    case _ =>
  }

  /** A new index ends with the frames it needs, all empty, and with the range of the others. */
  lemma {:induction false} StartUntilShape(s: State, revision: int)
    requires Contiguous(s) && s.revision <= revision
    ensures var t := StartUntil(s, revision);
            && Contiguous(t) && t.rows == s.rows && t.revision == revision
            && |t.stack| == |s.stack| + (revision - s.revision)
    decreases revision - s.revision
  {
    if s.revision < revision {
      StartUntilShape(StartStep(s), revision);
    }
  }

  lemma AddedToEmpty(ds: Indices)
    requires |ds| == 0
    ensures AddedState(ds) == EMPTY
  {
  }

  lemma AddedStateShape(ds: Indices)
    requires Lockstep(ds) && |ds| > 0 && RevisionRange(ds[0]).0 <= MAX_REVISION
    ensures var t := AddedState(ds);
            Contiguous(t) && t.rows == map[] && t.revision == ds[0].revision && |t.stack| == |ds[0].stack|
  {
    StartUntilShape(SetRevisionStep(EMPTY, RevisionRange(ds[0]).0), RevisionRange(ds[0]).1);
  }

  /** Every database operation keeps all indices at one revision range. */
  lemma StepKeepsLockstep(ds: Indices, op: DatabaseOp)
    requires Lockstep(ds) && DatabaseAllowed(ds, op)
    ensures Lockstep(DatabaseStep(ds, op))
  {
    ShapesKeepLockstep(ds, op);
  }

  lemma ShapesKeepLockstep(ds: Indices, op: DatabaseOp)
    requires Lockstep(ds) && DatabaseDefined(ds, op)
    requires op.AddIndex? && |ds| > 0 ==> RevisionRange(ds[0]).0 <= MAX_REVISION
    ensures Lockstep(DatabaseStep(ds, op))
  {
    hide Step, StartUntil, AddedState;
    match op
    case Local(i, op) => StepShape(ds[i], op);
    case Global(op) =>
      forall i: nat | i < |ds|
        ensures Contiguous(Step(ds[i], op))
        ensures (Step(ds[i], op).revision, |Step(ds[i], op).stack|) == ShapeAfter(ds[0].revision, |ds[0].stack|, op)
      {
        StepShape(ds[i], op);
      }
    case AddIndex =>
      if |ds| > 0 {
        AddedStateShape(ds);
      } else {
        AddedToEmpty(ds);
      }
  }

  // ----- sessions of a database -----

  /** A session forwards undo and squash to the indices that were there when it was opened: the first `n`, since
      indices are only ever added at the end. */
  ghost function SessionStep(ds: Indices, n: nat, op: Op): Indices
    requires n <= |ds| && (op.Undo? || op.Squash?)
  {
    seq(|ds|, i requires 0 <= i < |ds| => if i < n then Step(ds[i], op) else ds[i])
  }

  /** A session does what the database would do, and keeps the lockstep, exactly if no index was added since it
      was opened.  (Without any frame left it does nothing, and a session over no index never does.) */
  lemma SessionKeepsLockstep(ds: Indices, n: nat, op: Op)
    requires Lockstep(ds) && n <= |ds| && |ds| > 0 && (op.Undo? || op.Squash?)
    ensures SessionStep(ds, n, op) == DatabaseStep(ds, Global(op)) <==> n == |ds| || !ds[0].Enabled()
    ensures Lockstep(SessionStep(ds, n, op)) <==> n == |ds| || n == 0 || !ds[0].Enabled()
  {
    hide UndoRows, Merge;
    var ds', all := SessionStep(ds, n, op), DatabaseStep(ds, Global(op));
    ShapesKeepLockstep(ds, Global(op));
    if n == |ds| || !ds[0].Enabled() {
      assert forall i: nat | i < |ds| :: |ds[i].stack| == |ds[0].stack|;
      assert ds' == all;
    } else {
      var last := |ds| - 1;
      assert |ds[last].stack| == |ds[0].stack|;
      assert ds'[last] == ds[last] && all[last] != ds[last];
      if n > 0 {
        assert |ds'[0].stack| == |ds[0].stack| - 1;
        assert |ds'[last].stack| == |ds[0].stack|;
      } else {
        assert ds' == ds;
      }
    }
  }

  /** A session opened before a second index was added breaks the lockstep when it is undone. */
  lemma SessionBreaksLockstep()
    ensures var ops := [AddIndex] + ([Global(Start)] + ([AddIndex] + []));
            AllDatabaseAllowed([], ops) &&
            var ds := DatabaseRun([], ops);
            && |ds| == 2 && Lockstep(ds) && Allowed(ds[0], Undo)
            && !Lockstep(SessionStep(ds, 1, Undo))
  {
    hide AddedState, Step, UndoRows, Lockstep, UndoStepSafe;
    OneFrame();
    AddedToEmpty([]);
    OneIndexStarts();
    var s1 := StartStep(EMPTY);
    var last := DatabaseStep([s1], AddIndex);
    ShapesKeepLockstep([s1], AddIndex);
    SessionKeepsLockstep(last, 1, Undo);
    assert DatabaseAllowed([s1], AddIndex) && DatabaseAllowed([EMPTY], Global(Start)) && DatabaseAllowed([], AddIndex);
    assert DatabaseStep([], AddIndex) == [EMPTY];
    hide DatabaseStep, DatabaseAllowed;
    DatabaseRunNone(last);
    DatabaseRunFirst([s1], AddIndex, []);
    DatabaseRunFirst([EMPTY], Global(Start), [AddIndex] + []);
    DatabaseRunFirst([], AddIndex, [Global(Start)] + ([AddIndex] + []));
  }

  lemma OneIndexStarts()
    ensures DatabaseStep([EMPTY], Global(Start)) == [StartStep(EMPTY)]
  {
    hide UndoRows;
    assert Step(EMPTY, Start) == StartStep(EMPTY);
  }

  lemma OneFrame()
    ensures Lockstep([StartStep(EMPTY)]) && StartStep(EMPTY).Enabled() && RevisionRange(StartStep(EMPTY)).0 == 0
    ensures Allowed(StartStep(EMPTY), Undo)
  {
  }

  lemma DatabaseRunFirst(ds: Indices, op: DatabaseOp, ops: seq<DatabaseOp>)
    requires DatabaseAllowed(ds, op) && DatabaseDefined(ds, op) && AllDatabaseAllowed(DatabaseStep(ds, op), ops)
    ensures AllDatabaseAllowed(ds, [op] + ops)
    ensures DatabaseRun(ds, [op] + ops) == DatabaseRun(DatabaseStep(ds, op), ops)
  {
    hide DatabaseAllowed, DatabaseStep;
    assert ([op] + ops)[1..] == ops;
  }

  lemma DatabaseRunNone(ds: Indices)
    ensures AllDatabaseAllowed(ds, []) && DatabaseRun(ds, []) == ds
  {
  }

  // ----- whole runs of a database -----

  type References = seq<Reference>

  /** A new index starts without rows; its open sessions started without rows too. */
  ghost function AddedReference(revision: int, depth: nat): Reference {
    Reference(map[], seq(depth, _ => map[]), revision)
  }

  ghost function ReferenceDatabaseStep(rs: References, op: DatabaseOp): References {
    match op
    case Local(i, op) => if i < |rs| then rs[i := ReferenceStep(rs[i], op)] else rs
    case Global(op) => seq(|rs|, i requires 0 <= i < |rs| => ReferenceStep(rs[i], op))
    case AddIndex => rs + [if |rs| == 0 then AddedReference(0, 0) else AddedReference(rs[0].revision, |rs[0].copies|)]
  }

  ghost predicate DatabaseSimulates(ds: Indices, rs: References) {
    && |ds| == |rs|
    && Lockstep(ds)
    && forall i: nat | i < |ds| :: Simulates(ds[i], rs[i])
  }

  /** The frames that a new index is given are differences between empty copies. */
  lemma {:induction false} StartUntilSimulates(s: State, depth: nat, revision: int)
    requires Simulates(s, AddedReference(s.revision, depth)) && s.revision <= revision
    ensures Simulates(StartUntil(s, revision), AddedReference(revision, depth + (revision - s.revision)))
    decreases revision - s.revision
  {
    hide Unique, Records;
    if s.revision < revision {
      var r := AddedReference(s.revision, depth);
      StartSimulates(s, r);
      assert ReferenceStep(r, Start) == AddedReference(s.revision + 1, depth + 1);
      StartUntilSimulates(StartStep(s), depth + 1, revision);
    }
  }

  lemma AddedSimulates(ds: Indices, rs: References)
    requires DatabaseSimulates(ds, rs) && DatabaseAllowed(ds, AddIndex)
    ensures Simulates(AddedState(ds), ReferenceDatabaseStep(rs, AddIndex)[|rs|])
  {
    if |ds| > 0 {
      assert Simulates(ds[0], rs[0]);
      var begin := RevisionRange(ds[0]).0;
      StartUntilSimulates(SetRevisionStep(EMPTY, begin), 0, ds[0].revision);
    }
  }

  lemma DatabaseStepSimulates(ds: Indices, rs: References, op: DatabaseOp)
    requires DatabaseSimulates(ds, rs) && DatabaseAllowed(ds, op)
    ensures DatabaseSimulates(DatabaseStep(ds, op), ReferenceDatabaseStep(rs, op))
  {
    StepKeepsLockstep(ds, op);
    hide Simulates, Step, ReferenceStep, Allowed, AddedState, AddedReference, Lockstep;
    match op
    case Local(i, op) => StepSimulates(ds[i], rs[i], op);
    case Global(op) =>
      forall i: nat | i < |ds|
        ensures Simulates(Step(ds[i], op), ReferenceStep(rs[i], op))
      {
        StepSimulates(ds[i], rs[i], op);
      }
    case AddIndex => AddedSimulates(ds, rs);
  }

  ghost predicate AllDatabaseAllowed(ds: Indices, ops: seq<DatabaseOp>)
    decreases |ops|
  {
    ops == [] || (DatabaseAllowed(ds, ops[0]) && AllDatabaseAllowed(DatabaseStep(ds, ops[0]), ops[1..]))
  }

  ghost function DatabaseRun(ds: Indices, ops: seq<DatabaseOp>): Indices
    requires AllDatabaseAllowed(ds, ops)
    decreases |ops|
  {
    if ops == [] then ds else DatabaseRun(DatabaseStep(ds, ops[0]), ops[1..])
  }

  ghost function ReferenceDatabaseRun(rs: References, ops: seq<DatabaseOp>): References
    decreases |ops|
  {
    if ops == [] then rs else ReferenceDatabaseRun(ReferenceDatabaseStep(rs, ops[0]), ops[1..])
  }

  /** Over every run of a database all indices stay in lockstep, each of them does what an index with full
      copies does, and undoing an index completely does not abort exactly if none of its frames gives a key back too
      early. */
  lemma {:induction false} DatabaseRunSimulates(ds: Indices, rs: References, ops: seq<DatabaseOp>)
    requires DatabaseSimulates(ds, rs) && AllDatabaseAllowed(ds, ops)
    ensures var (last, lastReference) := (DatabaseRun(ds, ops), ReferenceDatabaseRun(rs, ops));
            && DatabaseSimulates(last, lastReference)
            && forall i: nat | i < |last| :: UndoAllSafe(last[i]) <==> Untraded(last[i], lastReference[i])
    decreases |ops|
  {
    hide Simulates, Lockstep, UndoAllSafe, Untraded, DatabaseAllowed, DatabaseStep, ReferenceDatabaseStep;
    if ops == [] {
      forall i: nat | i < |ds|
        ensures |rs[i].copies| == |ds[i].stack| && (UndoAllSafe(ds[i]) <==> Untraded(ds[i], rs[i]))
      {
        SimulatesDepth(ds[i], rs[i]);
        UndoAllSimulates(ds[i], rs[i]);
      }
    } else {
      hide DatabaseSimulates;
      AllowedIsDefined(ds, ops[0]);
      DatabaseStepSimulates(ds, rs, ops[0]);
      DatabaseRunSimulates(DatabaseStep(ds, ops[0]), ReferenceDatabaseStep(rs, ops[0]), ops[1..]);
    }
  }

  lemma SimulatesDepth(s: State, r: Reference)
    requires Simulates(s, r)
    ensures |r.copies| == |s.stack|
  {
  }

  // ----- runs in which no undo of the database can abort -----

  ghost predicate DatabaseCareful(ds: Indices, op: DatabaseOp) {
    match op
    case Local(i, op) => i < |ds| && IsLocal(op) && Careful(ds[i], op)
    case Global(op) => !IsLocal(op) && forall i: nat | i < |ds| :: Careful(ds[i], op)
    case AddIndex => DatabaseAllowed(ds, op)
  }

  ghost predicate AllUndoSafe(ds: Indices) {
    forall i: nat | i < |ds| :: UndoAllSafe(ds[i])
  }

  lemma {:induction false} StartUntilSafe(s: State, depth: nat, revision: int)
    requires Simulates(s, AddedReference(s.revision, depth)) && s.revision <= revision && UndoAllSafe(s)
    ensures UndoAllSafe(StartUntil(s, revision))
    decreases revision - s.revision
  {
    hide Unique, Records, UndoAllSafe;
    if s.revision < revision {
      var r := AddedReference(s.revision, depth);
      CarefulStep(s, r, Start);
      StartSimulates(s, r);
      assert ReferenceStep(r, Start) == AddedReference(s.revision + 1, depth + 1);
      StartUntilSafe(StartStep(s), depth + 1, revision);
    }
  }

  lemma DatabaseCarefulStep(ds: Indices, rs: References, op: DatabaseOp)
    requires DatabaseSimulates(ds, rs) && AllUndoSafe(ds) && DatabaseCareful(ds, op)
    ensures DatabaseAllowed(ds, op) && DatabaseDefined(ds, op) && AllUndoSafe(DatabaseStep(ds, op))
  {
    hide Simulates, Lockstep, UndoAllSafe, Step, Careful, StartUntil;
    match op
    case Local(i, op) => CarefulStep(ds[i], rs[i], op);
    case Global(op) =>
      forall i: nat | i < |ds|
        ensures Allowed(ds[i], op) && UndoAllSafe(Step(ds[i], op))
      {
        CarefulStep(ds[i], rs[i], op);
      }
    case AddIndex => AddedSafe(ds, rs);
  }

  lemma AddedSafe(ds: Indices, rs: References)
    requires DatabaseSimulates(ds, rs) && DatabaseAllowed(ds, AddIndex)
    ensures UndoAllSafe(AddedState(ds))
  {
    if |ds| > 0 {
      assert Simulates(ds[0], rs[0]);
      StartUntilSafe(SetRevisionStep(EMPTY, RevisionRange(ds[0]).0), 0, ds[0].revision);
    }
  }

  ghost predicate AllDatabaseCareful(ds: Indices, ops: seq<DatabaseOp>)
    decreases |ops|
  {
    ops == [] || (DatabaseCareful(ds, ops[0]) && AllDatabaseCareful(DatabaseStep(ds, ops[0]), ops[1..]))
  }

  /** Runs of careful operations only: undoing every index completely from where they end never aborts. */
  lemma {:induction false} DatabaseCarefulRuns(ds: Indices, rs: References, ops: seq<DatabaseOp>)
    requires DatabaseSimulates(ds, rs) && AllUndoSafe(ds) && AllDatabaseCareful(ds, ops)
    ensures AllDatabaseAllowed(ds, ops) && AllUndoSafe(DatabaseRun(ds, ops))
    decreases |ops|
  {
    hide DatabaseSimulates, AllUndoSafe, DatabaseCareful, DatabaseAllowed, DatabaseDefined, DatabaseStep;
    if ops != [] {
      DatabaseCarefulStep(ds, rs, ops[0]);
      DatabaseStepSimulates(ds, rs, ops[0]);
      DatabaseCarefulRuns(DatabaseStep(ds, ops[0]), ReferenceDatabaseStep(rs, ops[0]), ops[1..]);
    }
  }

  // ----- what a database session remembers -----

  /** The frames with this revision stay on the stacks throughout the run. */
  ghost predicate DatabaseStaysLive(ds: Indices, revision: int, ops: seq<DatabaseOp>)
    requires AllDatabaseAllowed(ds, ops)
    decreases |ops|
  {
    && |ds| > 0 && Live(ds[0], revision)
    && (ops != [] ==> DatabaseStaysLive(DatabaseStep(ds, ops[0]), revision, ops[1..]))
  }

  /** Database undo, repeated until the frames with this revision are gone. */
  ghost function DatabaseUndoThrough(ds: Indices, revision: int): Indices
    decreases if |ds| > 0 then |ds[0].stack| else 0
  {
    if |ds| > 0 && ds[0].Enabled() && ds[0].revision >= revision then
      DatabaseUndoThrough(DatabaseStep(ds, Global(Undo)), revision)
    else ds
  }

  /** Rows that the session with this revision must give back: those of `start`, and none in later indices. */
  ghost function RowsAt(start: seq<Rows>, i: nat): Rows {
    if i < |start| then start[i] else map[]
  }

  /** Every index keeps the copy it needs for the session with this revision. */
  ghost predicate Remembers(rs: References, revision: int, start: seq<Rows>) {
    forall i: nat | i < |rs| :: LiveCopy(rs[i], revision) && CopyAt(rs[i], revision) == RowsAt(start, i)
  }

  lemma LockstepLive(ds: Indices, rs: References, revision: int, i: nat)
    requires DatabaseSimulates(ds, rs) && i < |ds| && Live(ds[0], revision)
    ensures LiveCopy(rs[i], revision)
  {
    assert Simulates(ds[i], rs[i]);
  }

  lemma StepRemembers(ds: Indices, rs: References, op: DatabaseOp, revision: int, start: seq<Rows>)
    requires DatabaseSimulates(ds, rs) && DatabaseDefined(ds, op)
    requires DatabaseSimulates(DatabaseStep(ds, op), ReferenceDatabaseStep(rs, op))
    requires |ds| > 0 && Live(ds[0], revision) && Live(DatabaseStep(ds, op)[0], revision)
    requires Remembers(rs, revision, start) && |start| <= |rs|
    ensures Remembers(ReferenceDatabaseStep(rs, op), revision, start)
  {
    StepLength(ds, rs, op);
    hide Simulates, Lockstep, DatabaseSimulates, Step, AddedState, ReferenceStep;
    var ds', rs' := DatabaseStep(ds, op), ReferenceDatabaseStep(rs, op);
    forall i: nat | i < |rs'|
      ensures LiveCopy(rs'[i], revision) && CopyAt(rs'[i], revision) == RowsAt(start, i)
    {
      LockstepLive(ds', rs', revision, i);
      if i < |rs| {
        match op
        case Local(j, op) => if j == i { ReferenceKeepsCopy(rs[i], op, revision); }
        case Global(op) => ReferenceKeepsCopy(rs[i], op, revision);
        case AddIndex =>
      }
    }
  }

  lemma StepLength(ds: Indices, rs: References, op: DatabaseOp)
    requires |ds| == |rs| && DatabaseDefined(ds, op)
    ensures |DatabaseStep(ds, op)| == |ReferenceDatabaseStep(rs, op)| >= |rs|
  {
  }

  lemma {:induction false} RunRemembers(ds: Indices, rs: References, ops: seq<DatabaseOp>, revision: int, start: seq<Rows>)
    requires DatabaseSimulates(ds, rs) && AllDatabaseAllowed(ds, ops) && DatabaseStaysLive(ds, revision, ops)
    requires Remembers(rs, revision, start) && |start| <= |rs|
    ensures DatabaseSimulates(DatabaseRun(ds, ops), ReferenceDatabaseRun(rs, ops))
    ensures Remembers(ReferenceDatabaseRun(rs, ops), revision, start)
    ensures |DatabaseRun(ds, ops)| == |ReferenceDatabaseRun(rs, ops)| >= |start|
    decreases |ops|
  {
    hide Simulates, Lockstep, Remembers, Step, Allowed, ReferenceStep;
    if ops != [] {
      AllowedIsDefined(ds, ops[0]);
      DatabaseStepSimulates(ds, rs, ops[0]);
      StepRemembers(ds, rs, ops[0], revision, start);
      StepLength(ds, rs, ops[0]);
      RunRemembers(DatabaseStep(ds, ops[0]), ReferenceDatabaseStep(rs, ops[0]), ops[1..], revision, start);
    }
  }

  /** Undoing the database, if that does not abort. */
  lemma AllUndone(ds: Indices, rs: References)
    requires DatabaseSimulates(ds, rs)
    ensures DatabaseSimulates(DatabaseStep(ds, Global(Undo)), ReferenceDatabaseStep(rs, Global(Undo)))
  {
    ShapesKeepLockstep(ds, Global(Undo));
    hide Simulates, Step, ReferenceStep, Lockstep;
    forall i: nat | i < |ds|
      ensures Simulates(Step(ds[i], Undo), ReferenceStep(rs[i], Undo))
    {
      UndoOneSimulates(ds[i], rs[i]);
    }
  }

  lemma UndoOneSimulates(s: State, r: Reference)
    requires Simulates(s, r)
    ensures Simulates(Step(s, Undo), ReferenceStep(r, Undo))
  {
    hide Simulates, UndoRows;
    UndoSimulates(s, r);
  }

  lemma {:induction false} DatabaseUndoThroughRestores(ds: Indices, rs: References, revision: int, start: seq<Rows>)
    requires DatabaseSimulates(ds, rs) && |ds| > 0 && Live(ds[0], revision)
    requires Remembers(rs, revision, start) && |start| <= |rs|
    ensures var end := DatabaseUndoThrough(ds, revision);
            && |end| == |ds| && Lockstep(end)
            && forall i: nat | i < |end| :: end[i].rows == RowsAt(start, i) && end[i].revision == revision - 1
    decreases |ds[0].stack|
  {
    hide Simulates, Lockstep, Remembers, UndoRows, Step, ReferenceStep, DatabaseSimulates;
    var ds', rs' := DatabaseStep(ds, Global(Undo)), ReferenceDatabaseStep(rs, Global(Undo));
    AllUndone(ds, rs);
    UndoneOnce(ds, rs, revision);
    if ds[0].revision > revision {
      StepRemembers(ds, rs, Global(Undo), revision, start);
      DatabaseUndoThroughRestores(ds', rs', revision, start);
    } else {
      CopiesUndone(ds, rs, revision, start);
    }
  }

  lemma UndoneOnce(ds: Indices, rs: References, revision: int)
    requires DatabaseSimulates(ds, rs) && |ds| > 0 && Live(ds[0], revision)
    ensures var ds' := DatabaseStep(ds, Global(Undo));
            && ds[0].Enabled() && |ds'| == |ds| == |rs| == |ReferenceDatabaseStep(rs, Global(Undo))|
            && ds'[0].revision == ds[0].revision - 1 && |ds'[0].stack| == |ds[0].stack| - 1
            && DatabaseUndoThrough(ds, revision) == DatabaseUndoThrough(ds', revision)
            && (ds[0].revision <= revision ==> DatabaseUndoThrough(ds', revision) == ds')
  {
    hide UndoRows, Simulates;
  }

  lemma CopiesUndone(ds: Indices, rs: References, revision: int, start: seq<Rows>)
    requires DatabaseSimulates(ds, rs) && |ds| > 0 && Live(ds[0], revision) && ds[0].revision <= revision
    requires DatabaseSimulates(DatabaseStep(ds, Global(Undo)), ReferenceDatabaseStep(rs, Global(Undo)))
    requires Remembers(rs, revision, start)
    ensures var end := DatabaseStep(ds, Global(Undo));
            && Lockstep(end)
            && forall i: nat | i < |end| :: end[i].rows == RowsAt(start, i) && end[i].revision == revision - 1
  {
    hide UndoRows, Simulates, Step, ReferenceStep, Contiguous, LiveCopy, CopyAt;
    var ds', rs' := DatabaseStep(ds, Global(Undo)), ReferenceDatabaseStep(rs, Global(Undo));
    forall i: nat | i < |ds'|
      ensures ds'[i].rows == RowsAt(start, i) && ds'[i].revision == revision - 1
    {
      assert Simulates(ds[i], rs[i]) && Simulates(ds'[i], rs'[i]);
      assert rs'[i] == ReferenceStep(rs[i], Undo);
      assert ds[i].revision == ds[0].revision;
      CopyUndone(ds[i], rs[i], ds'[i], revision);
    }
  }

  lemma CopyUndone(s: State, r: Reference, t: State, revision: int)
    requires Simulates(s, r) && LiveCopy(r, revision) && s.revision <= revision && Simulates(t, ReferenceStep(r, Undo))
    ensures t.rows == CopyAt(r, revision) && t.revision == revision - 1
  {
    hide Records, Unique;
  }

  /** Back at the rows and the revision of `start`; indices added since are empty. */
  ghost predicate GivesBack(start: Indices, end: Indices) {
    && |end| >= |start| > 0 && Lockstep(end)
    && (forall i: nat | i < |start| :: end[i].rows == start[i].rows)
    && (forall i: nat | |start| <= i < |end| :: end[i].rows == map[])
    && (forall i: nat | i < |end| :: end[i].revision == start[0].revision)
  }

  ghost function OpenSession(ds: Indices): Indices {
    DatabaseStep(ds, Global(Start))
  }

  lemma StartRemembers(ds: Indices, rs: References, rows: seq<Rows>)
    requires DatabaseSimulates(ds, rs) && |ds| > 0
    requires |rows| == |ds| && forall i: nat | i < |ds| :: rows[i] == ds[i].rows
    ensures Remembers(ReferenceDatabaseStep(rs, Global(Start)), ds[0].revision + 1, rows)
  {
    forall i: nat | i < |rs|
      ensures rs[i].revision == ds[0].revision && rs[i].rows == rows[i]
    {
      assert Simulates(ds[i], rs[i]);
    }
  }

  lemma DatabaseSessionReturnsTo(ds: Indices, rs: References, during: seq<DatabaseOp>)
    requires DatabaseSimulates(ds, rs) && |ds| > 0
    requires AllDatabaseAllowed(OpenSession(ds), during)
    requires DatabaseStaysLive(OpenSession(ds), ds[0].revision + 1, during)
    ensures GivesBack(ds, DatabaseUndoThrough(DatabaseRun(OpenSession(ds), during), ds[0].revision + 1))
  {
    var revision := ds[0].revision + 1;
    var rows := seq(|ds|, i requires 0 <= i < |ds| => ds[i].rows);
    DatabaseStepSimulates(ds, rs, Global(Start));
    StartRemembers(ds, rs, rows);
    hide Lockstep, Simulates, AllDatabaseAllowed;
    var qs := ReferenceDatabaseStep(rs, Global(Start));
    RunRemembers(OpenSession(ds), qs, during, revision, rows);
    var last, lastReference := DatabaseRun(OpenSession(ds), during), ReferenceDatabaseRun(qs, during);
    StaysLiveAtEnd(OpenSession(ds), revision, during);
    DatabaseUndoThroughRestores(last, lastReference, revision, rows);
  }

  lemma {:induction false} StaysLiveAtEnd(ds: Indices, revision: int, ops: seq<DatabaseOp>)
    requires AllDatabaseAllowed(ds, ops) && DatabaseStaysLive(ds, revision, ops)
    ensures var last := DatabaseRun(ds, ops); |last| > 0 && Live(last[0], revision)
    decreases |ops|
  {
    if ops != [] {
      StaysLiveAtEnd(DatabaseStep(ds, ops[0]), revision, ops[1..]);
    }
  }

  /** Whatever happens while a session is open, undoing the database through it restores the rows of every index
      that existed when it was opened and leaves every index added since without rows. */
  lemma DatabaseSessionRestores(before: seq<DatabaseOp>, during: seq<DatabaseOp>)
    requires AllDatabaseAllowed([], before) && |DatabaseRun([], before)| > 0
    requires var start := DatabaseRun([], before);
             && AllDatabaseAllowed(OpenSession(start), during)
             && DatabaseStaysLive(OpenSession(start), start[0].revision + 1, during)
    ensures var start := DatabaseRun([], before);
            GivesBack(start, DatabaseUndoThrough(DatabaseRun(OpenSession(start), during), start[0].revision + 1))
  {
    hide *;
    NothingSimulates();
    DatabaseRunSimulates([], [], before);
    DatabaseSessionReturnsTo(DatabaseRun([], before), ReferenceDatabaseRun([], before), during);
  }

  /** The session object undoes less: when its frames are the newest ones again, undoing it restores the rows of
      every index that existed when it was opened, and does not touch an index that was added since. */
  lemma SessionUndoRestores(before: seq<DatabaseOp>, during: seq<DatabaseOp>)
    requires AllDatabaseAllowed([], before) && |DatabaseRun([], before)| > 0
    requires var start := DatabaseRun([], before);
             && AllDatabaseAllowed(OpenSession(start), during)
             && DatabaseStaysLive(OpenSession(start), start[0].revision + 1, during)
             && var last := DatabaseRun(OpenSession(start), during);
                |last| > 0 && last[0].revision == start[0].revision + 1
    ensures var start := DatabaseRun([], before);
            var last := DatabaseRun(OpenSession(start), during);
            && |start| <= |last| && Lockstep(last)
            && var end := SessionStep(last, |start|, Undo);
               && (forall i: nat | i < |start| :: end[i].rows == start[i].rows && end[i].revision == start[0].revision)
               && (forall i: nat | |start| <= i < |last| :: end[i] == last[i])
               && (Lockstep(end) <==> |last| == |start|)
  {
    hide *;
    var start := DatabaseRun([], before);
    var last := DatabaseRun(OpenSession(start), during);
    DatabaseSessionRestores(before, during);
    NothingSimulates();
    DatabaseRunSimulates([], [], before);
    SessionRunLockstep(start, ReferenceDatabaseRun([], before), during);
    NewestUndone(last, start[0].revision + 1);
    SessionUndoIs(start, last);
  }

  /** What undoing the whole database gives back, undoing a session gives back in the indices it captured. */
  lemma SessionUndoIs(start: Indices, last: Indices)
    requires Lockstep(last) && 0 < |start| <= |last| && last[0].Enabled()
    requires GivesBack(start, DatabaseStep(last, Global(Undo)))
    ensures var end := SessionStep(last, |start|, Undo);
            && (forall i: nat | i < |start| :: end[i].rows == start[i].rows && end[i].revision == start[0].revision)
            && (forall i: nat | |start| <= i < |last| :: end[i] == last[i])
            && (Lockstep(end) <==> |last| == |start|)
  {
    hide Lockstep, Step;
    SessionKeepsLockstep(last, |start|, Undo);
    GlobalUndoIs(last);
  }

  lemma NothingSimulates()
    ensures DatabaseSimulates([], [])
  {
  }

  lemma SessionRunLockstep(start: Indices, rs: References, during: seq<DatabaseOp>)
    requires DatabaseSimulates(start, rs) && |start| > 0 && AllDatabaseAllowed(OpenSession(start), during)
    requires DatabaseStaysLive(OpenSession(start), start[0].revision + 1, during)
    ensures var last := DatabaseRun(OpenSession(start), during);
            |start| <= |last| && Lockstep(last) && last[0].Enabled()
  {
    hide Simulates, Lockstep, AllDatabaseAllowed, DatabaseStaysLive;
    DatabaseStepSimulates(start, rs, Global(Start));
    DatabaseRunSimulates(OpenSession(start), ReferenceDatabaseStep(rs, Global(Start)), during);
    StaysLiveAtEnd(OpenSession(start), start[0].revision + 1, during);
    RunGrows(OpenSession(start), during);
  }

  lemma {:induction false} RunGrows(ds: Indices, ops: seq<DatabaseOp>)
    requires AllDatabaseAllowed(ds, ops)
    ensures |DatabaseRun(ds, ops)| >= |ds|
    decreases |ops|
  {
    if ops != [] {
      RunGrows(DatabaseStep(ds, ops[0]), ops[1..]);
    }
  }

  lemma NewestUndone(ds: Indices, revision: int)
    requires |ds| > 0 && ds[0].Enabled() && ds[0].revision == revision
    ensures DatabaseUndoThrough(ds, revision) == DatabaseStep(ds, Global(Undo))
  {
    hide UndoRows;
    var ds' := DatabaseStep(ds, Global(Undo));
    assert ds'[0].revision == revision - 1;
    assert DatabaseUndoThrough(ds', revision) == ds';
  }

  lemma GlobalUndoIs(ds: Indices)
    ensures var all := DatabaseStep(ds, Global(Undo));
            |all| == |ds| && forall i: nat | i < |ds| :: all[i] == Step(ds[i], Undo)
  {
    hide UndoRows;
  }
}
