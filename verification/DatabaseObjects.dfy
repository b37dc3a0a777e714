/** The database object: a list of index objects, each operation a loop over the list.

Every operation is proved to do to all indices what Databases.DatabaseStep does to all states.
 */
module DatabaseObjects {
  import opened UndoStack
  import opened Databases
  import opened GenericIndexes

  /** The indices are all different objects. */
  ghost predicate AllDistinct(indices: seq<GenericIndex>) {
    forall i: nat, j: nat | i < j < |indices| :: indices[i] != indices[j]
  }

  /** An open session over the indices that the database had when it was opened.  Undo and squash end it. */
  class Session {
    var captured: seq<GenericIndex>

    constructor (captured: seq<GenericIndex>)
      ensures this.captured == captured
    {
      this.captured := captured;
    }

    /** Undoes the captured indices; aborts (`ok` is false) exactly if one of them aborts. */
    method Undo() returns (ok: bool)
      requires AllDistinct(captured)
      modifies this, captured
      ensures ok == forall i: nat | i < |old(captured)| :: UndoStepSafe(old(captured[i].Current()))
      ensures ok ==> captured == []
      ensures ok ==> forall i: nat | i < |old(captured)| ::
                       old(captured)[i].Current() == UndoStep(old(captured[i].Current()))
    {
      hide UndoStepSafe, UndoStep;
      for n := 0 to |captured|
        invariant captured == old(captured)
        invariant forall i: nat | i < n :: UndoStepSafe(old(captured[i].Current()))
        invariant forall i: nat | i < n :: captured[i].Current() == UndoStep(old(captured[i].Current()))
        invariant forall i: nat | n <= i < |captured| :: captured[i].Current() == old(captured[i].Current())
      {
        ok := captured[n].Undo();
        if !ok { return; }
      }
      captured := [];
      ok := true;
    }

    /** Squashes the captured indices. */
    method Squash()
      requires AllDistinct(captured)
      modifies this, captured
      ensures captured == []
      ensures forall i: nat | i < |old(captured)| ::
                old(captured)[i].Current() == SquashStep(old(captured[i].Current()))
    {
      hide SquashStep;
      for n := 0 to |captured|
        invariant captured == old(captured)
        invariant forall i: nat | i < n :: captured[i].Current() == SquashStep(old(captured[i].Current()))
        invariant forall i: nat | n <= i < |captured| :: captured[i].Current() == old(captured[i].Current())
      {
        captured[n].Squash();
      }
      captured := [];
    }
  }

  class Database {
    var indexList: seq<GenericIndex>
    var typeIds: set<nat>
    var file: map<string, GenericIndex>
    const readOnly: bool

    ghost predicate Distinct()
      reads this
    {
      AllDistinct(indexList)
    }

    /** The states of all indices, in list order. */
    ghost function States(): (ds: Indices)
      reads this, indexList
      ensures |ds| == |indexList|
      ensures forall i: nat | i < |ds| :: ds[i] == indexList[i].Current()
    {
      seq(|indexList|, i requires 0 <= i < |indexList| reads this, indexList => indexList[i].Current())
    }

    /** Opens a database file with the indices it holds, none of which has been added yet. */
    constructor (file: map<string, GenericIndex>, readOnly: bool)
      ensures indexList == [] && typeIds == {} && this.file == file && this.readOnly == readOnly
    {
      indexList, typeIds, this.file, this.readOnly := [], {}, file, readOnly;
    }

    /** Opens a session in every index, unless it is disabled. */
    method StartUndoSession(enabled: bool) returns (session: Session)
      requires Distinct()
      modifies indexList
      ensures States() == if enabled then DatabaseStep(old(States()), Global(Start)) else old(States())
      ensures fresh(session) && session.captured == if enabled then indexList else []
    {
      hide StartStep;
      session := new Session([]);
      if enabled {
        for n := 0 to |indexList|
          invariant forall i: nat | i < n :: indexList[i].Current() == StartStep(old(indexList[i].Current()))
          invariant forall i: nat | n <= i < |indexList| :: indexList[i].Current() == old(indexList[i].Current())
        {
          indexList[n].StartUndoSession(enabled);
        }
        session.captured := indexList;
      }
    }

    /** Undoing a session takes the session step over the indices it captured. */
    method UndoSession(session: Session) returns (ok: bool)
      requires Distinct() && session.captured <= indexList
      modifies session, session.captured
      ensures ok == forall i: nat | i < |old(session.captured)| :: UndoStepSafe(old(States())[i])
      ensures ok ==> States() == SessionStep(old(States()), |old(session.captured)|, UndoStack.Undo)
    {
      hide UndoStep, UndoStepSafe;
      ghost var n := |session.captured|;
      assert session.captured == indexList[..n];
      assert forall i: nat | i < n :: session.captured[i].Current() == States()[i];
      ok := session.Undo();
      if ok {
        assert forall i: nat | i < n :: indexList[i].Current() == UndoStep(old(indexList[i].Current()));
      }
    }

    /** Undoes the top frame of every index; aborts (`ok` is false) exactly if one of them aborts. */
    method Undo() returns (ok: bool)
      requires Distinct()
      modifies indexList
      ensures ok == forall i: nat | i < |indexList| :: UndoStepSafe(old(States())[i])
      ensures ok ==> States() == DatabaseStep(old(States()), Global(UndoStack.Undo))
    {
      hide UndoStepSafe, UndoStep;
      for n := 0 to |indexList|
        invariant forall i: nat | i < n :: UndoStepSafe(old(States())[i])
        invariant forall i: nat | i < n :: indexList[i].Current() == UndoStep(old(indexList[i].Current()))
        invariant forall i: nat | n <= i < |indexList| :: indexList[i].Current() == old(indexList[i].Current())
      {
        ghost var s := indexList[n].Current();
        assert s == old(States())[n];
        ok := indexList[n].Undo();
        if !ok { return; }
      }
      ok := true;
    }

    /** Squashes the top two frames of every index. */
    method Squash()
      requires Distinct()
      modifies indexList
      ensures States() == DatabaseStep(old(States()), Global(UndoStack.Squash))
    {
      hide SquashStep;
      for n := 0 to |indexList|
        invariant forall i: nat | i < n :: indexList[i].Current() == SquashStep(old(indexList[i].Current()))
        invariant forall i: nat | n <= i < |indexList| :: indexList[i].Current() == old(indexList[i].Current())
      {
        indexList[n].Squash();
      }
    }

    /** Commits every index up to a revision. */
    method Commit(upTo: int)
      requires Distinct()
      modifies indexList
      ensures States() == DatabaseStep(old(States()), Global(UndoStack.Commit(upTo)))
    {
      for n := 0 to |indexList|
        invariant forall i: nat | i < n :: indexList[i].Current() == CommitStep(old(indexList[i].Current()), upTo)
        invariant forall i: nat | n <= i < |indexList| :: indexList[i].Current() == old(indexList[i].Current())
      {
        indexList[n].Commit(upTo);
      }
    }

    /** Unwinds every index; aborts (`ok` is false) exactly if one of them aborts. */
    method UndoAll() returns (ok: bool)
      requires Distinct()
      modifies indexList
      ensures ok == forall i: nat | i < |indexList| :: UndoAllSafe(old(States())[i])
      ensures ok ==> States() == DatabaseStep(old(States()), Global(UndoStack.UndoAll))
    {
      hide UndoAllSafe, UndoAllStep;
      for n := 0 to |indexList|
        invariant forall i: nat | i < n :: UndoAllSafe(old(States())[i])
        invariant forall i: nat | i < n :: indexList[i].Current() == UndoAllStep(old(indexList[i].Current()))
        invariant forall i: nat | n <= i < |indexList| :: indexList[i].Current() == old(indexList[i].Current())
      {
        ghost var s := indexList[n].Current();
        assert s == old(States())[n];
        ok := indexList[n].UndoAll();
        if !ok { return; }
      }
      ok := true;
    }

    /** Sets the revision of every index, or throws (`ok` is false); in lockstep either all indices change or none. */
    method SetRevision(value: nat) returns (ok: bool)
      requires Distinct()
      modifies indexList
      ensures Lockstep(old(States())) ==> States() == DatabaseStep(old(States()), Global(UndoStack.SetRevision(value)))
      ensures Lockstep(old(States())) && |indexList| > 0 ==>
                ok == (!old(States())[0].Enabled() && value <= MAX_REVISION)
    {
      ghost var ds := States();
      for n := 0 to |indexList|
        invariant forall i: nat | i < n :: indexList[i].Current() == SetRevisionStep(ds[i], value)
        invariant forall i: nat | i < n :: !ds[i].Enabled() && value <= MAX_REVISION
        invariant forall i: nat | n <= i < |indexList| :: indexList[i].Current() == ds[i]
      {
        ok := indexList[n].SetRevision(value);
        if !ok {
          assert forall i: nat | i < n :: !ds[i].Enabled();
          assert n > 0 ==> !ds[0].Enabled() && value <= MAX_REVISION;
          SetRevisionStopsFirst(ds, value, n);
          return;
        }
      }
      ok := true;
    }

    /** Adds the index of a type, either found in the database file under the type's name or, if there is none,
        constructed empty.  A constructed index is given the revision range of the others; a found one must already
        have it.  Throws (`ok` is false) exactly if the type id is taken, the range of a found index differs, or an
        index would have to be constructed in a database that is read only.  Revisions fit the 63 bits they have. */
    method AddIndex(typeId: nat, name: string) returns (ok: bool)
      requires Distinct() && Lockstep(States()) && (|indexList| > 0 ==> States()[0].revision <= MAX_REVISION)
      requires name in file ==> file[name] !in indexList && Contiguous(file[name].Current())
      modifies this
      ensures Distinct() && Lockstep(States())
      ensures ok == (typeId !in old(typeIds) && FitsOthers(old(States()), old(Found(name)), readOnly))
      ensures !ok ==> indexList == old(indexList) && typeIds == old(typeIds)
      ensures ok ==> typeIds == old(typeIds) + {typeId}
      ensures ok ==> name in file && indexList == old(indexList) + [file[name]]
      ensures ok && old(Found(name)) == null ==> States() == old(States()) + [AddedState(old(States()))]
      ensures if ok && old(Found(name)) == null then
                name in file && fresh(file[name]) && file == old(file)[name := file[name]]
              else file == old(file)
    {
      hide AddedState, StartUntil, SetRevisionStep, Contiguous;
      if typeId in typeIds { return false; }
      ghost var ds := States();
      var isNew := name !in file;
      if isNew {
        if readOnly { return false; }
        Construct(name);
      }
      var idx := file[name];
      EmptyIsContiguous();
      if |indexList| > 0 {
        assert ds[0] == indexList[0].Current() && Contiguous(ds[0]);
        ok := Fit(indexList[0], idx, isNew);
        if !ok { return; }
        if isNew {
          AddedIs(ds);
          AddedStateShape(ds);
        }
      } else {
        AddedToEmpty(ds);
      }
      Append(typeId, idx);
      ok := true;
    }

    /** Puts an empty index into the file. */
    method Construct(name: string)
      requires name !in file
      modifies this`file
      ensures name in file && fresh(file[name]) && file == old(file)[name := file[name]]
      ensures file[name].Current() == EMPTY
    {
      var constructed := new GenericIndex();
      file := file[name := constructed];
    }

    /** Adds an index with the range of the others to the list. */
    method Append(typeId: nat, idx: GenericIndex)
      requires Distinct() && Lockstep(States()) && idx !in indexList && Contiguous(idx.Current())
      requires |indexList| > 0 ==> RevisionRange(idx.Current()) == RevisionRange(indexList[0].Current())
      modifies this`indexList, this`typeIds
      ensures indexList == old(indexList) + [idx] && typeIds == old(typeIds) + {typeId}
      ensures Distinct() && Lockstep(States()) && States() == old(States()) + [idx.Current()]
    {
      LockstepGrows(States(), idx.Current());
      ghost var ds := States();
      indexList := indexList + [idx];
      typeIds := typeIds + {typeId};
      assert States() == ds + [idx.Current()];
    }

    /** The index that the file holds under a name, if any. */
    ghost function Found(name: string): GenericIndex?
      reads this
    {
      if name in file then file[name] else null
    }
  }

  lemma EmptyIsContiguous()
    ensures Contiguous(EMPTY)
  {
  }

  lemma AddedIs(ds: Indices)
    requires |ds| > 0
    ensures AddedState(ds) == StartUntil(SetRevisionStep(EMPTY, RevisionRange(ds[0]).0), RevisionRange(ds[0]).1)
  {
  }

  lemma LockstepGrows(ds: Indices, s: State)
    requires Lockstep(ds) && Contiguous(s)
    requires |ds| > 0 ==> RevisionRange(s) == RevisionRange(ds[0])
    ensures Lockstep(ds + [s])
  {
  }

  /** Compares an index with the first one of the list, and gives it the range of that one if it is new. */
  method Fit(first: GenericIndex, idx: GenericIndex, isNew: bool) returns (ok: bool)
    requires first != idx && Contiguous(first.Current()) && Contiguous(idx.Current())
    requires isNew ==> idx.Current() == EMPTY
    modifies if isNew then {idx} else {}
    ensures !isNew ==> ok == (RevisionRange(idx.Current()) == RevisionRange(first.Current()))
    ensures isNew ==> ok == (RevisionRange(first.Current()).0 <= MAX_REVISION)
    ensures isNew && !ok ==> idx.Current() == EMPTY
    ensures isNew && ok ==>
              var range := RevisionRange(first.Current());
              idx.Current() == StartUntil(SetRevisionStep(EMPTY, range.0), range.1)
  {
    var begin, end := first.UndoStackRevisionRange();
    var addedBegin, addedEnd := idx.UndoStackRevisionRange();
    ok := true;
    if addedBegin != begin || addedEnd != end {
      if !isNew { return false; }
      ok := MatchRange(idx, begin, end);
    }
  }

  /** Whether an index can join the others: a new one always can in a writable database, one from the file needs the
      very range of the others. */
  ghost predicate FitsOthers(ds: Indices, found: GenericIndex?, readOnly: bool)
    reads found
  {
    if found == null then !readOnly
    else |ds| > 0 ==> RevisionRange(found.Current()) == RevisionRange(ds[0])
  }

  /** Gives a newly constructed index the frames it needs. */
  method MatchRange(idx: GenericIndex, begin: int, end: int) returns (ok: bool)
    requires idx.Current() == EMPTY && 0 <= begin <= end
    modifies idx
    ensures ok == (begin <= MAX_REVISION)
    ensures !ok ==> idx.Current() == EMPTY
    ensures ok ==> idx.Current() == StartUntil(SetRevisionStep(EMPTY, begin), end)
  {
    ok := idx.SetRevision(begin);
    if !ok { return; }
    while idx.revision < end
      invariant StartUntil(idx.Current(), end) == StartUntil(SetRevisionStep(EMPTY, begin), end)
      decreases end - idx.revision
    {
      idx.StartUndoSession(true);
    }
  }

  /** In lockstep, an index that refuses a revision is the first one. */
  lemma SetRevisionStopsFirst(ds: Indices, value: nat, n: nat)
    requires n < |ds| && (ds[n].Enabled() || value > MAX_REVISION)
    requires forall i: nat | i < n :: !ds[i].Enabled() && value <= MAX_REVISION
    ensures Lockstep(ds) ==> n == 0 && forall i: nat | i < |ds| :: SetRevisionStep(ds[i], value) == ds[i]
  {
    if Lockstep(ds) {
      assert |ds[n].stack| == |ds[0].stack|;
      assert n == 0;
      assert forall i: nat | i < |ds| :: |ds[i].stack| == |ds[0].stack|;
    }
  }
}
