/** The contract database as an object: tables, rows and handle tables updated in place.

Every operation is proved to take the step that ContractTables describes, and thereby to keep the invariant.
 */
module EosDbs {
  import opened IteratorCaches
  import opened ContractRows
  import opened ContractTables
  import opened ContractEntries

  class EosDb {
    var tables: map<int, Table>
    var rows: seq<Rows>
    var created: nat
    const caches: seq<IteratorCache>

    /** One handle table for each kind of row. */
    ghost predicate Wired() {
      |caches| == KINDS && forall i: nat, j: nat | i < j < |caches| :: caches[i] != caches[j]
    }

    ghost function State(): Contracts
      requires Wired()
      reads this, caches
    {
      Contracts(tables, rows,
                [caches[0].Contents(), caches[1].Contents(), caches[2].Contents(), caches[3].Contents()], created)
    }

    ghost predicate Ready()
      reads this, caches
    {
      Wired() && Invariant(State())
    }

    /** Opens a database whose counts are right; no handle has been issued yet. */
    constructor (tables: map<int, Table>, rows: seq<Rows>, created: nat)
      requires |rows| == KINDS && TablesUnique(tables) && forall k: nat | k < KINDS :: RowsUnique(rows[k])
      requires forall t | t in tables :: tables[t].count == References(rows, t) < COUNT_LIMIT
      requires forall k: nat, id | k < KINDS && id in rows[k] :: rows[k][id].table in tables
      requires Numbered(tables, created)
      ensures Ready() && fresh(caches)
      ensures State() == Contracts(tables, rows, [EMPTY_CACHE, EMPTY_CACHE, EMPTY_CACHE, EMPTY_CACHE], created)
    {
      this.tables, this.rows, this.created := tables, rows, created;
      var keyValue := new IteratorCache();
      var index64 := new IteratorCache();
      var index128 := new IteratorCache();
      var index256 := new IteratorCache();
      caches := [keyValue, index64, index128, index256];
      FreshCachesInvariant(tables, rows, created);
      new;
      hide Invariant, References, TablesUnique, RowsUnique, Valid;
      assert State() == Contracts(tables, rows, [EMPTY_CACHE, EMPTY_CACHE, EMPTY_CACHE, EMPTY_CACHE], created);
    }

    /** Finds the table by its name, or creates it under an id the caller brings; throws (none) if that id is
        taken. */
    method FindOrCreateTable(place: Place, payer: nat, newTable: int) returns (t: Option<int>)
      requires Wired() && TablesUnique(tables)
      modifies this`tables, this`created
      ensures (State(), t) == FindOrCreate(old(State()), place, payer, newTable)
      ensures t.Some? ==> t.value in tables && PlaceOf(tables[t.value]) == place
      ensures t.None? <==> place !in old(Places(State())) && newTable in old(tables)
    {
      FindTableIs(tables, place.code, place.scope, place.name);
      t := FindTable(tables, place.code, place.scope, place.name);
      if t.Some? { return; }
      if newTable in tables { return None; }
      Create(place, payer, "", newTable);
      return Some(newTable);
    }

    /** Creates a table object. */
    method Create(place: Place, payer: nat, value: string, t: int)
      requires Wired()
      modifies this`tables, this`created
      ensures State() == WithNewTable(old(State()), place, payer, value, t)
    {
      tables := tables[t := NewTable(place, payer, value, created)];
      created := created + 1;
    }

    /** The end iterator of a table in the handle table of one kind. */
    method CacheTable(kind: nat, t: TablePointer) returns (end: int)
      requires Wired() && kind < KINDS && Valid(caches[kind].Contents())
      modifies caches[kind]
      ensures var s := old(State());
              && State() == s.(caches := s.caches[kind := WithTable(s.caches[kind], t).0])
              && end == WithTable(s.caches[kind], t).1
      ensures Valid(caches[kind].Contents())
    {
      ghost var s := State();
      hide Valid, Extends, WithTable;
      end := caches[kind].CacheTable(t);
      assert State().caches == s.caches[kind := caches[kind].Contents()];
    }

    /** The handle of a row in the handle table of its kind. */
    method AddHandle(kind: nat, id: int) returns (handle: int)
      requires Wired() && kind < KINDS && Valid(caches[kind].Contents())
      modifies caches[kind]
      ensures var s := old(State());
              && State() == s.(caches := s.caches[kind := WithObject(s.caches[kind], id).0])
              && handle == WithObject(s.caches[kind], id).1
    {
      ghost var s := State();
      hide Valid, Extends, WithObject;
      handle := caches[kind].Add(id);
      assert State().caches == s.caches[kind := caches[kind].Contents()];
    }

    method DropHandle(kind: nat, handle: int)
      requires Wired() && kind < KINDS && Valid(caches[kind].Contents()) && 0 <= handle < |caches[kind].objects|
      modifies caches[kind]
      ensures var s := old(State()); State() == s.(caches := s.caches[kind := Drop(s.caches[kind], handle)])
    {
      ghost var s := State();
      hide Valid, Extends, Drop;
      caches[kind].Remove(handle);
      assert State().caches == s.caches[kind := caches[kind].Contents()];
    }

    /** Stores a row of any kind. */
    method Store(kind: nat, place: Place, payer: nat, primary: nat, id: int, content: Content, newTable: int)
      returns (r: Outcome)
      requires Ready() && kind < KINDS
      modifies this, caches
      ensures Wired()
      ensures (State(), r) == StoreStep(old(State()), kind, place, payer, primary, id, content, newTable)
      ensures Ready() <==>
                && HasRoom(old(State()), ContractTables.Store(kind, place, payer, primary, id, content, newTable))
                && FreshTable(old(State()), place, newTable)
    {
      hide Invariant, CachesExtend, Valid, TablesUnique, RowsUnique, WithTable, WithObject, CanStore, HasRoom, FreshTable,
        Places, PlaceOf;
      ghost var s := State();
      StoreKeeps(s, ContractTables.Store(kind, place, payer, primary, id, content, newTable));
      InvariantFacts(s, kind);
      var found := FindOrCreateTable(place, payer, newTable);
      if found.None? { return Thrown; }
      var t := found.value;
      var row := Row(t, primary, payer, content);
      if !CanStore(rows[kind], id, row) { return Thrown; }
      rows := rows[kind := rows[kind][id := row]];
      tables := tables[t := tables[t].(count := (tables[t].count + 1) % COUNT_LIMIT)];
      var end := CacheTable(kind, PointerTo(tables, t));
      ghost var cached := State();
      var handle := AddHandle(kind, id);
      r := Iterator(handle);
      assert s.caches[kind := cached.caches[kind]] == cached.caches;
      assert State().caches == s.caches[kind := State().caches[kind]];
    }

    /** Stores a key-value row under its primary key. */
    method DbStoreI64(place: Place, payer: nat, primary: nat, bytes: string, newTable: int) returns (r: Outcome)
      requires Ready()
      modifies this, caches
      ensures Wired()
      ensures (State(), r) == StoreStep(old(State()), KEY_VALUE, place, payer, primary, primary, Blob(bytes), newTable)
      ensures Ready() <==>
                && HasRoom(old(State()),
                           ContractTables.Store(KEY_VALUE, place, payer, primary, primary, Blob(bytes), newTable))
                && FreshTable(old(State()), place, newTable)
    {
      hide Invariant, StoreStep, HasRoom, FreshTable;
      r := Store(KEY_VALUE, place, payer, primary, primary, Blob(bytes), newTable);
    }

    /** Creates a table that holds a value of its own; throws if the table exists already. */
    method DbStoreByScope(place: Place, payer: nat, value: string, newTable: int) returns (r: Outcome)
      requires Ready()
      modifies this`tables, this`created
      ensures Ready() <==> FreshTable(old(State()), place, newTable)
      ensures Wired() && (State(), r) == StoreByScopeStep(old(State()), place, payer, value, newTable)
    {
      ghost var s := State();
      StoreByScopeKeeps(s, ContractTables.StoreByScope(place, payer, value, newTable));
      hide Invariant, CachesExtend;
      if FindTable(tables, place.code, place.scope, place.name).Some? || newTable in tables { return Thrown; }
      Create(place, payer, value, newTable);
      r := TableCreated(newTable);
    }

    /** Replaces payer and content of the row behind a handle. */
    method Update(kind: nat, handle: int, payer: nat, content: Content) returns (r: Outcome)
      requires Ready() && kind < KINDS
      modifies this`rows
      ensures Ready()
      ensures (State(), r) == UpdateStep(old(State()), kind, handle, payer, content)
      ensures r.Iterator? ==>
                var found := Lookup(State().caches[kind], handle);
                && found.Some? && found.value in rows[kind] && found.value in old(rows)[kind]
                && Updated(old(rows)[kind][found.value], rows[kind][found.value], payer, content)
    {
      hide Invariant, CachesExtend, Valid, TablesUnique, RowsUnique;
      ghost var s := State();
      UpdateKeeps(s, ContractTables.Update(kind, handle, payer, content));
      InvariantFacts(s, kind);
      if Lookup(s.caches[kind], handle).Some? {
        LiveHandle(s, kind, handle);
      }
      var found := caches[kind].Get(handle);
      if found.None? { return InvalidIterator; }
      var id := found.value;
      rows := rows[kind := rows[kind][id := rows[kind][id].(payer := payer, content := content)]];
      r := Iterator(handle);
    }

    /** Counts one row less in a table; a key-value row takes an empty table with it. */
    method Uncount(kind: nat, t: int)
      requires t in tables
      modifies this`tables
      ensures var count := (old(tables)[t].count + COUNT_LIMIT - 1) % COUNT_LIMIT;
              tables == if kind == KEY_VALUE && count == 0 then old(tables) - {t}
                        else old(tables)[t := old(tables)[t].(count := count)]
    {
      ghost var was := tables;
      tables := tables[t := tables[t].(count := (tables[t].count + COUNT_LIMIT - 1) % COUNT_LIMIT)];
      if kind == KEY_VALUE && tables[t].count == 0 {
        tables := tables - {t};
        assert tables == was - {t};
      }
    }

    /** Removes the row behind a handle, and with the last row that a key-value removal leaves, the table. */
    method Remove(kind: nat, handle: int) returns (r: Outcome)
      requires Ready() && kind < KINDS
      modifies this, caches
      ensures Ready()
      ensures (State(), r) == RemoveStep(old(State()), kind, handle)
    {
      hide Invariant, CachesExtend, Valid, TablesUnique, RowsUnique, Drop, Step;
      ghost var s := State();
      RemoveStepKeeps(s, kind, handle);
      InvariantFacts(s, kind);
      if Lookup(s.caches[kind], handle).Some? {
        LiveHandle(s, kind, handle);
      }
      var found := caches[kind].Get(handle);
      if found.None? { return InvalidIterator; }
      var t := rows[kind][found.value].table;
      rows := rows[kind := rows[kind] - {found.value}];
      Uncount(kind, t);
      DropHandle(kind, handle);
      r := Iterator(handle);
    }

    /** Searches a table: find, lower bound, upper bound, or just the end iterator. */
    method Seek(place: Place, search: Search) returns (r: Outcome)
      requires Ready()
      modifies caches
      ensures Ready()
      ensures (State(), r) == SeekStep(old(State()), place, search)
    {
      hide Invariant, CachesExtend, Valid, TablesUnique, RowsUnique, WithTable, WithObject, Candidates, Matches, IsFirst;
      ghost var s := State();
      InvariantFacts(s, KEY_VALUE);
      SeekKeeps(s, place, search);
      var found := FindTable(tables, place.code, place.scope, place.name);
      if found.None? { return Iterator(-1); }
      var t := found.value;
      var end := CacheTable(KEY_VALUE, PointerTo(tables, t));
      var first := First(rows[KEY_VALUE], Candidates(rows[KEY_VALUE], t, search));
      if first.None? || rows[KEY_VALUE][first.value].table != t { return Iterator(end); }
      ghost var cached := State();
      var handle := AddHandle(KEY_VALUE, first.value);
      r := Iterator(handle);
      assert State().caches == s.caches[KEY_VALUE := State().caches[KEY_VALUE]];
    }

    /** Moves a cursor forward. */
    method DbNextI64(handle: int) returns (r: Outcome)
      requires Ready()
      modifies caches
      ensures Ready()
      ensures (State(), r) == NextStep(old(State()), handle)
    {
      hide Invariant, CachesExtend, Valid, TablesUnique, RowsUnique, WithObject;
      ghost var s := State();
      NextKeeps(s, handle);
      InvariantFacts(s, KEY_VALUE);
      if Lookup(s.caches[KEY_VALUE], handle).Some? {
        LiveHandle(s, KEY_VALUE, handle);
      }
      if handle < -1 { return Iterator(-1); }
      var found := caches[KEY_VALUE].Get(handle);
      if found.None? { return InvalidIterator; }
      var keyValues := rows[KEY_VALUE];
      var row := keyValues[found.value];
      var next := First(keyValues, After(keyValues, row.table, row.primary));
      if next.None? || keyValues[next.value].table != row.table {
        return Iterator(caches[KEY_VALUE].tableCache[row.table].end);
      }
      var h := AddHandle(KEY_VALUE, next.value);
      r := RowAt(h, keyValues[next.value].primary);
    }

    /** Moves a cursor back. */
    method DbPreviousI64(handle: int) returns (r: Outcome)
      requires Ready()
      modifies caches
      ensures Ready()
      ensures (State(), r) == PreviousStep(old(State()), handle)
    {
      hide Invariant, CachesExtend, Valid, TablesUnique, RowsUnique, WithObject, MovedTo, IsLast, Below, Members;
      if handle < -1 {
        r := PreviousFromEnd(handle);
      } else {
        r := PreviousFromRow(handle);
      }
    }

    /** Where the original follows a pointer to a deleted table, this only says so. */
    method PreviousFromEnd(end: int) returns (r: Outcome)
      requires Ready() && end < -1
      modifies caches
      ensures Ready()
      ensures (State(), r) == PreviousStep(old(State()), end)
    {
      hide Invariant, CachesExtend, Valid, TablesUnique, RowsUnique, WithObject, MovedTo, IsLast, Below, Members;
      ghost var s := State();
      PreviousFromEndKeeps(s, end);
      InvariantFacts(s, KEY_VALUE);
      var keyValues := rows[KEY_VALUE];
      var found := caches[KEY_VALUE].FindTableByEndIterator(end);
      if found.None? { return InvalidIterator; }
      var t := found.value;
      if !Alive(tables, t) { return DanglingTable; }
      var last := Last(keyValues, UpTo(keyValues, t.id + 1, 0));
      if last.None? || keyValues[last.value].table != t.id { return Iterator(-1); }
      var h := AddHandle(KEY_VALUE, last.value);
      r := RowAt(h, keyValues[last.value].primary);
    }

    method PreviousFromRow(handle: int) returns (r: Outcome)
      requires Ready() && handle >= -1
      modifies caches
      ensures Ready()
      ensures (State(), r) == PreviousStep(old(State()), handle)
    {
      hide Invariant, CachesExtend, Valid, TablesUnique, RowsUnique, WithObject, MovedTo, IsLast, Below, Members;
      ghost var s := State();
      PreviousFromRowKeeps(s, handle);
      InvariantFacts(s, KEY_VALUE);
      if Lookup(s.caches[KEY_VALUE], handle).Some? {
        LiveHandle(s, KEY_VALUE, handle);
      }
      var keyValues := rows[KEY_VALUE];
      var found := caches[KEY_VALUE].Get(handle);
      if found.None? { return InvalidIterator; }
      var row := keyValues[found.value];
      var last := Last(keyValues, UpTo(keyValues, row.table, row.primary));
      if last.None? || keyValues[last.value].table != row.table { return Iterator(-1); }
      var h := AddHandle(KEY_VALUE, last.value);
      r := RowAt(h, keyValues[last.value].primary);
    }
  }

  lemma RemoveStepKeeps(s: Contracts, kind: nat, handle: int)
    requires Invariant(s) && kind < KINDS
    ensures Invariant(RemoveStep(s, kind, handle).0)
  {
    hide Invariant, CachesExtend;
    RemoveKeeps(s, ContractTables.Remove(kind, handle));
  }

  lemma InvariantFacts(s: Contracts, kind: nat)
    requires Invariant(s) && kind < KINDS
    ensures WellFormed(s) && Valid(s.caches[kind]) && RowsUnique(s.rows[kind])
  {
    assert CacheCovers(s.caches[kind], s.rows[kind]);
  }
}
