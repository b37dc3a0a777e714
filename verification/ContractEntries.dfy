/** The contract tables as their callers see them: entries under a code, a scope, a table name and a primary key, each
with its payer and its content.  Ids of tables and rows, counts and handle tables do not show in an entry.
 */
module ContractEntries {
  import opened IteratorCaches
  import opened ContractRows
  import opened ContractTables

  datatype Entry = Entry(place: Place, primary: nat, payer: nat, content: Content)

  function PlaceOf(t: Table): Place { Place(t.code, t.scope, t.name) }

  /** What a row of an existing table says. */
  ghost function EntryOf(tables: map<int, Table>, row: Row): Entry
    requires row.table in tables
  {
    Entry(PlaceOf(tables[row.table]), row.primary, row.payer, row.content)
  }

  /** All entries of one kind. */
  ghost function Entries(s: Contracts, kind: nat): set<Entry>
    requires |s.rows| == KINDS && kind < KINDS && NoOrphans(s)
  {
    set id | id in s.rows[kind] :: EntryOf(s.tables, s.rows[kind][id])
  }

  /** The places at which there is a table, with or without entries. */
  ghost function Places(s: Contracts): set<Place> {
    set t | t in s.tables :: PlaceOf(s.tables[t])
  }

  lemma ShapeFacts(s: Contracts)
    requires Invariant(s)
    ensures WellFormed(s) && |s.rows| == |s.caches| == KINDS && TablesUnique(s.tables) && NoOrphans(s)
  {
  }

  // ----- looking up a table -----

  /** The table found is the one with this code, this scope and this name, and none is found only if there is none. */
  lemma FindTableIs(tables: map<int, Table>, code: nat, scope: nat, name: nat)
    requires TablesUnique(tables)
    ensures var found := FindTable(tables, code, scope, name);
            && (forall t :: found == Some(t) <==>
                  t in tables && tables[t].code == code && tables[t].scope == scope && tables[t].name == name)
            && (found.None? <==>
                  forall t | t in tables :: tables[t].code != code || tables[t].scope != scope || tables[t].name != name)
  {
    forall t | t in tables && tables[t].code == code && tables[t].scope == scope && tables[t].name == name
      ensures FindTable(tables, code, scope, name) == Some(t)
    {
      assert Named(tables[t], code, scope, name);
    }
  }

  /** There is one table at most at a place. */
  lemma PlacesUnique(tables: map<int, Table>, a: int, b: int)
    requires TablesUnique(tables) && a in tables && b in tables
    ensures PlaceOf(tables[a]) == PlaceOf(tables[b]) <==> a == b
  {
    FindTableIs(tables, tables[a].code, tables[a].scope, tables[a].name);
  }

  /** A created table is at its place, without rows, and with the payer and the value given. */
  lemma CreatedTableIs(s: Contracts, p: Place, payer: nat, value: string, t: int)
    requires t !in s.tables
    ensures var s' := WithNewTable(s, p, payer, value, t);
            && s'.tables.Keys == s.tables.Keys + {t} && Places(s') == Places(s) + {p}
            && (forall u | u in s.tables :: s'.tables[u] == s.tables[u])
            && s'.tables[t].code == p.code && s'.tables[t].scope == p.scope && s'.tables[t].name == p.name
            && s'.tables[t].payer == payer && s'.tables[t].value == value && s'.tables[t].count == 0
  {
    var s' := WithNewTable(s, p, payer, value, t);
    assert Places(s') == Places(s) + {p} by {
      assert PlaceOf(s'.tables[t]) == p;
      assert forall u | u in s.tables :: u in s'.tables && s'.tables[u] == s.tables[u];
    }
  }

  /** A table created at one place is found there, and makes no difference to any other place. */
  lemma CreatedTableFound(s: Contracts, p: Place, q: Place, payer: nat, value: string, t: int)
    requires Invariant(s) && t !in s.tables && FindTable(s.tables, p.code, p.scope, p.name).None?
    ensures var s' := WithNewTable(s, p, payer, value, t);
            && WellFormed(s')
            && FindTable(s'.tables, q.code, q.scope, q.name)
            == if q == p then Some(t) else FindTable(s.tables, q.code, q.scope, q.name)
  {
    hide Invariant, RowsUnique, TablesUnique, FindTable, Places, WithNewTable;
    ShapeFacts(s);
    NewTableKeeps(s, p, payer, value, t);
    CreatedTableIs(s, p, payer, value, t);
    FindTableIs(s.tables, q.code, q.scope, q.name);
    FindTableIs(WithNewTable(s, p, payer, value, t).tables, q.code, q.scope, q.name);
  }

  /** find_or_create_table: the table of the place, created with payer and without a value if there was none. */
  lemma FindOrCreateIs(s: Contracts, place: Place, payer: nat, newTable: int)
    requires Invariant(s)
    ensures var (s', found) := FindOrCreate(s, place, payer, newTable);
            && (found.None? <==> place !in Places(s) && newTable in s.tables)
            && (found.None? ==> s' == s)
            && (found.Some? ==>
                  && found.value in s'.tables && PlaceOf(s'.tables[found.value]) == place
                  && Places(s') == Places(s) + {place}
                  && (place in Places(s) <==> found.value in s.tables)
                  && (place in Places(s) ==> s' == s)
                  && (place !in Places(s) ==>
                        && s'.tables[found.value].payer == payer && s'.tables[found.value].value == ""
                        && s'.tables[found.value].count == 0))
  {
    assert TablesUnique(s.tables);
    PlaceIsFound(s, place);
    if FindTable(s.tables, place.code, place.scope, place.name).None? && newTable !in s.tables {
      CreatedTableIs(s, place, payer, "", newTable);
    }
    hide Invariant, FindTable, TablesUnique, WithNewTable;
  }

  lemma PlaceIsFound(s: Contracts, place: Place)
    requires TablesUnique(s.tables)
    ensures var found := FindTable(s.tables, place.code, place.scope, place.name);
            && (found.Some? <==> place in Places(s))
            && (found.Some? ==> found.value in s.tables && PlaceOf(s.tables[found.value]) == place)
  {
    FindTableIs(s.tables, place.code, place.scope, place.name);
    hide FindTable, TablesUnique;
    if place in Places(s) {
      var t :| t in s.tables && PlaceOf(s.tables[t]) == place;
      assert FindTable(s.tables, place.code, place.scope, place.name) == Some(t);
    }
  }

  // ----- entries -----

  /** Within one kind, place and primary key tell entries apart. */
  lemma KeysApart(s: Contracts, kind: nat, a: int, b: int)
    requires Invariant(s) && kind < KINDS && a in s.rows[kind] && b in s.rows[kind]
    ensures var (x, y) := (EntryOf(s.tables, s.rows[kind][a]), EntryOf(s.tables, s.rows[kind][b]));
            x.place == y.place && x.primary == y.primary <==> a == b
  {
    PlacesUnique(s.tables, s.rows[kind][a].table, s.rows[kind][b].table);
    assert RowsUnique(s.rows[kind]);
    hide Invariant, TablesUnique, Named;
  }

  /** Rows that are not touched keep their entries as long as their tables keep their places. */
  lemma SameRowsSameEntries(s: Contracts, s': Contracts, k: nat)
    requires |s.rows| == |s'.rows| == KINDS && k < KINDS && NoOrphans(s) && NoOrphans(s') && s'.rows[k] == s.rows[k]
    requires forall t | t in s.tables && t in s'.tables :: PlaceOf(s'.tables[t]) == PlaceOf(s.tables[t])
    ensures Entries(s', k) == Entries(s, k)
  {
    forall id | id in s.rows[k]
      ensures EntryOf(s'.tables, s'.rows[k][id]) == EntryOf(s.tables, s.rows[k][id])
    {
    }
  }

  lemma InsertedEntry(s: Contracts, s': Contracts, k: nat, id: int, row: Row)
    requires |s.rows| == |s'.rows| == KINDS && k < KINDS && NoOrphans(s) && NoOrphans(s')
    requires id !in s.rows[k] && s'.rows[k] == s.rows[k][id := row]
    requires forall t | t in s.tables :: t in s'.tables && PlaceOf(s'.tables[t]) == PlaceOf(s.tables[t])
    ensures row.table in s'.tables && Entries(s', k) == Entries(s, k) + {EntryOf(s'.tables, row)}
  {
    assert id in s'.rows[k];
    forall other | other in s.rows[k]
      ensures other in s'.rows[k] && EntryOf(s'.tables, s'.rows[k][other]) == EntryOf(s.tables, s.rows[k][other])
    {
    }
    hide NoOrphans, EntryOf;
  }

  lemma RemovedEntry(s: Contracts, s': Contracts, k: nat, id: int)
    requires Invariant(s) && |s'.rows| == KINDS && k < KINDS && NoOrphans(s')
    requires id in s.rows[k] && s'.rows[k] == s.rows[k] - {id}
    requires forall t | t in s.tables && t in s'.tables :: PlaceOf(s'.tables[t]) == PlaceOf(s.tables[t])
    ensures Entries(s', k) == Entries(s, k) - {EntryOf(s.tables, s.rows[k][id])}
  {
    forall other | other in s'.rows[k]
      ensures EntryOf(s'.tables, s'.rows[k][other]) == EntryOf(s.tables, s.rows[k][other]) != EntryOf(s.tables, s.rows[k][id])
    {
      KeysApart(s, k, other, id);
    }
    assert NoOrphans(s);
    hide Invariant, EntryOf;
  }

  /** What a store needs: the table there or creatable, the row id free, and no entry under the key. */
  ghost predicate Storable(s: Contracts, op: Op)
    requires |s.rows| == KINDS && op.Store? && op.kind < KINDS && NoOrphans(s)
  {
    && (op.place in Places(s) || op.newTable !in s.tables)
    && op.id !in s.rows[op.kind]
    && forall e | e in Entries(s, op.kind) :: !(e.place == op.place && e.primary == op.primary)
  }

  lemma CanStoreIs(s: Contracts, mid: Contracts, op: Op, t: int)
    requires Invariant(s) && op.Store? && op.kind < KINDS && mid.rows == s.rows && TablesUnique(mid.tables)
    requires forall u | u in s.tables :: u in mid.tables && PlaceOf(mid.tables[u]) == PlaceOf(s.tables[u])
    requires t in mid.tables && PlaceOf(mid.tables[t]) == op.place
    ensures CanStore(s.rows[op.kind], op.id, Row(t, op.primary, op.payer, op.content)) <==>
              && op.id !in s.rows[op.kind]
              && forall e | e in Entries(s, op.kind) :: !(e.place == op.place && e.primary == op.primary)
  {
    var rows := s.rows[op.kind];
    assert NoOrphans(s);
    hide Invariant, TablesUnique;
    forall id | id in rows
      ensures var e := EntryOf(s.tables, rows[id]);
              e in Entries(s, op.kind) && (e.place == op.place <==> rows[id].table == t) && e.primary == rows[id].primary
    {
      PlacesUnique(mid.tables, rows[id].table, t);
    }
    if forall id | id in rows :: !(rows[id].table == t && rows[id].primary == op.primary) {
      forall e | e in Entries(s, op.kind)
        ensures !(e.place == op.place && e.primary == op.primary)
      {
        var id :| id in rows && e == EntryOf(s.tables, rows[id]);
      }
    }
  }

  lemma SamePlaces(s: Contracts, s': Contracts)
    requires s'.tables.Keys == s.tables.Keys
    requires forall t | t in s.tables :: PlaceOf(s'.tables[t]) == PlaceOf(s.tables[t])
    ensures Places(s') == Places(s)
  {
    hide PlaceOf;
  }

  /** Counting a row does not move a table. */
  lemma StoredTables(s: Contracts, op: Op)
    requires WellFormed(s) && op.Store? && op.kind < KINDS
    ensures var mid := FindOrCreate(s, op.place, op.payer, op.newTable).0;
            var s' := Step(s, op).0;
            && s'.tables.Keys == mid.tables.Keys
            && (forall t | t in mid.tables :: PlaceOf(s'.tables[t]) == PlaceOf(mid.tables[t]))
            && (forall t | t in s.tables :: t in mid.tables && PlaceOf(mid.tables[t]) == PlaceOf(s.tables[t]))
            && Places(s') == Places(mid)
  {
    hide CanStore, TablesUnique, RowsUnique, WithTable, WithObject, Places;
    var mid := FindOrCreate(s, op.place, op.payer, op.newTable).0;
    SamePlaces(mid, Step(s, op).0);
  }

  /** The row that a store adds, and when it does. */
  lemma StoreIs(s: Contracts, op: Op) returns (row: Row)
    requires Invariant(s) && op.Store? && Allowed(s, op)
    ensures WellFormed(s) && op.kind < KINDS
    ensures var (s', r) := Step(s, op);
            && |s.rows| == |s'.rows| == KINDS
            && Invariant(s') && (r.Iterator? || r.Thrown?) && (r.Iterator? <==> Storable(s, op))
            && (forall t | t in s.tables :: t in s'.tables && PlaceOf(s'.tables[t]) == PlaceOf(s.tables[t]))
            && NoOrphans(s) && NoOrphans(s') && (r.Thrown? ==> s'.rows == s.rows)
            && (r.Iterator? ==>
                  && op.id !in s.rows[op.kind] && s'.rows == s.rows[op.kind := s.rows[op.kind][op.id := row]] && row.table in s'.tables
                  && EntryOf(s'.tables, row) == Entry(op.place, op.primary, op.payer, op.content)
                  && Places(s') == Places(s) + {op.place})
  {
    StoreWithRoom(s, op);
    FindOrCreateIs(s, op.place, op.payer, op.newTable);
    StoredTables(s, op);
    StoreStepShape(s, op);
    var (mid, found) := FindOrCreate(s, op.place, op.payer, op.newTable);
    hide Invariant, FindOrCreate, CanStore, Places, PlaceOf, RowsUnique, WithTable, WithObject, Extends, Lookup;
    row := Row(if found.Some? then found.value else op.newTable, op.primary, op.payer, op.content);
    if found.Some? {
      CanStoreIs(s, mid, op, found.value);
    }
    hide Entries, EntryOf, TablesUnique;
  }

  /** A store adds the entry it is given, in its kind only; it throws exactly if that entry could not be added, and then
      leaves all entries as they were, though a table created for it stays. */
  lemma StoreAdds(s: Contracts, op: Op)
    requires Invariant(s) && op.Store? && Allowed(s, op)
    ensures var (s', r) := Step(s, op);
            && Invariant(s') && (r.Iterator? <==> Storable(s, op)) && (r.Iterator? || r.Thrown?)
            && (r.Iterator? ==>
                  && Entries(s', op.kind) == Entries(s, op.kind) + {Entry(op.place, op.primary, op.payer, op.content)}
                  && Places(s') == Places(s) + {op.place})
            && (forall k: nat | k < KINDS && (k != op.kind || r.Thrown?) :: Entries(s', k) == Entries(s, k))
  {
    hide Invariant, NoOrphans, Entries, EntryOf, Step, Places, PlaceOf, Storable, Allowed, WellFormed;
    var row := StoreIs(s, op);
    var (s', r) := Step(s, op);
    forall k: nat | k < KINDS && s'.rows[k] == s.rows[k]
      ensures Entries(s', k) == Entries(s, k)
    {
      SameRowsSameEntries(s, s', k);
    }
    if r.Iterator? {
      InsertedEntry(s, s', op.kind, op.id, row);
    }
  }

  /** An update through a live handle gives the entry behind it the new payer and content; all other entries of all
      kinds stay. */
  lemma UpdateChanges(s: Contracts, op: Op)
    requires Invariant(s) && op.Update? && Allowed(s, op) && Lookup(s.caches[op.kind], op.handle).Some?
    ensures var s' := Step(s, op).0;
            var id := Lookup(s.caches[op.kind], op.handle).value;
            && Invariant(s') && id in s.rows[op.kind] && Places(s') == Places(s)
            && (forall k: nat | k < KINDS && k != op.kind :: Entries(s', k) == Entries(s, k))
            && var e := EntryOf(s.tables, s.rows[op.kind][id]);
               Entries(s', op.kind) == Entries(s, op.kind) - {e} + {Entry(e.place, e.primary, op.payer, op.content)}
  {
    hide Invariant, NoOrphans, Entries, Step, PlaceOf, CachesExtend, WellFormed, TablesUnique, Places, Lookup;
    ShapeFacts(s);
    UpdateKeeps(s, op);
    var s' := Step(s, op).0;
    ShapeFacts(s');
    var id := Lookup(s.caches[op.kind], op.handle).value;
    var without := s.(rows := s.rows[op.kind := s.rows[op.kind] - {id}]);
    FewerRows(s, op.kind, id);
    RemovedEntry(s, without, op.kind, id);
    assert s'.rows[op.kind] == (s.rows[op.kind] - {id})[id := s'.rows[op.kind][id]];
    InsertedEntry(without, s', op.kind, id, s'.rows[op.kind][id]);
    SamePlaces(s, s');
    forall k: nat | k < KINDS && k != op.kind
      ensures Entries(s', k) == Entries(s, k)
    {
      SameRowsSameEntries(s, s', k);
    }
  }

  lemma FewerRows(s: Contracts, kind: nat, id: int)
    requires NoOrphans(s) && |s.rows| == KINDS && kind < KINDS
    ensures NoOrphans(s.(rows := s.rows[kind := s.rows[kind] - {id}]))
  {
  }

  /** No entry of any kind is at the place. */
  ghost predicate Vacant(s: Contracts, place: Place)
    requires |s.rows| == KINDS && NoOrphans(s)
  {
    forall k: nat, e | k < KINDS && e in Entries(s, k) :: e.place != place
  }

  /** A removal through a live handle takes away the entry behind it and no other.  The table goes with it exactly if the
      entry was a key-value row and no entry of any kind is left at its place. */
  lemma RemoveTakes(s: Contracts, op: Op)
    requires Invariant(s) && op.Remove? && Allowed(s, op) && Lookup(s.caches[op.kind], op.handle).Some?
    ensures var s' := Step(s, op).0;
            var id := Lookup(s.caches[op.kind], op.handle).value;
            && Invariant(s') && id in s.rows[op.kind]
            && var e := EntryOf(s.tables, s.rows[op.kind][id]);
               && Entries(s', op.kind) == Entries(s, op.kind) - {e}
               && (forall k: nat | k < KINDS && k != op.kind :: Entries(s', k) == Entries(s, k))
               && Places(s') == Places(s) - if op.kind == KEY_VALUE && Vacant(s', e.place) then {e.place} else {}
  {
    hide Invariant, NoOrphans, Entries, EntryOf, Step, PlaceOf, CachesExtend, WellFormed, TablesUnique, Places, Vacant,
      Lookup, GetTable, References;
    ShapeFacts(s);
    RemoveKeeps(s, op);
    LiveHandle(s, op.kind, op.handle);
    var id := Lookup(s.caches[op.kind], op.handle).value;
    var s' := Step(s, op).0;
    ShapeFacts(s');
    RemovedRows(s, op, id);
    RemovedEntry(s, s', op.kind, id);
    RemovedPlaces(s, op, id);
    PlaceOfEntry(s.tables, s.rows[op.kind][id]);
    forall k: nat | k < KINDS && k != op.kind
      ensures Entries(s', k) == Entries(s, k)
    {
      SameRowsSameEntries(s, s', k);
    }
  }

  lemma PlaceOfEntry(tables: map<int, Table>, row: Row)
    requires row.table in tables
    ensures EntryOf(tables, row).place == PlaceOf(tables[row.table])
  {
  }

  lemma CountSmall(s: Contracts, t: int)
    requires Invariant(s) && t in s.tables
    ensures s.tables[t].count == References(s.rows, t) < COUNT_LIMIT
  {
    assert Counted(s);
  }

  lemma RemovedRows(s: Contracts, op: Op, id: int)
    requires Invariant(s) && op.Remove? && Allowed(s, op) && Lookup(s.caches[op.kind], op.handle) == Some(id)
    requires id in s.rows[op.kind] && s.rows[op.kind][id].table in s.tables
    ensures var s' := Step(s, op).0;
            && s'.rows == s.rows[op.kind := s.rows[op.kind] - {id}]
            && (forall t | t in s'.tables :: t in s.tables && PlaceOf(s'.tables[t]) == PlaceOf(s.tables[t]))
            && (forall t | t in s.tables && t != s.rows[op.kind][id].table :: t in s'.tables)
            && (s.rows[op.kind][id].table !in s'.tables <==>
                  op.kind == KEY_VALUE && References(s'.rows, s.rows[op.kind][id].table) == 0)
  {
    hide Invariant, References, Drop, Lookup, WellFormed, Step, GetTable, CachesExtend;
    ShapeFacts(s);
    LiveHandle(s, op.kind, op.handle);
    CountSmall(s, s.rows[op.kind][id].table);
    RemoveStepShape(s, op, id);
    WithoutRowKeeps(s, op.kind, op.handle, id);
    CountSmall(WithoutRow(s, op.kind, op.handle, id), s.rows[op.kind][id].table);
  }

  lemma RemovedPlaces(s: Contracts, op: Op, id: int)
    requires Invariant(s) && op.Remove? && Allowed(s, op) && Lookup(s.caches[op.kind], op.handle) == Some(id)
    requires id in s.rows[op.kind] && s.rows[op.kind][id].table in s.tables && Invariant(Step(s, op).0)
    ensures var s' := Step(s, op).0;
            var place := PlaceOf(s.tables[s.rows[op.kind][id].table]);
            Places(s') == Places(s) - if op.kind == KEY_VALUE && Vacant(s', place) then {place} else {}
  {
    hide Invariant, Step, Vacant, References, PlaceOf, Lookup, NoOrphans, WellFormed, TablesUnique;
    ShapeFacts(s);
    RemovedRows(s, op, id);
    var s', t := Step(s, op).0, s.rows[op.kind][id].table;
    ShapeFacts(s');
    var place := PlaceOf(s.tables[t]);
    VacantIs(s, s', t);
    forall u | u in s.tables
      ensures PlaceOf(s.tables[u]) == place <==> u == t
    {
      PlacesUnique(s.tables, u, t);
    }
    PlacesWithout(s, s', t);
  }

  lemma PlacesWithout(s: Contracts, s': Contracts, t: int)
    requires t in s.tables && forall u | u in s.tables :: PlaceOf(s.tables[u]) == PlaceOf(s.tables[t]) <==> u == t
    requires forall u | u in s'.tables :: u in s.tables && PlaceOf(s'.tables[u]) == PlaceOf(s.tables[u])
    requires forall u | u in s.tables && u != t :: u in s'.tables
    ensures Places(s') == Places(s) - if t in s'.tables then {} else {PlaceOf(s.tables[t])}
  {
    hide PlaceOf;
    forall u | u in s.tables && u in s'.tables
      ensures PlaceOf(s.tables[u]) in Places(s')
    {
      assert PlaceOf(s'.tables[u]) == PlaceOf(s.tables[u]);
    }
  }

  lemma VacantIs(s: Contracts, s': Contracts, t: int)
    requires Invariant(s) && t in s.tables && |s'.rows| == KINDS && NoOrphans(s')
    requires forall u | u in s'.tables :: u in s.tables && PlaceOf(s'.tables[u]) == PlaceOf(s.tables[u])
    ensures Vacant(s', PlaceOf(s.tables[t])) <==> References(s'.rows, t) == 0
  {
    NoReferences(s'.rows, t);
    forall k: nat, id | k < KINDS && id in s'.rows[k]
      ensures var e := EntryOf(s'.tables, s'.rows[k][id]);
              e in Entries(s', k) && (e.place == PlaceOf(s.tables[t]) <==> s'.rows[k][id].table == t)
    {
      PlacesUnique(s.tables, s'.rows[k][id].table, t);
    }
    hide Invariant, References, PlaceOf;
  }

  /** Creating a table with a value of its own succeeds exactly if its place and its id are free; it adds no entry. */
  lemma StoreByScopeCreates(s: Contracts, op: Op)
    requires Invariant(s) && op.StoreByScope? && Allowed(s, op)
    ensures var (s', r) := Step(s, op);
            && Invariant(s') && (r.TableCreated? <==> op.place !in Places(s) && op.newTable !in s.tables)
            && (r.TableCreated? ==>
                  && r.table == op.newTable && Places(s') == Places(s) + {op.place} && op.newTable in s'.tables
                  && PlaceOf(s'.tables[op.newTable]) == op.place
                  && s'.tables[op.newTable].payer == op.payer && s'.tables[op.newTable].value == op.value)
            && (!r.TableCreated? ==> r == Thrown && s' == s)
            && forall k: nat | k < KINDS :: Entries(s', k) == Entries(s, k)
  {
    StoreByScopeKeeps(s, op);
    assert TablesUnique(s.tables);
    PlaceIsFound(s, op.place);
    var (s', r) := Step(s, op);
    assert NoOrphans(s) && NoOrphans(s') && |s.rows| == |s'.rows| == KINDS;
    if op.newTable !in s.tables && FindTable(s.tables, op.place.code, op.place.scope, op.place.name).None? {
      CreatedTableIs(s, op.place, op.payer, op.value, op.newTable);
    }
    hide Invariant, NoOrphans, Entries, TablesUnique, FindTable, WellFormed, Allowed, Places;
    forall k: nat | k < KINDS
      ensures Entries(s', k) == Entries(s, k)
    {
      SameRowsSameEntries(s, s', k);
    }
  }

  /** The primary keys that a search is for. */
  predicate Sought(primary: nat, search: Search) {
    match search
    case Exact(key) => primary == key
    case LowerBound(key) => key <= primary
    case UpperBound(key) => key < primary
    case End => false
  }

  /** A search gives -1 exactly if there is no table at the place, an end iterator if none of the entries there has a
      key that is sought, and otherwise a handle of the entry with the least such key. */
  lemma SeekFinds(s: Contracts, place: Place, search: Search)
    requires Invariant(s)
    ensures var (s', r) := SeekStep(s, place, search);
            && Invariant(s') && Entries(s', KEY_VALUE) == Entries(s, KEY_VALUE) && r.Iterator?
            && (r.handle == -1 <==> place !in Places(s))
            && (r.handle < 0 ==> forall e | e in Entries(s, KEY_VALUE) && e.place == place :: !Sought(e.primary, search))
            && (r.handle >= 0 ==>
                  && Lookup(s'.caches[KEY_VALUE], r.handle).Some?
                  && var id := Lookup(s'.caches[KEY_VALUE], r.handle).value;
                     && id in s.rows[KEY_VALUE]
                     && var found := EntryOf(s.tables, s.rows[KEY_VALUE][id]);
                        && found.place == place && Sought(found.primary, search)
                        && forall e | e in Entries(s, KEY_VALUE) && e.place == place && Sought(e.primary, search) ::
                             found.primary <= e.primary)
  {
    hide Invariant, SeekStep, FindTable, TablesUnique, PlaceOf, Places, NoOrphans, Entries, WellFormed, CursorMoved;
    ShapeFacts(s);
    SeekKeeps(s, place, search);
    PlaceIsFound(s, place);
    var (s', r) := SeekStep(s, place, search);
    SeekCaches(s, place, search);
    MovedEntries(s, s');
    var found := FindTable(s.tables, place.code, place.scope, place.name);
    if found.Some? {
      MatchesAre(s, place, found.value, search);
    } else {
      NoEntriesAt(s, place);
    }
  }

  lemma SeekCaches(s: Contracts, place: Place, search: Search)
    requires WellFormed(s)
    ensures |SeekStep(s, place, search).0.caches| == KINDS
  {
    hide FindTable, First, Candidates, WithTable, WithObject;
  }

  lemma MovedEntries(s: Contracts, s': Contracts)
    requires Invariant(s) && |s'.caches| == KINDS && CursorMoved(s', s)
    ensures Invariant(s') && |s'.rows| == KINDS && NoOrphans(s') && Entries(s', KEY_VALUE) == Entries(s, KEY_VALUE)
    ensures s'.rows == s.rows && s'.tables == s.tables
  {
    SameRowsSameEntries(s, s', KEY_VALUE);
  }

  lemma NoEntriesAt(s: Contracts, place: Place)
    requires |s.rows| == KINDS && NoOrphans(s) && place !in Places(s)
    ensures forall e | e in Entries(s, KEY_VALUE) :: e.place != place
  {
  }

  /** The matching rows of a table are the entries at its place whose keys are sought. */
  lemma MatchesAre(s: Contracts, place: Place, t: int, search: Search)
    requires |s.rows| == KINDS && NoOrphans(s) && TablesUnique(s.tables)
    requires t in s.tables && PlaceOf(s.tables[t]) == place
    ensures var rows, matches := s.rows[KEY_VALUE], Matches(s.rows[KEY_VALUE], t, search);
            && matches <= rows.Keys
            && (forall id | id in matches :: var e := EntryOf(s.tables, rows[id]); e.place == place && Sought(e.primary, search))
            && (forall e | e in Entries(s, KEY_VALUE) && e.place == place && Sought(e.primary, search) ::
                  exists id :: id in matches && e == EntryOf(s.tables, rows[id]))
  {
    var rows, matches := s.rows[KEY_VALUE], Matches(s.rows[KEY_VALUE], t, search);
    hide TablesUnique, PlaceOf;
    forall e | e in Entries(s, KEY_VALUE) && e.place == place && Sought(e.primary, search)
      ensures exists id :: id in matches && e == EntryOf(s.tables, rows[id])
    {
      var id :| id in rows && e == EntryOf(s.tables, rows[id]);
      PlacesUnique(s.tables, rows[id].table, t);
      assert id in matches;
    }
  }

  // ----- what a handle stands for -----

  /** Tables stay where they are, and rows keep table and primary key, for as long as they are there. */
  ghost predicate KeysStay(s: Contracts, s': Contracts)
    requires |s.rows| == |s'.rows| == KINDS
  {
    && (forall t | t in s.tables && t in s'.tables :: PlaceOf(s'.tables[t]) == PlaceOf(s.tables[t]))
    && (forall k: nat, id | k < KINDS && id in s.rows[k] && id in s'.rows[k] ::
          s'.rows[k][id].table == s.rows[k][id].table && s'.rows[k][id].primary == s.rows[k][id].primary)
  }

  lemma StepKeepsKeys(s: Contracts, op: Op)
    requires Invariant(s) && Allowed(s, op) && |Step(s, op).0.rows| == KINDS
    ensures KeysStay(s, Step(s, op).0)
  {
    hide Invariant, Entries, EntryOf, Step, PlaceOf, CachesExtend, WellFormed, TablesUnique, Places, Lookup, References,
      GetTable, FreshTable, HasRoom, NoOrphans, SeekStep, NextStep, PreviousStep;
    ShapeFacts(s);
    var s' := Step(s, op).0;
    match op
    case Store(_, _, _, _, _, _, _) => var row := StoreIs(s, op);
    case Update(_, _, _, _) => UpdateKeeps(s, op);
    case Remove(kind, handle) =>
      RemoveKeeps(s, op);
      if Lookup(s.caches[kind], handle).Some? {
        LiveHandle(s, kind, handle);
        RemovedRows(s, op, Lookup(s.caches[kind], handle).value);
      } else {
        NothingRemoved(s, op);
      }
    case StoreByScope(_, _, _, _) =>
      StoreByScopeKeeps(s, op);
      ScopeTables(s, op);
    case _ => CursorKeepsTables(s, op);
  }

  lemma NothingRemoved(s: Contracts, op: Op)
    requires WellFormed(s) && op.Remove? && op.kind < KINDS && Lookup(s.caches[op.kind], op.handle).None?
    ensures Step(s, op).0 == s
  {
  }

  lemma ScopeTables(s: Contracts, op: Op)
    requires WellFormed(s) && op.StoreByScope?
    ensures forall t | t in s.tables :: t in Step(s, op).0.tables && Step(s, op).0.tables[t] == s.tables[t]
  {
    hide TablesUnique, RowsUnique, FindTable;
  }

  lemma CursorKeepsTables(s: Contracts, op: Op)
    requires WellFormed(s) && (op.Seek? || op.Next? || op.Previous?)
    ensures Step(s, op).0.tables == s.tables && Step(s, op).0.rows == s.rows
  {
    hide TablesUnique, RowsUnique, FindTable, First, Last, WithTable, WithObject, Candidates;
  }

  /** The handle is live, and the row behind it has this primary key in the table at this place. */
  ghost predicate StandsFor(s: Contracts, kind: nat, handle: int, place: Place, primary: nat)
    requires |s.rows| == |s.caches| == KINDS && kind < KINDS
  {
    match Lookup(s.caches[kind], handle)
    case None => false
    case Some(id) =>
      && id in s.rows[kind] && s.rows[kind][id].table in s.tables
      && PlaceOf(s.tables[s.rows[kind][id].table]) == place && s.rows[kind][id].primary == primary
  }

  /** Every live handle stands for something. */
  lemma LiveStandsFor(s: Contracts, kind: nat, handle: int)
    requires Invariant(s) && kind < KINDS && Lookup(s.caches[kind], handle).Some?
    ensures exists place, primary :: StandsFor(s, kind, handle, place, primary)
  {
    LiveHandle(s, kind, handle);
    var row := s.rows[kind][Lookup(s.caches[kind], handle).value];
    hide Invariant, Lookup, PlaceOf;
    assert StandsFor(s, kind, handle, PlaceOf(s.tables[row.table]), row.primary);
  }

  /** Through every run a live handle stands for the same place and the same primary key, or for nothing. */
  lemma {:induction false} HandleKeepsKey(s: Contracts, ops: seq<Op>, kind: nat, handle: int, place: Place, primary: nat)
    requires Invariant(s) && AllAllowed(s, ops) && kind < KINDS && StandsFor(s, kind, handle, place, primary)
    ensures var s' := Run(s, ops);
            Invariant(s') && (Lookup(s'.caches[kind], handle).None? || StandsFor(s', kind, handle, place, primary))
    decreases |ops|
  {
    hide Invariant, Step, CachesExtend, WellFormed, TablesUnique, Places, GetTable, NoOrphans, PlaceOf;
    ShapeFacts(s);
    if ops != [] {
      StepKeeps(s, ops[0]);
      var t := Step(s, ops[0]).0;
      ShapeFacts(t);
      StepKeepsKeys(s, ops[0]);
      HandleStays(s, t, kind, handle);
      if Lookup(t.caches[kind], handle).Some? {
        LiveHandle(t, kind, handle);
        HandleKeepsKey(t, ops[1..], kind, handle, place, primary);
      } else {
        RunKeeps(t, ops[1..]);
        ShapeFacts(Run(t, ops[1..]));
        HandleStays(t, Run(t, ops[1..]), kind, handle);
      }
    }
  }

  /** What no longer denotes a row never does again. */
  lemma HandleStays(s: Contracts, later: Contracts, kind: nat, handle: int)
    requires Invariant(s) && |s.caches| == |later.caches| == KINDS && CachesExtend(later, s) && kind < KINDS
    requires 0 <= handle < |s.caches[kind].objects|
    ensures Lookup(later.caches[kind], handle) == Lookup(s.caches[kind], handle) || Lookup(later.caches[kind], handle).None?
    ensures handle < |later.caches[kind].objects|
  {
    assert Extends(later.caches[kind], s.caches[kind]);
  }
}
