/** The contract tables: table rows that count what refers to them, and four kinds of rows that refer to them.

Kind 0 holds the key-value rows, kinds 1 to 3 the rows of the three secondary indices.  Each kind has its own
handle table.  Ids of tables and secondary rows are not assigned by the database, so operations that create one
take the id as an argument and throw when it clashes.

A handle table keeps pointers to table objects.  Deleting a table leaves them behind, so every table object has a
number of its own, and an operation that would follow a pointer to a deleted one says so.
 */
module ContractTables {
  import opened IteratorCaches
  import opened ContractRows

  datatype Table = Table(code: nat, scope: nat, name: nat, payer: nat, count: nat, value: string, instance: nat)

  /** `created` is the number of table objects created so far; it numbers the next one. */
  datatype Contracts = Contracts(tables: map<int, Table>, rows: seq<Rows>, caches: seq<Cache>, created: nat)

  const KINDS := 4
  const KEY_VALUE := 0
  const COUNT_LIMIT := 0x1_0000_0000

  /** What an operation returns: a handle or iterator, also with the primary key of the row it denotes, a new
      table, a failed assert, a pointer to a deleted table that is followed, or a thrown uniqueness violation. */
  datatype Outcome =
    | Iterator(handle: int)
    | RowAt(handle: int, primary: nat)
    | TableCreated(table: int)
    | InvalidIterator
    | TableNotCached
    | DanglingTable
    | Thrown

  predicate Named(t: Table, code: nat, scope: nat, name: nat) {
    t.code == code && t.scope == scope && t.name == name
  }

  /** Table names are unique. */
  ghost predicate TablesUnique(tables: map<int, Table>) {
    forall a, b | a in tables && b in tables && Named(tables[a], tables[b].code, tables[b].scope, tables[b].name) :: a == b
  }

  function FindTable(tables: map<int, Table>, code: nat, scope: nat, name: nat): (found: Option<int>)
    requires TablesUnique(tables)
    ensures found.Some? ==> found.value in tables && Named(tables[found.value], code, scope, name)
    ensures found.None? ==> forall t | t in tables :: !Named(tables[t], code, scope, name)
  {
    if exists t :: t in tables && Named(tables[t], code, scope, name) then
      var t :| t in tables && Named(tables[t], code, scope, name);
      Some(t)
    else None
  }

  // ----- operations -----

  datatype Place = Place(code: nat, scope: nat, name: nat)

  datatype Op =
    | Store(kind: nat, place: Place, payer: nat, primary: nat, id: int, content: Content, newTable: int)
    | Update(kind: nat, handle: int, payer: nat, content: Content)
    | Remove(kind: nat, handle: int)
    | StoreByScope(place: Place, payer: nat, value: string, newTable: int)
    | Seek(place: Place, search: Search)
    | Next(handle: int)
    | Previous(handle: int)

  /** What a search of a table looks for: the row with a key, the first row at or after it, the first row after
      it, or nothing (just the end iterator). */
  datatype Search = Exact(primary: nat) | LowerBound(primary: nat) | UpperBound(primary: nat) | End

  /** The rows of the whole index that a search would accept, the first of which it finds. */
  function Candidates(rows: Rows, t: int, search: Search): (ids: set<int>)
    ensures ids <= rows.Keys
  {
    match search
    case Exact(primary) => set id | id in rows && rows[id].table == t && rows[id].primary == primary
    case LowerBound(primary) => From(rows, t, primary)
    case UpperBound(primary) => After(rows, t, primary)
    case End => {}
  }

  function PointerTo(tables: map<int, Table>, t: int): TablePointer
    requires t in tables
  {
    TablePointer(t, tables[t].instance)
  }

  /** The object that the pointer was taken of is still there. */
  predicate Alive(tables: map<int, Table>, p: TablePointer) {
    p.id in tables && tables[p.id].instance == p.instance
  }

  function NewTable(place: Place, payer: nat, value: string, instance: nat): Table {
    Table(place.code, place.scope, place.name, payer, 0, value, instance)
  }

  /** The state after a table was created. */
  function WithNewTable(s: Contracts, place: Place, payer: nat, value: string, t: int): Contracts {
    s.(tables := s.tables[t := NewTable(place, payer, value, s.created)], created := s.created + 1)
  }

  /** The state after find_or_create_table and the table's id; none if creating it throws. */
  function FindOrCreate(s: Contracts, place: Place, payer: nat, newTable: int): (Contracts, Option<int>)
    requires TablesUnique(s.tables)
  {
    match FindTable(s.tables, place.code, place.scope, place.name)
    case Some(t) => (s, Some(t))
    case None =>
      if newTable in s.tables then (s, None)
      else (WithNewTable(s, place, payer, "", newTable), Some(newTable))
  }

  /** Stores a row, counts it in its table, and returns its handle.  When the row is refused, a table created
      for it stays behind, without rows. */
  function StoreStep(s: Contracts, kind: nat, place: Place, payer: nat, primary: nat, id: int, content: Content, newTable: int)
    : (Contracts, Outcome)
    requires WellFormed(s) && kind < KINDS
  {
    var (mid, found) := FindOrCreate(s, place, payer, newTable);
    match found
    case None => (s, Thrown)
    case Some(t) =>
      var row := Row(t, primary, payer, content);
      if !CanStore(s.rows[kind], id, row) then (mid, Thrown)
      else
        var (c1, _) := WithTable(s.caches[kind], PointerTo(mid.tables, t));
        var (c2, handle) := WithObject(c1, id);
        (Contracts(mid.tables[t := mid.tables[t].(count := (mid.tables[t].count + 1) % COUNT_LIMIT)],
                   s.rows[kind := s.rows[kind][id := row]], s.caches[kind := c2], mid.created),
         Iterator(handle))
  }

  /** Replaces payer and content of the row behind a handle. */
  function UpdateStep(s: Contracts, kind: nat, handle: int, payer: nat, content: Content): (Contracts, Outcome)
    requires WellFormed(s) && kind < KINDS
  {
    match Lookup(s.caches[kind], handle)
    case None => (s, InvalidIterator)
    case Some(id) =>
      if id !in s.rows[kind] then (s, InvalidIterator)
      else if kind != KEY_VALUE && s.rows[kind][id].table !in s.caches[kind].tableCache then (s, TableNotCached)
      else
        (s.(rows := s.rows[kind := s.rows[kind][id := s.rows[kind][id].(payer := payer, content := content)]]),
         Iterator(handle))
  }

  /** Removes the row behind a handle.  Only removing a key-value row deletes a table whose count is then 0. */
  function RemoveStep(s: Contracts, kind: nat, handle: int): (Contracts, Outcome)
    requires WellFormed(s) && kind < KINDS
  {
    match Lookup(s.caches[kind], handle)
    case None => (s, InvalidIterator)
    case Some(id) =>
      if id !in s.rows[kind] then (s, InvalidIterator)
      else
        var t := s.rows[kind][id].table;
        if t !in s.caches[kind].tableCache then (s, TableNotCached)
        else if !Alive(s.tables, GetTable(s.caches[kind], t)) then (s, DanglingTable)
        else
          var count := (s.tables[t].count + COUNT_LIMIT - 1) % COUNT_LIMIT;
          (Contracts(
             if kind == KEY_VALUE && count == 0 then s.tables - {t} else s.tables[t := s.tables[t].(count := count)],
             s.rows[kind := s.rows[kind] - {id}],
             s.caches[kind := Drop(s.caches[kind], handle)],
             s.created),
           Iterator(handle))
  }

  /** Creates a table row without any rows in it. */
  function StoreByScopeStep(s: Contracts, place: Place, payer: nat, value: string, newTable: int): (Contracts, Outcome)
    requires WellFormed(s)
  {
    if newTable in s.tables || FindTable(s.tables, place.code, place.scope, place.name).Some? then (s, Thrown)
    else (WithNewTable(s, place, payer, value, newTable), TableCreated(newTable))
  }

  /** The handle of the row that an index search of a table found, or the table's end iterator if it found
      nothing or a row of another table; -1 if there is no such table. */
  function SeekStep(s: Contracts, place: Place, search: Search): (Contracts, Outcome)
    requires WellFormed(s)
  {
    match FindTable(s.tables, place.code, place.scope, place.name)
    case None => (s, Iterator(-1))
    case Some(t) =>
      var (c, end) := WithTable(s.caches[KEY_VALUE], PointerTo(s.tables, t));
      match First(s.rows[KEY_VALUE], Candidates(s.rows[KEY_VALUE], t, search))
      case None => (s.(caches := s.caches[KEY_VALUE := c]), Iterator(end))
      case Some(id) =>
        if s.rows[KEY_VALUE][id].table != t then (s.(caches := s.caches[KEY_VALUE := c]), Iterator(end))
        else
          var (c2, handle) := WithObject(c, id);
          (s.(caches := s.caches[KEY_VALUE := c2]), Iterator(handle))
  }

  /** Hands out the handle of a row that a cursor moved to. */
  function Visit(s: Contracts, id: int): (Contracts, Outcome)
    requires WellFormed(s) && id in s.rows[KEY_VALUE]
  {
    var (c, handle) := WithObject(s.caches[KEY_VALUE], id);
    (s.(caches := s.caches[KEY_VALUE := c]), RowAt(handle, s.rows[KEY_VALUE][id].primary))
  }

  /** Moves a cursor forward: to the next row of its table, or to the table's end iterator. */
  function NextStep(s: Contracts, handle: int): (Contracts, Outcome)
    requires WellFormed(s)
  {
    var rows, cache := s.rows[KEY_VALUE], s.caches[KEY_VALUE];
    if handle < -1 then (s, Iterator(-1))
    else match Lookup(cache, handle)
    case None => (s, InvalidIterator)
    case Some(id) =>
      if id !in rows then (s, InvalidIterator)
      else
        var next := First(rows, After(rows, rows[id].table, rows[id].primary));
        if next.None? || rows[next.value].table != rows[id].table then
          if rows[id].table !in cache.tableCache then (s, TableNotCached)
          else (s, Iterator(cache.tableCache[rows[id].table].end))
        else Visit(s, next.value)
  }

  /** Moves a cursor back: from the end iterator to the last row of the table, from a row to the row before it;
      -1 if there is none. */
  function PreviousStep(s: Contracts, handle: int): (Contracts, Outcome)
    requires WellFormed(s)
  {
    var rows, cache := s.rows[KEY_VALUE], s.caches[KEY_VALUE];
    if handle < -1 then
      match FindTableByEnd(cache, handle)
      case None => (s, InvalidIterator)
      case Some(t) =>
        if !Alive(s.tables, t) then (s, DanglingTable)
        else
          var last := Last(rows, UpTo(rows, t.id + 1, 0));
          if last.None? || rows[last.value].table != t.id then (s, Iterator(-1)) else Visit(s, last.value)
    else
      match Lookup(cache, handle)
      case None => (s, InvalidIterator)
      case Some(id) =>
        if id !in rows then (s, InvalidIterator)
        else
          var last := Last(rows, UpTo(rows, rows[id].table, rows[id].primary));
          if last.None? || rows[last.value].table != rows[id].table then (s, Iterator(-1)) else Visit(s, last.value)
  }

  function Step(s: Contracts, op: Op): (Contracts, Outcome)
    requires WellFormed(s) && KindOf(op) < KINDS
  {
    match op
    case Store(kind, place, payer, primary, id, content, newTable) =>
      StoreStep(s, kind, place, payer, primary, id, content, newTable)
    case Update(kind, handle, payer, content) => UpdateStep(s, kind, handle, payer, content)
    case Remove(kind, handle) => RemoveStep(s, kind, handle)
    case StoreByScope(place, payer, value, newTable) => StoreByScopeStep(s, place, payer, value, newTable)
    case Seek(place, search) => SeekStep(s, place, search)
    case Next(handle) => NextStep(s, handle)
    case Previous(handle) => PreviousStep(s, handle)
  }

  function KindOf(op: Op): nat {
    match op
    case Store(kind, _, _, _, _, _, _) => kind
    case Update(kind, _, _, _) => kind
    case Remove(kind, _) => kind
    case _ => KEY_VALUE
  }

  // ----- invariants -----

  ghost predicate WellFormed(s: Contracts) {
    && |s.rows| == KINDS && |s.caches| == KINDS
    && TablesUnique(s.tables)
    && forall k: nat | k < KINDS :: RowsUnique(s.rows[k])
  }

  /** The ids of one kind's rows that belong to a table. */
  ghost function Members(rows: Rows, t: int): set<int> {
    set id | id in rows && rows[id].table == t
  }

  /** The number of rows of all four kinds that belong to a table. */
  ghost function References(rows: seq<Rows>, t: int): nat
    requires |rows| == KINDS
  {
    |Members(rows[0], t)| + |Members(rows[1], t)| + |Members(rows[2], t)| + |Members(rows[3], t)|
  }

  /** Every table counts exactly the rows that refer to it. */
  ghost predicate Counted(s: Contracts)
    requires |s.rows| == KINDS
  {
    forall t | t in s.tables :: s.tables[t].count == References(s.rows, t) < COUNT_LIMIT
  }

  /** Every row's table is there. */
  ghost predicate NoOrphans(s: Contracts) {
    forall k: nat, id | k < |s.rows| && id in s.rows[k] :: s.rows[k][id].table in s.tables
  }

  /** Handles denote live rows, and the tables of those rows are cached. */
  ghost predicate CacheCovers(c: Cache, rows: Rows) {
    && Valid(c)
    && forall id | id in c.handles :: id in rows && rows[id].table in c.tableCache
  }

  /** Objects are numbered in the order in which they were created. */
  ghost predicate Numbered(tables: map<int, Table>, created: nat) {
    forall t | t in tables :: tables[t].instance < created
  }

  /** Wherever a table id is cached and a table has that id, the cached pointer is to this table. */
  ghost predicate PointersAlive(c: Cache, tables: map<int, Table>, created: nat) {
    forall t | t in c.tableCache ::
      c.tableCache[t].instance < created && (t in tables ==> c.tableCache[t].instance == tables[t].instance)
  }

  ghost predicate Invariant(s: Contracts) {
    && WellFormed(s)
    && Counted(s)
    && NoOrphans(s)
    && Numbered(s.tables, s.created)
    && (forall k: nat | k < KINDS :: CacheCovers(s.caches[k], s.rows[k]))
    && (forall k: nat | k < KINDS :: PointersAlive(s.caches[k], s.tables, s.created))
  }

  /** No handle table has cached the id. */
  ghost predicate Unseen(s: Contracts, t: int)
    requires |s.caches| == KINDS
  {
    forall k: nat | k < KINDS :: t !in s.caches[k].tableCache
  }

  /** If the table is created now, under an id that is free, no handle table knows the id from a deleted table. */
  ghost predicate FreshTable(s: Contracts, place: Place, newTable: int)
    requires WellFormed(s)
  {
    FindTable(s.tables, place.code, place.scope, place.name).None? && newTable !in s.tables ==> Unseen(s, newTable)
  }

  /** The row to be stored, if it is accepted, is not the 2^32nd of its table, whose count would wrap to 0. */
  ghost predicate HasRoom(s: Contracts, op: Op)
    requires WellFormed(s) && op.Store? && op.kind < KINDS
  {
    match FindTable(s.tables, op.place.code, op.place.scope, op.place.name)
    case None => true
    case Some(t) =>
      CanStore(s.rows[op.kind], op.id, Row(t, op.primary, op.payer, op.content)) ==> s.tables[t].count + 1 < COUNT_LIMIT
  }

  /** What the runs are restricted to: key-value rows are stored under their primary key, as db_store_i64 does, no
      table comes to hold 2^32 rows, and no table is created under an id that a handle table still caches. */
  ghost predicate Allowed(s: Contracts, op: Op)
    requires WellFormed(s)
  {
    && KindOf(op) < KINDS
    && (op.Store? && op.kind == KEY_VALUE ==> op.id == op.primary)
    && (op.Store? ==> HasRoom(s, op) && FreshTable(s, op.place, op.newTable))
    && (op.StoreByScope? ==> FreshTable(s, op.place, op.newTable))
  }

  // ----- counting -----

  lemma MembersInsert(rows: Rows, id: int, row: Row, t: int)
    requires id !in rows
    ensures |Members(rows[id := row], t)| == |Members(rows, t)| + if row.table == t then 1 else 0
  {
    var after := Members(rows[id := row], t);
    if row.table == t {
      assert after == Members(rows, t) + {id};
    } else {
      assert after == Members(rows, t);
    }
  }

  lemma MembersRemove(rows: Rows, id: int, t: int)
    requires id in rows
    ensures |Members(rows - {id}, t)| == |Members(rows, t)| - if rows[id].table == t then 1 else 0
  {
    MembersInsert(rows - {id}, id, rows[id], t);
    assert (rows - {id})[id := rows[id]] == rows;
  }

  lemma MembersUpdate(rows: Rows, id: int, row: Row, t: int)
    requires id in rows && row.table == rows[id].table
    ensures Members(rows[id := row], t) == Members(rows, t)
  {
  }

  lemma ReferencesInsert(rows: seq<Rows>, kind: nat, id: int, row: Row, t: int)
    requires |rows| == KINDS && kind < KINDS && id !in rows[kind]
    ensures References(rows[kind := rows[kind][id := row]], t) == References(rows, t) + if row.table == t then 1 else 0
  {
    MembersInsert(rows[kind], id, row, t);
  }

  lemma ReferencesRemove(rows: seq<Rows>, kind: nat, id: int, t: int)
    requires |rows| == KINDS && kind < KINDS && id in rows[kind]
    ensures References(rows[kind := rows[kind] - {id}], t) == References(rows, t) - if rows[kind][id].table == t then 1 else 0
  {
    MembersRemove(rows[kind], id, t);
  }

  lemma ReferencesUpdate(rows: seq<Rows>, kind: nat, id: int, row: Row, t: int)
    requires |rows| == KINDS && kind < KINDS && id in rows[kind] && row.table == rows[kind][id].table
    ensures References(rows[kind := rows[kind][id := row]], t) == References(rows, t)
  {
    MembersUpdate(rows[kind], id, row, t);
  }

  /** Nothing refers to a table with no references. */
  lemma NoReferences(rows: seq<Rows>, t: int)
    requires |rows| == KINDS
    ensures References(rows, t) == 0 <==> forall k: nat, id | k < KINDS && id in rows[k] :: rows[k][id].table != t
  {
    forall k: nat, id | k < KINDS && id in rows[k] && rows[k][id].table == t
      ensures References(rows, t) > 0
    {
      assert id in Members(rows[k], t);
    }
    if forall k: nat, id | k < KINDS && id in rows[k] :: rows[k][id].table != t {
      forall k: nat | k < KINDS
        ensures Members(rows[k], t) == {}
      {
      }
      assert Members(rows[0], t) == {} && Members(rows[1], t) == {} && Members(rows[2], t) == {} && Members(rows[3], t) == {};
    }
  }

  /** A table that nobody cached or referred to has no rows. */
  lemma FreshTableUnreferenced(s: Contracts, t: int)
    requires Invariant(s) && t !in s.tables
    ensures References(s.rows, t) == 0
  {
    NoReferences(s.rows, t);
  }

  // ----- every operation keeps the invariant -----

  /** The end iterators and live handles of all kinds survive. */
  ghost predicate CachesExtend(later: Contracts, s: Contracts)
    requires |s.caches| == |later.caches| == KINDS
  {
    forall k: nat | k < KINDS :: Extends(later.caches[k], s.caches[k])
  }

  /** Creating a table keeps the invariant exactly if no handle table knows its id. */
  lemma NewTableKeeps(s: Contracts, place: Place, payer: nat, value: string, t: int)
    requires Invariant(s) && t !in s.tables && FindTable(s.tables, place.code, place.scope, place.name).None?
    ensures var s' := WithNewTable(s, place, payer, value, t);
            WellFormed(s') && (Invariant(s') <==> Unseen(s, t))
  {
    FreshTableUnreferenced(s, t);
    hide References, CacheCovers;
    var s' := WithNewTable(s, place, payer, value, t);
    assert WellFormed(s') && Counted(s') && NoOrphans(s') && Numbered(s'.tables, s'.created);
    NewTablePointers(s, place, payer, value, t);
    hide WellFormed, Counted, NoOrphans, Numbered, PointersAlive, Unseen;
  }

  lemma NewTablePointers(s: Contracts, place: Place, payer: nat, value: string, t: int)
    requires |s.caches| == KINDS && t !in s.tables
    requires forall k: nat | k < KINDS :: PointersAlive(s.caches[k], s.tables, s.created)
    ensures var s' := WithNewTable(s, place, payer, value, t);
            (forall k: nat | k < KINDS :: PointersAlive(s'.caches[k], s'.tables, s'.created)) <==> Unseen(s, t)
  {
    var s' := WithNewTable(s, place, payer, value, t);
    if !Unseen(s, t) {
      var k: nat :| k < KINDS && t in s.caches[k].tableCache;
      assert PointersAlive(s.caches[k], s.tables, s.created);
      assert !PointersAlive(s'.caches[k], s'.tables, s'.created);
    } else {
      forall k: nat | k < KINDS
        ensures PointersAlive(s'.caches[k], s'.tables, s'.created)
      {
        assert PointersAlive(s.caches[k], s.tables, s.created);
      }
    }
  }

  lemma FindOrCreateKeeps(s: Contracts, place: Place, payer: nat, newTable: int)
    requires Invariant(s)
    ensures var (mid, found) := FindOrCreate(s, place, payer, newTable);
            && (Invariant(mid) <==> FreshTable(s, place, newTable))
            && mid.rows == s.rows && mid.caches == s.caches && s.created <= mid.created && WellFormed(mid)
            && (found.Some? ==>
                  found.value in mid.tables && Named(mid.tables[found.value], place.code, place.scope, place.name))
            && (found.Some? && found.value !in s.tables ==> mid.tables[found.value].count == 0)
            && (found.None? ==> mid == s)
            && (forall t | t in s.tables :: t in mid.tables && mid.tables[t] == s.tables[t])
  {
    if FindTable(s.tables, place.code, place.scope, place.name).None? && newTable !in s.tables {
      NewTableKeeps(s, place, payer, "", newTable);
    }
    hide Invariant, TablesUnique, RowsUnique, Unseen;
  }

  /** No table was created, and none was replaced by another. */
  ghost predicate SameInstances(tables': map<int, Table>, tables: map<int, Table>) {
    forall t | t in tables' :: t in tables && tables'[t].instance == tables[t].instance
  }

  lemma PointersStay(c: Cache, tables': map<int, Table>, tables: map<int, Table>, created: nat)
    requires PointersAlive(c, tables, created) && SameInstances(tables', tables)
    ensures PointersAlive(c, tables', created)
  {
  }

  /** Changing the rows and the handle table of one kind. */
  lemma OneKindKeeps(s: Contracts, s': Contracts, kind: nat, rows: Rows, cache: Cache)
    requires Invariant(s) && kind < KINDS
    requires s'.rows == s.rows[kind := rows] && s'.caches == s.caches[kind := cache] && s'.created == s.created
    requires RowsUnique(rows) && CacheCovers(cache, rows) && Extends(cache, s.caches[kind])
    requires PointersAlive(cache, s.tables, s.created) && SameInstances(s'.tables, s.tables)
    requires TablesUnique(s'.tables) && Counted(s') && NoOrphans(s')
    ensures Invariant(s') && CachesExtend(s', s)
  {
    hide CacheCovers, Counted, Extends, TablesUnique, RowsUnique, NoOrphans, PointersAlive;
    forall k: nat | k < KINDS
      ensures Extends(s'.caches[k], s.caches[k]) && CacheCovers(s'.caches[k], s'.rows[k]) && RowsUnique(s'.rows[k])
      ensures PointersAlive(s'.caches[k], s'.tables, s'.created)
    {
      if k != kind {
        ExtendsItself(s.caches[k]);
      }
      PointersStay(s'.caches[k], s'.tables, s.tables, s.created);
    }
  }

  lemma RecountKeepsNames(tables: map<int, Table>, t: int, count: nat)
    requires TablesUnique(tables) && t in tables
    ensures TablesUnique(tables[t := tables[t].(count := count)])
  {
    var after := tables[t := tables[t].(count := count)];
    forall a, b | a in after && b in after && Named(after[a], after[b].code, after[b].scope, after[b].name)
      ensures a == b
    {
      assert Named(tables[a], tables[b].code, tables[b].scope, tables[b].name);
    }
  }

  lemma NewRowKeepsUnique(rows: Rows, id: int, row: Row)
    requires RowsUnique(rows) && CanStore(rows, id, row)
    ensures RowsUnique(rows[id := row])
  {
  }

  lemma NewRowKeepsOrphans(s: Contracts, kind: nat, id: int, row: Row)
    requires WellFormed(s) && NoOrphans(s) && kind < KINDS && row.table in s.tables
    ensures NoOrphans(WithRow(s, kind, id, row))
  {
    hide TablesUnique, RowsUnique;
  }

  /** The state after a row was stored in a table that exists. */
  function WithRow(s: Contracts, kind: nat, id: int, row: Row): Contracts
    requires WellFormed(s) && kind < KINDS && row.table in s.tables
  {
    var t := row.table;
    Contracts(s.tables[t := s.tables[t].(count := s.tables[t].count + 1)],
              s.rows[kind := s.rows[kind][id := row]],
              s.caches[kind := WithObject(WithTable(s.caches[kind], PointerTo(s.tables, t)).0, id).0],
              s.created)
  }

  lemma CacheCoversNewRow(c: Cache, rows: Rows, id: int, row: Row, t: TablePointer)
    requires CacheCovers(c, rows) && id !in rows && t.id == row.table
    ensures var c2 := WithObject(WithTable(c, t).0, id).0;
            && CacheCovers(c2, rows[id := row]) && Extends(c2, c)
            && c2.handles.Keys == c.handles.Keys + {id} && Lookup(c2, c2.handles[id]) == Some(id)
  {
    CacheTableKeepsValid(c, t);
    var c1 := WithTable(c, t).0;
    AddKeepsValid(c1, id);
    ExtendsTransitive(c, c1, WithObject(c1, id).0);
  }

  lemma PointersAliveNewRow(c: Cache, tables: map<int, Table>, created: nat, t: int, id: int)
    requires PointersAlive(c, tables, created) && Numbered(tables, created) && t in tables
    ensures PointersAlive(WithTable(c, PointerTo(tables, t)).0, tables, created)
    ensures PointersAlive(WithObject(WithTable(c, PointerTo(tables, t)).0, id).0, tables, created)
  {
  }

  lemma CountedNewRow(s: Contracts, kind: nat, id: int, row: Row)
    requires WellFormed(s) && Counted(s) && kind < KINDS && id !in s.rows[kind]
    requires row.table in s.tables && s.tables[row.table].count + 1 < COUNT_LIMIT
    ensures Counted(WithRow(s, kind, id, row))
  {
    hide References, WithObject, WithTable;
    forall u
      ensures References(s.rows[kind := s.rows[kind][id := row]], u) == References(s.rows, u) + if row.table == u then 1 else 0
    {
      ReferencesInsert(s.rows, kind, id, row, u);
    }
  }

  lemma StoreRowKeeps(s: Contracts, kind: nat, id: int, row: Row)
    requires Invariant(s) && kind < KINDS && CanStore(s.rows[kind], id, row)
    requires row.table in s.tables && s.tables[row.table].count + 1 < COUNT_LIMIT
    ensures Invariant(WithRow(s, kind, id, row)) && CachesExtend(WithRow(s, kind, id, row), s)
  {
    CountedNewRow(s, kind, id, row);
    NewRowKeepsUnique(s.rows[kind], id, row);
    NewRowKeepsOrphans(s, kind, id, row);
    RecountKeepsNames(s.tables, row.table, s.tables[row.table].count + 1);
    CacheCoversNewRow(s.caches[kind], s.rows[kind], id, row, PointerTo(s.tables, row.table));
    PointersAliveNewRow(s.caches[kind], s.tables, s.created, row.table, id);
    assert SameInstances(WithRow(s, kind, id, row).tables, s.tables);
    hide Invariant, CacheCovers, Counted, Extends, WithObject, WithTable, TablesUnique, RowsUnique, NoOrphans, CanStore,
      PointersAlive, SameInstances;
    OneKindKeeps(s, WithRow(s, kind, id, row), kind, s.rows[kind][id := row],
                 WithObject(WithTable(s.caches[kind], PointerTo(s.tables, row.table)).0, id).0);
  }

  lemma ExtendsItself(c: Cache)
    ensures Extends(c, c)
  {
  }

  lemma SameCachesExtend(later: Contracts, s: Contracts)
    requires |s.caches| == KINDS && later.caches == s.caches
    ensures CachesExtend(later, s)
  {
  }

  /** Storing a row keeps the invariant exactly as long as the count of its table has room and no table is created
      under an id that a handle table caches from before. */
  lemma StoreKeeps(s: Contracts, op: Op)
    requires Invariant(s) && op.Store? && op.kind < KINDS
    ensures var (s', r) := Step(s, op);
            && (Invariant(s') <==> HasRoom(s, op) && FreshTable(s, op.place, op.newTable))
            && (Invariant(s') ==>
                  && CachesExtend(s', s) && (r.Iterator? || r.Thrown?)
                  && (r.Iterator? ==> Lookup(s'.caches[op.kind], r.handle) == Some(op.id) && op.id in s'.rows[op.kind]))
  {
    assert WellFormed(s);
    hide Invariant, CachesExtend, Lookup, HasRoom, FreshTable, WellFormed;
    if !HasRoom(s, op) {
      StoreOverflows(s, op);
    } else if FreshTable(s, op.place, op.newTable) {
      StoreWithRoom(s, op);
    } else {
      StoreUnderOldId(s, op);
    }
  }

  lemma StoreWithRoom(s: Contracts, op: Op)
    requires Invariant(s) && op.Store? && op.kind < KINDS && HasRoom(s, op) && FreshTable(s, op.place, op.newTable)
    ensures var (s', r) := Step(s, op);
            && Invariant(s') && CachesExtend(s', s) && (r.Iterator? || r.Thrown?)
            && (r.Iterator? ==> Lookup(s'.caches[op.kind], r.handle) == Some(op.id) && op.id in s'.rows[op.kind])
  {
    hide FreshTable;
    FindOrCreateKeeps(s, op.place, op.payer, op.newTable);
    var (mid, found) := FindOrCreate(s, op.place, op.payer, op.newTable);
    SameCachesExtend(mid, s);
    if found.Some? {
      var row := Row(found.value, op.primary, op.payer, op.content);
      if CanStore(s.rows[op.kind], op.id, row) {
        StoreRowKeeps(mid, op.kind, op.id, row);
        CacheCoversNewRow(s.caches[op.kind], s.rows[op.kind], op.id, row, PointerTo(mid.tables, found.value));
      }
    }
    hide Invariant, CachesExtend, CacheCovers, Extends, Valid, CanStore, FindOrCreate, WellFormed;
    StoreStepShape(s, op);
  }

  /** The 2^32nd row wraps the count of its table to 0. */
  lemma StoreOverflows(s: Contracts, op: Op)
    requires Invariant(s) && op.Store? && op.kind < KINDS && !HasRoom(s, op)
    ensures !Invariant(Step(s, op).0)
  {
    hide WithTable, WithObject, RowsUnique, CacheCovers, NoOrphans, References, PointersAlive, Numbered;
    var t := FindTable(s.tables, op.place.code, op.place.scope, op.place.name).value;
    var row := Row(t, op.primary, op.payer, op.content);
    var s' := Step(s, op).0;
    assert s.tables[t].count == References(s.rows, t) == COUNT_LIMIT - 1;
    ReferencesInsert(s.rows, op.kind, op.id, row, t);
    assert References(s'.rows, t) == COUNT_LIMIT;
  }

  /** A table created under an id that is still cached leaves a pointer to a deleted table in its place, whether its
      first row is accepted or not. */
  lemma StoreUnderOldId(s: Contracts, op: Op)
    requires Invariant(s) && op.Store? && op.kind < KINDS && !FreshTable(s, op.place, op.newTable)
    ensures !Invariant(Step(s, op).0)
  {
    hide RowsUnique, TablesUnique, CacheCovers, NoOrphans, Counted, CanStore;
    var t := op.newTable;
    var k: nat :| k < KINDS && t in s.caches[k].tableCache;
    assert PointersAlive(s.caches[k], s.tables, s.created);
    var s' := Step(s, op).0;
    assert s'.tables[t].instance == s.created;
    assert s'.caches[k].tableCache == s.caches[k].tableCache;
    assert !PointersAlive(s'.caches[k], s'.tables, s'.created);
  }

  /** What storing amounts to, in terms of WithRow. */
  lemma StoreStepShape(s: Contracts, op: Op)
    requires WellFormed(s) && op.Store? && op.kind < KINDS
    ensures var (mid, found) := FindOrCreate(s, op.place, op.payer, op.newTable);
            var (s', r) := Step(s, op);
            if found.None? then s' == s && r == Thrown
            else
              && found.value in mid.tables && WellFormed(mid) && mid.rows == s.rows
              && var row := Row(found.value, op.primary, op.payer, op.content);
                 if !CanStore(s.rows[op.kind], op.id, row) then s' == mid && r == Thrown
                 else mid.tables[found.value].count + 1 < COUNT_LIMIT ==>
                        && s' == WithRow(mid, op.kind, op.id, row)
                        && r == Iterator(s'.caches[op.kind].handles[op.id])
  {
    hide RowsUnique, CanStore;
  }

  /** A row after an update: payer and content are the given ones, table and primary key the old ones. */
  ghost predicate Updated(before: Row, after: Row, payer: nat, content: Content) {
    && after.payer == payer && after.content == content
    && after.table == before.table && after.primary == before.primary
  }

  /** An update succeeds exactly on a live handle, and then changes payer and content of the row behind it and
      nothing else. */
  lemma UpdateKeeps(s: Contracts, op: Op)
    requires Invariant(s) && op.Update? && Allowed(s, op)
    ensures var (s', r) := Step(s, op);
            && Invariant(s') && CachesExtend(s', s) && s'.tables == s.tables && s'.caches == s.caches
            && match Lookup(s.caches[op.kind], op.handle)
               case None => r == InvalidIterator && s' == s
               case Some(id) =>
                 && r == Iterator(op.handle) && id in s.rows[op.kind] && id in s'.rows[op.kind]
                 && Updated(s.rows[op.kind][id], s'.rows[op.kind][id], op.payer, op.content)
                 && s'.rows[op.kind].Keys == s.rows[op.kind].Keys
                 && (forall other | other in s.rows[op.kind] && other != id ::
                       s'.rows[op.kind][other] == s.rows[op.kind][other])
                 && (forall k: nat | k < KINDS && k != op.kind :: s'.rows[k] == s.rows[k])
  {
    SameCachesExtend(s, s);
    match Lookup(s.caches[op.kind], op.handle)
    case None =>
    case Some(id) =>
      assert CacheCovers(s.caches[op.kind], s.rows[op.kind]);
      var row := s.rows[op.kind][id].(payer := op.payer, content := op.content);
      UpdatedRowKeeps(s, op.kind, id, row);
      hide Invariant, CachesExtend;
  }

  lemma UpdatedRowKeeps(s: Contracts, kind: nat, id: int, row: Row)
    requires Invariant(s) && kind < KINDS && id in s.rows[kind]
    requires row.table == s.rows[kind][id].table && row.primary == s.rows[kind][id].primary
    ensures var s' := s.(rows := s.rows[kind := s.rows[kind][id := row]]);
            Invariant(s') && CachesExtend(s', s)
  {
    hide CachesExtend, TablesUnique, PointersAlive, Numbered, Valid;
    var s' := s.(rows := s.rows[kind := s.rows[kind][id := row]]);
    SameCachesExtend(s', s);
    assert RowsUnique(s.rows[kind][id := row]);
    assert CacheCovers(s.caches[kind], s.rows[kind][id := row]) by {
      assert CacheCovers(s.caches[kind], s.rows[kind]);
    }
    forall t
      ensures References(s'.rows, t) == References(s.rows, t)
    {
      ReferencesUpdate(s.rows, kind, id, row, t);
    }
    hide RowsUnique, CacheCovers, References;
    assert WellFormed(s');
  }

  /** The state after the row behind a handle was removed from a table that stays. */
  function WithoutRow(s: Contracts, kind: nat, handle: int, id: int): Contracts
    requires WellFormed(s) && kind < KINDS && Lookup(s.caches[kind], handle) == Some(id)
    requires id in s.rows[kind] && s.rows[kind][id].table in s.tables
    requires s.tables[s.rows[kind][id].table].count > 0
  {
    var t := s.rows[kind][id].table;
    Contracts(s.tables[t := s.tables[t].(count := s.tables[t].count - 1)],
              s.rows[kind := s.rows[kind] - {id}],
              s.caches[kind := Drop(s.caches[kind], handle)],
              s.created)
  }

  /** A live handle leads to a live row of a live table whose count is not 0, and the cached pointer to it is good. */
  lemma LiveHandle(s: Contracts, kind: nat, handle: int)
    requires Invariant(s) && kind < KINDS && Lookup(s.caches[kind], handle).Some?
    ensures var id := Lookup(s.caches[kind], handle).value;
            && id in s.rows[kind]
            && s.rows[kind][id].table in s.caches[kind].tableCache
            && s.rows[kind][id].table in s.tables
            && s.tables[s.rows[kind][id].table].count > 0
            && GetTable(s.caches[kind], s.rows[kind][id].table) == PointerTo(s.tables, s.rows[kind][id].table)
  {
    assert CacheCovers(s.caches[kind], s.rows[kind]) && PointersAlive(s.caches[kind], s.tables, s.created);
    var id := Lookup(s.caches[kind], handle).value;
    NoReferences(s.rows, s.rows[kind][id].table);
  }

  lemma CountedWithoutRow(s: Contracts, kind: nat, handle: int, id: int)
    requires Invariant(s) && kind < KINDS && Lookup(s.caches[kind], handle) == Some(id)
    requires id in s.rows[kind] && s.rows[kind][id].table in s.tables
    requires s.tables[s.rows[kind][id].table].count > 0
    ensures Counted(WithoutRow(s, kind, handle, id))
  {
    hide References, Drop, CacheCovers, PointersAlive, Numbered;
    forall u
      ensures References(s.rows[kind := s.rows[kind] - {id}], u)
           == References(s.rows, u) - if s.rows[kind][id].table == u then 1 else 0
    {
      ReferencesRemove(s.rows, kind, id, u);
    }
  }

  lemma WithoutRowKeeps(s: Contracts, kind: nat, handle: int, id: int)
    requires Invariant(s) && kind < KINDS && Lookup(s.caches[kind], handle) == Some(id)
    requires id in s.rows[kind] && s.rows[kind][id].table in s.tables
    requires s.tables[s.rows[kind][id].table].count > 0
    ensures var s' := WithoutRow(s, kind, handle, id);
            Invariant(s') && CachesExtend(s', s) && Lookup(s'.caches[kind], handle) == None
  {
    hide Counted, Numbered;
    CountedWithoutRow(s, kind, handle, id);
    assert CacheCovers(s.caches[kind], s.rows[kind]);
    DropKeepsValid(s.caches[kind], handle);
    RecountKeepsNames(s.tables, s.rows[kind][id].table, s.tables[s.rows[kind][id].table].count - 1);
    var s' := WithoutRow(s, kind, handle, id);
    assert RowsUnique(s.rows[kind] - {id});
    assert CacheCovers(Drop(s.caches[kind], handle), s.rows[kind] - {id}) by {
      assert CacheCovers(s.caches[kind], s.rows[kind]);
    }
    assert NoOrphans(s') by {
      hide CacheCovers, Counted, TablesUnique, RowsUnique, Extends, Valid;
    }
    assert PointersAlive(Drop(s.caches[kind], handle), s.tables, s.created) by {
      assert PointersAlive(s.caches[kind], s.tables, s.created);
    }
    assert SameInstances(s'.tables, s.tables);
    hide Invariant, CacheCovers, Counted, Extends, Drop, RowsUnique, TablesUnique, NoOrphans, Valid, PointersAlive,
      SameInstances;
    OneKindKeeps(s, s', kind, s.rows[kind] - {id}, Drop(s.caches[kind], handle));
  }

  /** A table is deleted only when no row of any kind refers to it. */
  lemma DeleteTableKeeps(s: Contracts, t: int)
    requires Invariant(s) && t in s.tables && s.tables[t].count == 0
    ensures Invariant(s.(tables := s.tables - {t}))
    ensures forall k: nat, id | k < KINDS && id in s.rows[k] :: s.rows[k][id].table != t
  {
    hide CacheCovers, PointersAlive, References;
    NoReferences(s.rows, t);
    forall k: nat | k < KINDS
      ensures PointersAlive(s.caches[k], s.tables - {t}, s.created)
    {
      PointersStay(s.caches[k], s.tables - {t}, s.tables, s.created);
    }
  }

  /** What removing amounts to, in terms of WithoutRow. */
  lemma RemoveStepShape(s: Contracts, op: Op, id: int)
    requires WellFormed(s) && op.Remove? && op.kind < KINDS && Lookup(s.caches[op.kind], op.handle) == Some(id)
    requires id in s.rows[op.kind] && s.rows[op.kind][id].table in s.tables
    requires s.rows[op.kind][id].table in s.caches[op.kind].tableCache
    requires GetTable(s.caches[op.kind], s.rows[op.kind][id].table) == PointerTo(s.tables, s.rows[op.kind][id].table)
    requires 0 < s.tables[s.rows[op.kind][id].table].count < COUNT_LIMIT
    ensures var t, mid := s.rows[op.kind][id].table, WithoutRow(s, op.kind, op.handle, id);
            Step(s, op) == (if op.kind == KEY_VALUE && mid.tables[t].count == 0 then mid.(tables := mid.tables - {t}) else mid,
                            Iterator(op.handle))
  {
    var t, mid := s.rows[op.kind][id].table, WithoutRow(s, op.kind, op.handle, id);
    CountDown(s.tables[t].count);
    assert mid.tables - {t} == s.tables - {t};
    hide Drop, WellFormed;
  }

  lemma RemoveKeeps(s: Contracts, op: Op)
    requires Invariant(s) && op.Remove? && Allowed(s, op)
    ensures var (s', r) := Step(s, op);
            && Invariant(s') && CachesExtend(s', s)
            && r == (if Lookup(s.caches[op.kind], op.handle).Some? then Iterator(op.handle) else InvalidIterator)
            && Lookup(s'.caches[op.kind], op.handle) == None
  {
    SameCachesExtend(s, s);
    if Lookup(s.caches[op.kind], op.handle).Some? {
      var id := Lookup(s.caches[op.kind], op.handle).value;
      LiveHandle(s, op.kind, op.handle);
      WithoutRowKeeps(s, op.kind, op.handle, id);
      RemoveStepShape(s, op, id);
      var t, mid := s.rows[op.kind][id].table, WithoutRow(s, op.kind, op.handle, id);
      if mid.tables[t].count == 0 {
        DeleteTableKeeps(mid, t);
        hide Invariant;
        DroppedTableExtends(mid, s, t);
      }
      hide Invariant, CachesExtend, Step, WithoutRow;
      assert Invariant(Step(s, op).0);
    } else {
      assert Step(s, op) == (s, InvalidIterator);
    }
    hide Invariant, CachesExtend, Step;
  }

  lemma DroppedTableExtends(later: Contracts, s: Contracts, t: int)
    requires |s.caches| == |later.caches| == KINDS && CachesExtend(later, s)
    ensures CachesExtend(later.(tables := later.tables - {t}), s)
  {
  }

  /** The 32-bit decrement of a count that is not 0. */
  lemma CountDown(count: nat)
    requires 0 < count < COUNT_LIMIT
    ensures (count + COUNT_LIMIT - 1) % COUNT_LIMIT == count - 1
  {
  }

  /** Creating a table without rows keeps the invariant exactly if no handle table caches its id from before. */
  lemma StoreByScopeKeeps(s: Contracts, op: Op)
    requires Invariant(s) && op.StoreByScope?
    ensures var (s', r) := Step(s, op);
            && s'.caches == s.caches && s'.rows == s.rows && (r == TableCreated(op.newTable) || r.Thrown?)
            && (Invariant(s') <==> FreshTable(s, op.place, op.newTable))
  {
    if op.newTable !in s.tables && FindTable(s.tables, op.place.code, op.place.scope, op.place.name).None? {
      NewTableKeeps(s, op.place, op.payer, op.value, op.newTable);
    }
    hide Invariant, Unseen;
  }

  // ----- cursors -----

  /** Only the handle table of the key-value rows has changed, and it has only grown. */
  ghost predicate CursorMoved(s': Contracts, s: Contracts)
    requires |s.caches| == |s'.caches| == KINDS
  {
    && Invariant(s') && s'.tables == s.tables && s'.rows == s.rows && s'.created == s.created && CachesExtend(s', s)
    && s.caches[KEY_VALUE].objects <= s'.caches[KEY_VALUE].objects
  }

  lemma CacheChangeKeeps(s: Contracts, cache: Cache)
    requires Invariant(s) && CacheCovers(cache, s.rows[KEY_VALUE]) && Extends(cache, s.caches[KEY_VALUE])
    requires s.caches[KEY_VALUE].objects <= cache.objects && PointersAlive(cache, s.tables, s.created)
    ensures CursorMoved(s.(caches := s.caches[KEY_VALUE := cache]), s)
  {
    hide CacheCovers, Extends, TablesUnique, RowsUnique, References, PointersAlive;
    var s' := s.(caches := s.caches[KEY_VALUE := cache]);
    OneKindKeeps(s, s', KEY_VALUE, s.rows[KEY_VALUE], cache);
  }

  lemma VisitKeeps(s: Contracts, id: int)
    requires Invariant(s) && id in s.rows[KEY_VALUE] && s.rows[KEY_VALUE][id].table in s.caches[KEY_VALUE].tableCache
    ensures var (s', r) := Visit(s, id);
            && CursorMoved(s', s) && r.RowAt? && r.handle >= 0 && r.primary == s.rows[KEY_VALUE][id].primary
            && Lookup(s'.caches[KEY_VALUE], r.handle) == Some(id)
            && s'.caches[KEY_VALUE].tableCache == s.caches[KEY_VALUE].tableCache
            && s'.caches[KEY_VALUE].endToTable == s.caches[KEY_VALUE].endToTable
  {
    assert CacheCovers(s.caches[KEY_VALUE], s.rows[KEY_VALUE]);
    AddKeepsValid(s.caches[KEY_VALUE], id);
    var cache := WithObject(s.caches[KEY_VALUE], id).0;
    assert CacheCovers(cache, s.rows[KEY_VALUE]);
    assert PointersAlive(cache, s.tables, s.created) by {
      assert PointersAlive(s.caches[KEY_VALUE], s.tables, s.created);
    }
    hide Invariant, CacheCovers, Extends, Valid, PointersAlive;
    CacheChangeKeeps(s, cache);
  }

  /** The rows of a table that a search is for. */
  ghost function Matches(rows: Rows, t: int, search: Search): set<int> {
    match search
    case Exact(primary) => set id | id in rows && rows[id].table == t && rows[id].primary == primary
    case LowerBound(primary) => set id | id in rows && rows[id].table == t && rows[id].primary >= primary
    case UpperBound(primary) => set id | id in rows && rows[id].table == t && rows[id].primary > primary
    case End => {}
  }

  /** The search of the whole index finds the first match in the table, unless the table has no match. */
  lemma SearchFindsFirstMatch(rows: Rows, t: int, search: Search)
    requires RowsUnique(rows)
    ensures var first := First(rows, Candidates(rows, t, search));
            if first.Some? && rows[first.value].table == t then IsFirst(rows, Matches(rows, t, search), first.value)
            else Matches(rows, t, search) == {}
  {
    var candidates, matches := Candidates(rows, t, search), Matches(rows, t, search);
    var first := First(rows, candidates);
    forall id | id in matches
      ensures id in candidates
    {
    }
    if first.Some? && rows[first.value].table == t {
      assert first.value in matches;
    } else {
      if first.Some? {
        forall id | id in candidates
          ensures id !in matches
        {
          assert id == first.value || Before(rows[first.value], rows[id]);
        }
      }
      assert matches == {};
    }
  }

  /** A search returns the handle of the first match in the table, the table's end iterator if there is no
      match, or -1 if there is no table. */
  lemma SeekKeeps(s: Contracts, place: Place, search: Search)
    requires Invariant(s)
    ensures var (s', r) := SeekStep(s, place, search);
            var found := FindTable(s.tables, place.code, place.scope, place.name);
            && CursorMoved(s', s) && r.Iterator?
            && (found.None? ==> r.handle == -1)
            && (found.Some? ==>
                  var rows, matches := s.rows[KEY_VALUE], Matches(s.rows[KEY_VALUE], found.value, search);
                  && found.value in s'.caches[KEY_VALUE].tableCache
                  && if matches == {} then IsEndOf(s'.caches[KEY_VALUE], r.handle, PointerTo(s.tables, found.value))
                     else
                       && r.handle >= 0 && Lookup(s'.caches[KEY_VALUE], r.handle).Some?
                       && IsFirst(rows, matches, Lookup(s'.caches[KEY_VALUE], r.handle).value))
  {
    hide Candidates, Matches, Valid, Extends, IsFirst, RowsUnique;
    SameCachesExtend(s, s);
    match FindTable(s.tables, place.code, place.scope, place.name)
    case None =>
    case Some(t) =>
      var rows, c := s.rows[KEY_VALUE], s.caches[KEY_VALUE];
      SearchFindsFirstMatch(rows, t, search);
      assert CacheCovers(c, rows) && PointersAlive(c, s.tables, s.created);
      CacheTableKeepsValid(c, PointerTo(s.tables, t));
      var c1 := WithTable(c, PointerTo(s.tables, t)).0;
      assert CacheCovers(c1, rows);
      PointersAliveNewRow(c, s.tables, s.created, t, 0);
      var mid := s.(caches := s.caches[KEY_VALUE := c1]);
      CacheChangeKeeps(s, c1);
      match First(rows, Candidates(rows, t, search))
      case None =>
      case Some(id) =>
        if rows[id].table == t {
          VisitKeeps(mid, id);
          VisitedAfter(s, PointerTo(s.tables, t), id);
        }
      hide CacheCovers;
  }

  lemma VisitedAfter(s: Contracts, t: TablePointer, id: int)
    requires Invariant(s) && id in s.rows[KEY_VALUE]
    requires var mid := s.(caches := s.caches[KEY_VALUE := WithTable(s.caches[KEY_VALUE], t).0]);
             CursorMoved(mid, s) && CursorMoved(Visit(mid, id).0, mid)
    ensures var mid := s.(caches := s.caches[KEY_VALUE := WithTable(s.caches[KEY_VALUE], t).0]);
            CursorMoved(Visit(mid, id).0, s)
  {
    var mid := s.(caches := s.caches[KEY_VALUE := WithTable(s.caches[KEY_VALUE], t).0]);
    hide Invariant, Extends;
    var last := Visit(mid, id).0;
    forall k: nat | k < KINDS
      ensures Extends(last.caches[k], s.caches[k])
    {
      ExtendsTransitive(s.caches[k], mid.caches[k], last.caches[k]);
    }
  }

  /** The rows of a table with a primary key above the given one. */
  ghost function Above(rows: Rows, t: int, primary: nat): set<int> {
    set id | id in rows && rows[id].table == t && rows[id].primary > primary
  }

  /** The rows of a table with a primary key below the given one. */
  ghost function Below(rows: Rows, t: int, primary: nat): set<int> {
    set id | id in rows && rows[id].table == t && rows[id].primary < primary
  }

  /** Moving forward goes to the smallest larger key of the same table, and from the largest key to the end
      iterator of the table; the table is always cached. */
  lemma NextKeeps(s: Contracts, handle: int)
    requires Invariant(s)
    ensures var (s', r) := NextStep(s, handle);
            && CursorMoved(s', s) && s'.caches[KEY_VALUE].tableCache == s.caches[KEY_VALUE].tableCache
            && match Lookup(s.caches[KEY_VALUE], handle)
               case None => s' == s && r == if handle < -1 then Iterator(-1) else InvalidIterator
               case Some(id) =>
                 && id in s.rows[KEY_VALUE]
                 && var rows := s.rows[KEY_VALUE];
                    var above := Above(rows, rows[id].table, rows[id].primary);
                    if above == {} then
                      && s' == s && r.Iterator? && rows[id].table in s.tables
                      && IsEndOf(s.caches[KEY_VALUE], r.handle, PointerTo(s.tables, rows[id].table))
                    else
                      && r.RowAt? && r.handle >= 0 && Lookup(s'.caches[KEY_VALUE], r.handle).Some?
                      && var next := Lookup(s'.caches[KEY_VALUE], r.handle).value;
                         next in rows && IsFirst(rows, above, next) && r.primary == rows[next].primary
  {
    SameCachesExtend(s, s);
    match Lookup(s.caches[KEY_VALUE], handle)
    case None =>
    case Some(id) =>
      LiveHandle(s, KEY_VALUE, handle);
      var rows, cache := s.rows[KEY_VALUE], s.caches[KEY_VALUE];
      var t, primary := rows[id].table, rows[id].primary;
      NextInTable(rows, t, primary);
      var next := First(rows, After(rows, t, primary));
      if next.Some? && rows[next.value].table == t {
        VisitKeeps(s, next.value);
      } else {
        assert CacheCovers(cache, rows);
      }
      hide Invariant, CachesExtend, Extends, Valid;
  }

  /** The successor in the whole index is the successor in the table, unless the table has none. */
  lemma NextInTable(rows: Rows, t: int, primary: nat)
    requires RowsUnique(rows)
    ensures var next := First(rows, After(rows, t, primary));
            && (Above(rows, t, primary) == {} <==> next.None? || rows[next.value].table != t)
            && (next.Some? && rows[next.value].table == t ==> IsFirst(rows, Above(rows, t, primary), next.value))
  {
    var next := First(rows, After(rows, t, primary));
    forall id | id in Above(rows, t, primary)
      ensures id in After(rows, t, primary)
    {
    }
    if next.Some? && rows[next.value].table != t {
      forall id
        ensures id !in Above(rows, t, primary)
      {
      }
      assert Above(rows, t, primary) == {};
    } else if next.Some? {
      assert next.value in Above(rows, t, primary);
    } else {
      assert Above(rows, t, primary) == {};
    }
  }

  /** The predecessor in the whole index is the predecessor in the table, unless the table has none. */
  lemma PreviousInTable(rows: Rows, t: int, primary: nat)
    requires RowsUnique(rows)
    ensures var last := Last(rows, UpTo(rows, t, primary));
            && (Below(rows, t, primary) == {} <==> last.None? || rows[last.value].table != t)
            && (last.Some? && rows[last.value].table == t ==> IsLast(rows, Below(rows, t, primary), last.value))
  {
    var last := Last(rows, UpTo(rows, t, primary));
    forall id | id in Below(rows, t, primary)
      ensures id in UpTo(rows, t, primary)
    {
    }
    if last.Some? && rows[last.value].table != t {
      forall id
        ensures id !in Below(rows, t, primary)
      {
      }
      assert Below(rows, t, primary) == {};
    } else if last.Some? {
      assert last.value in Below(rows, t, primary);
    } else {
      assert Below(rows, t, primary) == {};
    }
  }

  /** The last row before the next table id is the last row of the table, unless the table has none. */
  lemma LastOfTable(rows: Rows, t: int)
    requires RowsUnique(rows)
    ensures var last := Last(rows, UpTo(rows, t + 1, 0));
            && (Members(rows, t) == {} <==> last.None? || rows[last.value].table != t)
            && (last.Some? && rows[last.value].table == t ==> IsLast(rows, Members(rows, t), last.value))
  {
    var last := Last(rows, UpTo(rows, t + 1, 0));
    forall id | id in Members(rows, t)
      ensures id in UpTo(rows, t + 1, 0)
    {
    }
    if last.Some? && rows[last.value].table != t {
      forall id
        ensures id !in Members(rows, t)
      {
      }
      assert Members(rows, t) == {};
    } else if last.Some? {
      assert last.value in Members(rows, t);
    } else {
      assert Members(rows, t) == {};
    }
  }

  /** Moving back from a row goes to the largest smaller key of the same table, or to -1 from the smallest. */
  lemma PreviousFromRowKeeps(s: Contracts, handle: int)
    requires Invariant(s) && handle >= -1
    ensures var (s', r) := PreviousStep(s, handle);
            && CursorMoved(s', s)
            && match Lookup(s.caches[KEY_VALUE], handle)
               case None => s' == s && r == InvalidIterator
               case Some(id) =>
                 && id in s.rows[KEY_VALUE]
                 && var rows := s.rows[KEY_VALUE];
                    MovedTo(s, s', r, Below(rows, rows[id].table, rows[id].primary))
  {
    SameCachesExtend(s, s);
    match Lookup(s.caches[KEY_VALUE], handle)
    case None =>
    case Some(id) =>
      LiveHandle(s, KEY_VALUE, handle);
      var rows := s.rows[KEY_VALUE];
      var t := rows[id].table;
      PreviousInTable(rows, t, rows[id].primary);
      var last := Last(rows, UpTo(rows, t, rows[id].primary));
      if last.Some? && rows[last.value].table == t {
        VisitKeeps(s, last.value);
      }
      hide Invariant, CachesExtend, Extends, Valid, CacheCovers;
  }

  /** The outcome of moving back among the rows `before`: the last of them, or -1 if there are none. */
  ghost predicate MovedTo(s: Contracts, s': Contracts, r: Outcome, before: set<int>)
    requires |s.rows| == |s'.caches| == KINDS && before <= s.rows[KEY_VALUE].Keys
  {
    if before == {} then s' == s && r == Iterator(-1)
    else
      && r.RowAt? && r.handle >= 0 && Lookup(s'.caches[KEY_VALUE], r.handle).Some?
      && var last := Lookup(s'.caches[KEY_VALUE], r.handle).value;
         last in s.rows[KEY_VALUE] && IsLast(s.rows[KEY_VALUE], before, last) && r.primary == s.rows[KEY_VALUE][last].primary
  }

  /** Moving back from the end iterator of a table goes to its largest key, or to -1 if the table has no rows.  If the
      table was deleted, a pointer to it is followed all the same. */
  lemma PreviousFromEndKeeps(s: Contracts, handle: int)
    requires Invariant(s) && handle < -1
    ensures var (s', r) := PreviousStep(s, handle);
            && CursorMoved(s', s)
            && match FindTableByEnd(s.caches[KEY_VALUE], handle)
               case None => s' == s && r == InvalidIterator
               case Some(t) =>
                 if Alive(s.tables, t) then MovedTo(s, s', r, Members(s.rows[KEY_VALUE], t.id))
                 else s' == s && r == DanglingTable
  {
    hide Invariant, CachesExtend, Valid, CacheCovers, TablesUnique, RowsUnique, IsLast, Members, CursorMoved;
    StaysMoved(s);
    match FindTableByEnd(s.caches[KEY_VALUE], handle)
    case None =>
    case Some(t) =>
      var rows := s.rows[KEY_VALUE];
      EndIsCached(s, handle, t);
      LastOfTable(rows, t.id);
      var last := Last(rows, UpTo(rows, t.id + 1, 0));
      if last.Some? && rows[last.value].table == t.id {
        VisitKeeps(s, last.value);
      }
  }

  lemma StaysMoved(s: Contracts)
    requires Invariant(s)
    ensures WellFormed(s) && RowsUnique(s.rows[KEY_VALUE]) && CursorMoved(s, s)
  {
    SameCachesExtend(s, s);
  }

  lemma EndIsCached(s: Contracts, handle: int, t: TablePointer)
    requires Invariant(s) && handle < -1 && FindTableByEnd(s.caches[KEY_VALUE], handle) == Some(t)
    ensures t.id in s.caches[KEY_VALUE].tableCache && GetTable(s.caches[KEY_VALUE], t.id) == t
  {
    assert CacheCovers(s.caches[KEY_VALUE], s.rows[KEY_VALUE]);
  }

  // ----- whole runs -----

  /** The end iterator of a table that has been deleted since. */
  ghost predicate EndOfDeleted(s: Contracts, handle: int)
    requires |s.caches| == KINDS
  {
    && handle < -1
    && var found := FindTableByEnd(s.caches[KEY_VALUE], handle);
       found.Some? && !Alive(s.tables, found.value)
  }

  /** Allowed operations keep the invariant; no table pointer is missing, and none that dangles is followed but by
      moving back from the end iterator of a deleted table. */
  lemma StepKeeps(s: Contracts, op: Op)
    requires Invariant(s) && Allowed(s, op)
    ensures var (s', r) := Step(s, op);
            && Invariant(s') && CachesExtend(s', s) && r != TableNotCached
            && (r == DanglingTable <==> op.Previous? && EndOfDeleted(s, op.handle))
            && (op.Store? || op.Update? || op.Remove? || s'.rows == s.rows)
  {
    hide StoreStep, UpdateStep, RemoveStep, StoreByScopeStep, SeekStep, NextStep, PreviousStep;
    hide Counted, NoOrphans, CacheCovers, PointersAlive, TablesUnique, RowsUnique, Extends;
    match op
    case Store(_, _, _, _, _, _, _) => StoreWithRoom(s, op);
    case Update(_, _, _, _) => UpdateKeeps(s, op);
    case Remove(_, _) => RemoveKeeps(s, op);
    case StoreByScope(_, _, _, _) =>
      StoreByScopeKeeps(s, op);
      SameCachesExtend(Step(s, op).0, s);
    case Seek(place, search) => SeekKeeps(s, place, search);
    case Next(handle) => NextKeeps(s, handle);
    case Previous(handle) =>
      if handle < -1 {
        PreviousFromEndKeeps(s, handle);
      } else {
        PreviousFromRowKeeps(s, handle);
      }
  }

  ghost predicate AllAllowed(s: Contracts, ops: seq<Op>)
    requires WellFormed(s)
    decreases |ops|
  {
    ops == [] || (Allowed(s, ops[0]) && WellFormed(Step(s, ops[0]).0) && AllAllowed(Step(s, ops[0]).0, ops[1..]))
  }

  ghost function Run(s: Contracts, ops: seq<Op>): (t: Contracts)
    requires WellFormed(s) && AllAllowed(s, ops)
    ensures WellFormed(t)
    decreases |ops|
  {
    if ops == [] then s else Run(Step(s, ops[0]).0, ops[1..])
  }

  /** Over every run the counts are exact, every row's table is live and known by good pointers only, handles and
      live rows correspond, and handles and end iterators keep their meaning. */
  lemma {:induction false} RunKeeps(s: Contracts, ops: seq<Op>)
    requires Invariant(s) && AllAllowed(s, ops)
    ensures Invariant(Run(s, ops)) && CachesExtend(Run(s, ops), s)
    decreases |ops|
  {
    if ops == [] {
      SameCachesExtend(s, s);
    } else {
      StepKeeps(s, ops[0]);
      var s1 := Step(s, ops[0]).0;
      RunKeeps(s1, ops[1..]);
      var s2 := Run(s1, ops[1..]);
      forall k: nat | k < KINDS
        ensures Extends(s2.caches[k], s.caches[k])
      {
        ExtendsTransitive(s.caches[k], s1.caches[k], s2.caches[k]);
      }
    }
  }

  /** The invariant holds when the tables count correctly and no handle has been issued. */
  lemma FreshCachesInvariant(tables: map<int, Table>, rows: seq<Rows>, created: nat)
    requires |rows| == KINDS && TablesUnique(tables) && forall k: nat | k < KINDS :: RowsUnique(rows[k])
    requires forall t | t in tables :: tables[t].count == References(rows, t) < COUNT_LIMIT
    requires forall k: nat, id | k < KINDS && id in rows[k] :: rows[k][id].table in tables
    requires Numbered(tables, created)
    ensures Invariant(Contracts(tables, rows, [EMPTY_CACHE, EMPTY_CACHE, EMPTY_CACHE, EMPTY_CACHE], created))
  {
  }

  /** A handle issued once denotes the same row or nothing ever after, and once dead it stays dead. */
  lemma HandleNeverReissued(s: Contracts, ops: seq<Op>, kind: nat, handle: int)
    requires Invariant(s) && AllAllowed(s, ops) && kind < KINDS && 0 <= handle < |s.caches[kind].objects|
    ensures var now, later := Lookup(s.caches[kind], handle), Lookup(Run(s, ops).caches[kind], handle);
            later == now || later == None
  {
    RunKeeps(s, ops);
  }

  // ----- ids of deleted tables -----

  /** The id of a deleted table stays cached: no table may be created under it as long as the handle tables live. */
  lemma DeletedIdStaysCached(s: Contracts, op: Op, t: int, ops: seq<Op>)
    requires Invariant(s) && Allowed(s, op) && t in s.tables && t !in Step(s, op).0.tables
    requires Invariant(Step(s, op).0) && AllAllowed(Step(s, op).0, ops)
    ensures !Unseen(Run(Step(s, op).0, ops), t)
  {
    var s1 := Step(s, op).0;
    DeletedIdIsCached(s, op, t);
    RunKeeps(s1, ops);
    hide Invariant, Step, Run, AllAllowed;
    assert Extends(Run(s1, ops).caches[KEY_VALUE], s1.caches[KEY_VALUE]);
  }

  lemma DeletedIdIsCached(s: Contracts, op: Op, t: int)
    requires Invariant(s) && Allowed(s, op) && t in s.tables && t !in Step(s, op).0.tables
    ensures t in Step(s, op).0.caches[KEY_VALUE].tableCache
  {
    hide WithTable, WithObject, Counted, NoOrphans, TablesUnique, RowsUnique, PointersAlive, CacheCovers, CanStore;
  }

  /** A row that is stored in a table created under an id cached from before cannot be removed: the pointer that
      would be followed is to the deleted table. */
  lemma OldIdDangles(s: Contracts, op: Op)
    requires Invariant(s) && op.Store? && op.kind < KINDS && Step(s, op).1.Iterator?
    requires op.newTable !in s.tables && op.newTable in s.caches[op.kind].tableCache
    requires FindTable(s.tables, op.place.code, op.place.scope, op.place.name).None?
    ensures var (s1, r1) := Step(s, op);
            WellFormed(s1) && RemoveStep(s1, op.kind, r1.handle) == (s1, DanglingTable)
  {
    FindOrCreateKeeps(s, op.place, op.payer, op.newTable);
    var mid := FindOrCreate(s, op.place, op.payer, op.newTable).0;
    var row := Row(op.newTable, op.primary, op.payer, op.content);
    assert CacheCovers(s.caches[op.kind], s.rows[op.kind]) && PointersAlive(s.caches[op.kind], s.tables, s.created);
    CacheCoversNewRow(s.caches[op.kind], s.rows[op.kind], op.id, row, PointerTo(mid.tables, op.newTable));
    NewRowKeepsUnique(s.rows[op.kind], op.id, row);
    RecountKeepsNames(mid.tables, op.newTable, 1);
    hide Invariant, CacheCovers, TablesUnique, RowsUnique, CanStore, Valid, Extends;
    var s1 := Step(s, op).0;
    assert WellFormed(s1);
    assert GetTable(s1.caches[op.kind], op.newTable) == GetTable(s.caches[op.kind], op.newTable);
    assert !Alive(s1.tables, GetTable(s1.caches[op.kind], op.newTable));
  }

  const STORE_THEN_REMOVE := [Store(KEY_VALUE, Place(1, 1, 1), 0, 7, 7, Blob("a"), 0)] + [Remove(KEY_VALUE, 0)]

  const STORE_AGAIN := Store(KEY_VALUE, Place(1, 1, 2), 0, 8, 8, Blob("b"), 0)

  /** One table of id 0 with one row, which has the handle 0. */
  const TABLE_THERE :=
    OneTable(Table(1, 1, 1, 0, 1, "", 0), map[7 := Row(0, 7, 0, Blob("a"))], [Some(7)], map[7 := 0], 1)

  /** What is left after that table came and went: its end iterator, and nothing else. */
  const TABLE_GONE := TABLE_THERE.(tables := map[], rows := NO_ROWS,
                                   caches := FirstCache(Cache(map[0 := Cached(0, -2)], [TablePointer(0, 0)], [None], map[])))

  /** Another table of id 0, while the first one is cached. */
  const TABLE_AGAIN :=
    OneTable(Table(1, 1, 2, 0, 1, "", 1), map[8 := Row(0, 8, 0, Blob("b"))], [None, Some(8)], map[8 := 1], 2)

  function FirstCache(c: Cache): seq<Cache> { [c, EMPTY_CACHE, EMPTY_CACHE, EMPTY_CACHE] }

  function OneTable(table: Table, rows: Rows, objects: seq<Option<int>>, handles: map<int, int>, created: nat): Contracts {
    Contracts(map[0 := table], NO_ROWS[KEY_VALUE := rows],
              FirstCache(Cache(map[0 := Cached(0, -2)], [TablePointer(0, 0)], objects, handles)), created)
  }

  lemma NothingStored()
    ensures Invariant(NOTHING_STORED) && WellFormed(NOTHING_STORED)
  {
    FreshCachesInvariant(map[], NO_ROWS, 0);
  }

  lemma NoTables(s: Contracts, place: Place)
    requires s.tables == map[]
    ensures TablesUnique(s.tables) && FindTable(s.tables, place.code, place.scope, place.name) == None
  {
  }

  lemma TableStored()
    requires WellFormed(NOTHING_STORED)
    ensures Step(NOTHING_STORED, STORE_THEN_REMOVE[0]) == (TABLE_THERE, Iterator(0))
    ensures Allowed(NOTHING_STORED, STORE_THEN_REMOVE[0])
  {
    hide TablesUnique, RowsUnique, WellFormed;
    NoTables(NOTHING_STORED, Place(1, 1, 1));
    var s := Step(NOTHING_STORED, STORE_THEN_REMOVE[0]).0;
    assert s.tables == TABLE_THERE.tables;
    assert s.rows[KEY_VALUE] == map[7 := Row(0, 7, 0, Blob("a"))] && s.rows == TABLE_THERE.rows;
    assert s.caches[KEY_VALUE] == TABLE_THERE.caches[KEY_VALUE] && s.caches == TABLE_THERE.caches;
  }

  lemma TableRemoved()
    requires WellFormed(TABLE_THERE)
    ensures Step(TABLE_THERE, STORE_THEN_REMOVE[1]) == (TABLE_GONE, Iterator(0))
  {
    hide TablesUnique, RowsUnique, WellFormed;
    var s := Step(TABLE_THERE, STORE_THEN_REMOVE[1]).0;
    assert s.tables == map[];
    assert s.rows[KEY_VALUE] == map[] && s.rows == NO_ROWS;
    assert s.caches[KEY_VALUE] == TABLE_GONE.caches[KEY_VALUE] && s.caches == TABLE_GONE.caches;
  }

  lemma StoredThenRemoved()
    ensures WellFormed(NOTHING_STORED) && AllAllowed(NOTHING_STORED, STORE_THEN_REMOVE)
    ensures Run(NOTHING_STORED, STORE_THEN_REMOVE) == TABLE_GONE && Invariant(TABLE_GONE)
  {
    NothingStored();
    TableStored();
    StoreWithRoom(NOTHING_STORED, STORE_THEN_REMOVE[0]);
    assert WellFormed(TABLE_THERE);
    hide Invariant, Step, WellFormed;
    TableRemoved();
    RemoveKeeps(TABLE_THERE, STORE_THEN_REMOVE[1]);
    IsWellFormed(TABLE_GONE);
    TwoSteps(NOTHING_STORED, STORE_THEN_REMOVE);
  }

  lemma IsWellFormed(s: Contracts)
    requires Invariant(s)
    ensures WellFormed(s)
  {
  }

  lemma TwoSteps(s: Contracts, ops: seq<Op>)
    requires |ops| == 2 && WellFormed(s) && Allowed(s, ops[0]) && WellFormed(Step(s, ops[0]).0)
    requires var s1 := Step(s, ops[0]).0; Allowed(s1, ops[1]) && WellFormed(Step(s1, ops[1]).0)
    ensures AllAllowed(s, ops) && Run(s, ops) == Step(Step(s, ops[0]).0, ops[1]).0
  {
    assert KindOf(ops[0]) < KINDS && KindOf(ops[1]) < KINDS;
    hide HasRoom, FreshTable, Step, WellFormed;
    assert ops[1..][0] == ops[1] && ops[1..][1..] == [];
    var s2 := Step(Step(s, ops[0]).0, ops[1]).0;
    assert AllAllowed(s2, []) && Run(s2, []) == s2;
    assert AllAllowed(Step(s, ops[0]).0, ops[1..]);
  }

  lemma StoredAgain()
    requires WellFormed(TABLE_GONE)
    ensures Step(TABLE_GONE, STORE_AGAIN) == (TABLE_AGAIN, Iterator(1))
    ensures !FreshTable(TABLE_GONE, STORE_AGAIN.place, STORE_AGAIN.newTable)
  {
    hide TablesUnique, RowsUnique, WellFormed;
    NoTables(TABLE_GONE, STORE_AGAIN.place);
    var s := Step(TABLE_GONE, STORE_AGAIN).0;
    assert s.tables == TABLE_AGAIN.tables;
    assert s.rows[KEY_VALUE] == map[8 := Row(0, 8, 0, Blob("b"))] && s.rows == TABLE_AGAIN.rows;
    assert s.caches[KEY_VALUE] == TABLE_AGAIN.caches[KEY_VALUE] && s.caches == TABLE_AGAIN.caches;
    assert 0 in TABLE_GONE.caches[KEY_VALUE].tableCache;
  }

  lemma AgainDangles()
    requires WellFormed(TABLE_AGAIN) && WellFormed(TABLE_GONE)
    ensures Step(TABLE_GONE, Previous(-2)).1 == DanglingTable
    ensures Step(TABLE_AGAIN, Remove(KEY_VALUE, 1)).1 == DanglingTable
    ensures Step(TABLE_AGAIN, Next(1)).1 == Iterator(-2) && Step(TABLE_AGAIN, Previous(-2)).1 == DanglingTable
  {
    hide TablesUnique, RowsUnique, WellFormed;
    assert After(TABLE_AGAIN.rows[KEY_VALUE], 0, 8) == {};
  }

  /** The run of the original, which gives no id to a table and so leaves it at 0: a table comes and goes, and moving
      back from its end iterator follows a pointer to nothing.  The next table has the same id; its row cannot be
      removed, and moving forward from that row ends at the old end iterator. */
  lemma ReusedIdDangles()
    ensures WellFormed(NOTHING_STORED) && AllAllowed(NOTHING_STORED, STORE_THEN_REMOVE)
    ensures Run(NOTHING_STORED, STORE_THEN_REMOVE) == TABLE_GONE && WellFormed(TABLE_GONE)
    ensures Step(TABLE_GONE, Previous(-2)).1 == DanglingTable
    ensures !FreshTable(TABLE_GONE, STORE_AGAIN.place, STORE_AGAIN.newTable)
    ensures Step(TABLE_GONE, STORE_AGAIN) == (TABLE_AGAIN, Iterator(1)) && WellFormed(TABLE_AGAIN)
    ensures !Invariant(TABLE_AGAIN)
    ensures Step(TABLE_AGAIN, Remove(KEY_VALUE, 1)).1 == DanglingTable
    ensures Step(TABLE_AGAIN, Next(1)).1 == Iterator(-2) && Step(TABLE_AGAIN, Previous(-2)).1 == DanglingTable
  {
    StoredThenRemoved();
    assert WellFormed(TABLE_GONE);
    StoredAgain();
    StoreUnderOldId(TABLE_GONE, STORE_AGAIN);
    OldIdDangles(TABLE_GONE, STORE_AGAIN);
    AgainDangles();
    hide Invariant, Run, AllAllowed, Step, FreshTable, WellFormed;
  }

  // ----- a table that is full -----

  /** `n` rows of one table. */
  function ManyRows(n: nat): Rows {
    map id: int | 0 <= id < n :: Row(10, id, 0, Blob(""))
  }

  function ManyStored(n: nat): Contracts {
    Contracts(map[10 := NewTable(Place(1, 1, 1), 0, "", 0).(count := n)], NO_ROWS[KEY_VALUE := ManyRows(n)],
              [EMPTY_CACHE, EMPTY_CACHE, EMPTY_CACHE, EMPTY_CACHE], 1)
  }

  lemma {:induction false} ManyMembers(n: nat)
    ensures |Members(ManyRows(n), 10)| == n
  {
    if n == 0 {
      assert Members(ManyRows(0), 10) == {};
    } else {
      ManyMembers(n - 1);
      assert ManyRows(n) == ManyRows(n - 1)[n - 1 := Row(10, n - 1, 0, Blob(""))];
      MembersInsert(ManyRows(n - 1), n - 1, Row(10, n - 1, 0, Blob("")), 10);
    }
  }

  /** Any number of rows below 2^32 satisfies the invariant. */
  lemma ManyKeep(n: nat)
    requires n < COUNT_LIMIT
    ensures Invariant(ManyStored(n))
  {
    var s := ManyStored(n);
    ManyMembers(n);
    assert Members(map[], 10) == {};
    assert References(s.rows, 10) == n;
    assert RowsUnique(ManyRows(n));
    hide References, ManyRows;
    FreshCachesInvariant(s.tables, s.rows, 1);
  }

  /** A table can be full: one more row would break the invariant. */
  lemma FullTable()
    ensures var s, op := ManyStored(0xffff_ffff),
                         Store(KEY_VALUE, Place(1, 1, 1), 0, 0x1_0000_0000, 0x1_0000_0000, Blob(""), 0);
            Invariant(s) && !HasRoom(s, op) && !Invariant(Step(s, op).0)
  {
    var s := ManyStored(COUNT_LIMIT - 1);
    var op := Store(KEY_VALUE, Place(1, 1, 1), 0, COUNT_LIMIT, COUNT_LIMIT, Blob(""), 0);
    ManyKeep(COUNT_LIMIT - 1);
    assert Named(s.tables[10], 1, 1, 1);
    assert CanStore(s.rows[KEY_VALUE], op.id, Row(10, op.primary, op.payer, op.content));
    hide Invariant, CanStore, ManyRows;
    StoreKeeps(s, op);
  }

  // ----- key-value rows share one space of ids -----

  /** Every key-value row is stored under its own primary key. */
  ghost predicate IdsAreKeys(rows: Rows) {
    forall id | id in rows :: rows[id].primary == id
  }

  lemma StoreKeepsIds(s: Contracts, op: Op)
    requires WellFormed(s) && op.Store? && op.kind < KINDS && IdsAreKeys(s.rows[KEY_VALUE])
    requires op.kind == KEY_VALUE ==> op.id == op.primary
    ensures IdsAreKeys(Step(s, op).0.rows[KEY_VALUE])
  {
    hide TablesUnique, RowsUnique, CanStore, WithTable, WithObject;
  }

  lemma RemoveKeepsIds(s: Contracts, op: Op)
    requires WellFormed(s) && (op.Update? || op.Remove?) && op.kind < KINDS && IdsAreKeys(s.rows[KEY_VALUE])
    ensures IdsAreKeys(Step(s, op).0.rows[KEY_VALUE])
  {
    hide TablesUnique, RowsUnique, Lookup, Drop;
  }

  lemma StepKeepsIds(s: Contracts, op: Op)
    requires Invariant(s) && Allowed(s, op) && IdsAreKeys(s.rows[KEY_VALUE])
    ensures IdsAreKeys(Step(s, op).0.rows[KEY_VALUE])
  {
    StepKeeps(s, op);
    if op.Store? {
      StoreKeepsIds(s, op);
    } else if op.Update? || op.Remove? {
      RemoveKeepsIds(s, op);
    }
    hide Step, Invariant, CachesExtend, IdsAreKeys;
  }

  lemma {:induction false} RunKeepsIds(s: Contracts, ops: seq<Op>)
    requires Invariant(s) && AllAllowed(s, ops) && IdsAreKeys(s.rows[KEY_VALUE])
    ensures IdsAreKeys(Run(s, ops).rows[KEY_VALUE])
    decreases |ops|
  {
    hide IdsAreKeys, Step;
    if ops != [] {
      StepKeeps(s, ops[0]);
      StepKeepsIds(s, ops[0]);
      RunKeepsIds(Step(s, ops[0]).0, ops[1..]);
    }
  }

  /** Storing a key-value row succeeds exactly when no row of any table has its primary key, besides the table
      being there or creatable: primary keys are not separate per table. */
  lemma KeyValueStoreSucceeds(s: Contracts, op: Op)
    requires Invariant(s) && op.Store? && op.kind == KEY_VALUE && Allowed(s, op) && IdsAreKeys(s.rows[KEY_VALUE])
    ensures Step(s, op).1.Iterator? <==>
              && (FindTable(s.tables, op.place.code, op.place.scope, op.place.name).Some? || op.newTable !in s.tables)
              && forall id | id in s.rows[KEY_VALUE] :: s.rows[KEY_VALUE][id].primary != op.primary
  {
    var rows := s.rows[KEY_VALUE];
    if op.id in rows {
      assert rows[op.id].primary == op.primary;
    } else {
      forall id | id in rows
        ensures rows[id].primary != op.primary
      {
      }
    }
    hide Invariant, WellFormed;
  }

  const NO_ROWS: seq<Rows> := [map[], map[], map[], map[]]

  const NOTHING_STORED := Contracts(map[], NO_ROWS, [EMPTY_CACHE, EMPTY_CACHE, EMPTY_CACHE, EMPTY_CACHE], 0)

  const FIRST_STORE := Store(KEY_VALUE, Place(1, 1, 1), 0, 7, 7, Blob("a"), 10)

  const SECOND_STORE := Store(KEY_VALUE, Place(1, 1, 2), 0, 7, 7, Blob("b"), 11)

  lemma FirstStored()
    ensures Invariant(NOTHING_STORED) && Allowed(NOTHING_STORED, FIRST_STORE)
    ensures var (s1, r1) := Step(NOTHING_STORED, FIRST_STORE);
            && r1.Iterator? && s1.rows[KEY_VALUE] == map[7 := Row(10, 7, 0, Blob("a"))]
            && s1.tables == map[10 := NewTable(Place(1, 1, 1), 0, "", 0).(count := 1)]
  {
    hide WithTable, WithObject;
    FreshCachesInvariant(map[], NO_ROWS, 0);
  }

  lemma FirstStoredSees()
    requires WellFormed(NOTHING_STORED)
    ensures Unseen(Step(NOTHING_STORED, FIRST_STORE).0, SECOND_STORE.newTable)
  {
    hide TablesUnique, RowsUnique;
  }

  lemma NoTableNamed(s: Contracts, place: Place)
    requires TablesUnique(s.tables) && s.tables.Keys == {10} && !Named(s.tables[10], place.code, place.scope, place.name)
    ensures FindTable(s.tables, place.code, place.scope, place.name) == None
  {
  }

  /** Two tables, one key: in an allowed run the second store throws although its table has no row. */
  lemma SameKeyInAnotherTableThrows()
    ensures Invariant(NOTHING_STORED) && Allowed(NOTHING_STORED, FIRST_STORE)
    ensures var (s1, r1) := Step(NOTHING_STORED, FIRST_STORE);
            && Invariant(s1) && Allowed(s1, SECOND_STORE) && r1.Iterator?
            && Step(s1, SECOND_STORE).1 == Thrown
            && Members(s1.rows[KEY_VALUE], 11) == {}
  {
    hide WithTable, WithObject, CachesExtend, CacheCovers, PointersAlive, Counted, NoOrphans, Numbered, Unseen;
    FirstStored();
    FirstStoredSees();
    StoreWithRoom(NOTHING_STORED, FIRST_STORE);
    var s1 := Step(NOTHING_STORED, FIRST_STORE).0;
    NoTableNamed(s1, SECOND_STORE.place);
    var id: int := 7;
    assert id in s1.rows[KEY_VALUE];
  }
}
