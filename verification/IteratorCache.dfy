/** The handle table of one row kind: integer handles for live rows, and one end iterator for each table seen.

A row is identified with its id, which is unique among live rows.  A table is known by a pointer, which outlives the
table object it points to.  Handles of rows are the positions 0, 1, 2, ... in the order of issue, end iterators are
-2, -3, ..., and -1 means no iterator.
 */
module IteratorCaches {

  datatype Option<+T> = None | Some(value: T)

  /** A pointer to a table object: the id in that object, and which object it is, since another object may get the
      same id later. */
  datatype TablePointer = TablePointer(id: int, instance: nat)

  /** What is cached for a table id: the object a pointer was taken of, and the end iterator. */
  datatype Cached = Cached(instance: nat, end: int)

  /** `tableCache` gives pointer and end iterator of a table id, `endToTable` the pointer of an end iterator. */
  datatype Cache = Cache(
    tableCache: map<int, Cached>,
    endToTable: seq<TablePointer>,
    objects: seq<Option<int>>,
    handles: map<int, int>)

  const EMPTY_CACHE := Cache(map[], [], [], map[])

  function IndexToEnd(index: nat): int { -(index + 2) }

  function EndToIndex(end: int): int { -end - 2 }

  /** Returns the end iterator of the table's id, issuing a new one for an id not seen before. */
  function WithTable(c: Cache, table: TablePointer): (Cache, int) {
    if table.id in c.tableCache then (c, c.tableCache[table.id].end)
    else
      var end := IndexToEnd(|c.endToTable|);
      (c.(tableCache := c.tableCache[table.id := Cached(table.instance, end)], endToTable := c.endToTable + [table]), end)
  }

  /** The pointer cached for a table id. */
  function GetTable(c: Cache, id: int): TablePointer
    requires id in c.tableCache
  {
    TablePointer(id, c.tableCache[id].instance)
  }

  function FindTableByEnd(c: Cache, end: int): Option<TablePointer>
    requires end < -1
  {
    if EndToIndex(end) >= |c.endToTable| then None else Some(c.endToTable[EndToIndex(end)])
  }

  /** The row behind a handle; none for end iterators, handles never issued and removed rows. */
  function Lookup(c: Cache, handle: int): Option<int> {
    if 0 <= handle < |c.objects| then c.objects[handle] else None
  }

  /** Returns the handle of the row, issuing a new one for a row without a handle. */
  function WithObject(c: Cache, row: int): (Cache, int) {
    if row in c.handles then (c, c.handles[row])
    else (c.(objects := c.objects + [Some(row)], handles := c.handles[row := |c.objects|]), |c.objects|)
  }

  function Drop(c: Cache, handle: int): Cache
    requires 0 <= handle < |c.objects|
  {
    match c.objects[handle]
    case None => c
    case Some(row) => c.(objects := c.objects[handle := None], handles := c.handles - {row})
  }

  /** Rows and live slots are in bijection, and so are table ids and end iterators. */
  ghost predicate Valid(c: Cache) {
    && (forall row | row in c.handles :: 0 <= c.handles[row] < |c.objects| && c.objects[c.handles[row]] == Some(row))
    && (forall i: nat | i < |c.objects| && c.objects[i].Some? ::
          c.objects[i].value in c.handles && c.handles[c.objects[i].value] == i)
    && (forall t | t in c.tableCache :: IsEndOf(c, c.tableCache[t].end, GetTable(c, t)))
    && (forall i: nat | i < |c.endToTable| :: var t := c.endToTable[i];
          t.id in c.tableCache && c.tableCache[t.id] == Cached(t.instance, IndexToEnd(i)))
  }

  /** The end iterator decodes to the table. */
  predicate IsEndOf(c: Cache, end: int, table: TablePointer) {
    end < -1 && FindTableByEnd(c, end) == Some(table)
  }

  /** `later` still knows every end iterator of `c`, and every handle denotes what it denoted or nothing. */
  ghost predicate Extends(later: Cache, c: Cache) {
    && c.endToTable <= later.endToTable
    && |c.objects| <= |later.objects|
    && (forall i: nat | i < |c.objects| :: later.objects[i] == c.objects[i] || later.objects[i] == None)
    && (forall t | t in c.tableCache :: t in later.tableCache && later.tableCache[t] == c.tableCache[t])
  }

  lemma ExtendsTransitive(a: Cache, b: Cache, c: Cache)
    requires Extends(b, a) && Extends(c, b)
    ensures Extends(c, a)
  {
  }

  /** A cached table has an end iterator that is neither -1 nor a row handle and that belongs to its id alone.  It
      belongs to the table itself unless another table had the id before. */
  lemma CacheTableKeepsValid(c: Cache, table: TablePointer)
    requires Valid(c)
    ensures var (d, end) := WithTable(c, table);
            && Valid(d) && Extends(d, c) && table.id in d.tableCache && d.tableCache[table.id].end == end
            && (IsEndOf(d, end, table) <==> table.id in c.tableCache ==> c.tableCache[table.id].instance == table.instance)
            && d.tableCache.Keys == c.tableCache.Keys + {table.id}
            && (table.id !in c.tableCache ==> d.tableCache[table.id].instance == table.instance)
            && d.objects == c.objects && d.handles == c.handles
  {
  }

  /** A row gets the handle it has, or one that was never issued. */
  lemma AddKeepsValid(c: Cache, row: int)
    requires Valid(c)
    ensures var (d, handle) := WithObject(c, row);
            && Valid(d) && Extends(d, c) && Lookup(d, handle) == Some(row) && 0 <= handle
            && (row in c.handles ==> d == c && Lookup(c, handle) == Some(row))
            && (row !in c.handles ==> handle == |c.objects|)
            && d.tableCache == c.tableCache && d.endToTable == c.endToTable && c.objects <= d.objects
            && d.handles.Keys == c.handles.Keys + {row}
  {
  }

  /** Dropping a handle kills that handle and no other. */
  lemma DropKeepsValid(c: Cache, handle: int)
    requires Valid(c) && Lookup(c, handle).Some?
    ensures var d := Drop(c, handle);
            && Valid(d) && Extends(d, c) && Lookup(d, handle) == None
            && d.handles == c.handles - {Lookup(c, handle).value}
            && d.tableCache == c.tableCache && d.endToTable == c.endToTable
            && (forall other: int | other != handle :: Lookup(d, other) == Lookup(c, other))
  {
  }

  /** Distinct live handles denote distinct rows. */
  lemma HandlesInjective(c: Cache, h1: int, h2: int)
    requires Valid(c) && Lookup(c, h1).Some? && Lookup(c, h1) == Lookup(c, h2)
    ensures h1 == h2
  {
  }

  /** The handle table as an object whose fields the operations update. */
  class IteratorCache {
    var tableCache: map<int, Cached>
    var endToTable: seq<TablePointer>
    var objects: seq<Option<int>>
    var handles: map<int, int>

    ghost function Contents(): Cache
      reads this
    {
      Cache(tableCache, endToTable, objects, handles)
    }

    constructor ()
      ensures Contents() == EMPTY_CACHE && Valid(Contents())
    {
      tableCache, endToTable, objects, handles := map[], [], [], map[];
    }

    method CacheTable(table: TablePointer) returns (end: int)
      requires Valid(Contents())
      modifies this
      ensures (Contents(), end) == WithTable(old(Contents()), table)
      ensures Valid(Contents()) && Extends(Contents(), old(Contents()))
      ensures table.id !in old(tableCache) ==> IsEndOf(Contents(), end, table)
    {
      CacheTableKeepsValid(Contents(), table);
      if table.id in tableCache { return tableCache[table.id].end; }
      end := IndexToEnd(|endToTable|);
      endToTable := endToTable + [table];
      tableCache := tableCache[table.id := Cached(table.instance, end)];
    }

    method FindTableByEndIterator(end: int) returns (table: Option<TablePointer>)
      requires end < -1
      ensures table == FindTableByEnd(Contents(), end)
      ensures Valid(Contents()) && table.Some? ==>
                table.value.id in tableCache && tableCache[table.value.id] == Cached(table.value.instance, end)
    {
      var index := EndToIndex(end);
      if index >= |endToTable| { return None; }
      table := Some(endToTable[index]);
    }

    method Get(handle: int) returns (row: Option<int>)
      ensures row == Lookup(Contents(), handle)
      ensures Valid(Contents()) && row.Some? ==> row.value in handles && handles[row.value] == handle
    {
      if 0 <= handle < |objects| {
        row := objects[handle];
      } else {
        row := None;
      }
    }

    method Add(row: int) returns (handle: int)
      requires Valid(Contents())
      modifies this
      ensures (Contents(), handle) == WithObject(old(Contents()), row)
      ensures Valid(Contents()) && Extends(Contents(), old(Contents()))
    {
      AddKeepsValid(Contents(), row);
      if row in handles { return handles[row]; }
      objects := objects + [Some(row)];
      handles := handles[row := |objects| - 1];
      handle := |objects| - 1;
    }

    method Remove(handle: int)
      requires Valid(Contents()) && 0 <= handle < |objects|
      modifies this
      ensures Contents() == Drop(old(Contents()), handle)
      ensures Valid(Contents()) && Extends(Contents(), old(Contents()))
    {
      if objects[handle].Some? {
        DropKeepsValid(Contents(), handle);
      }
      var row := objects[handle];
      if row == None { return; }
      objects := objects[handle := None];
      handles := handles - {row.value};
    }
  }
}
