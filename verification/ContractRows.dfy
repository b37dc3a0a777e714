/** Rows of the contract tables, and the ordered index over table and primary key. */
module ContractRows {
  import opened IteratorCaches

  datatype Content = Blob(bytes: string) | SecondaryKey(key: int)

  datatype Row = Row(table: int, primary: nat, payer: nat, content: Content)

  type Rows = map<int, Row>

  /** A row is determined by its table and its primary key. */
  ghost predicate RowsUnique(rows: Rows) {
    forall a, b | a in rows && b in rows && rows[a].table == rows[b].table && rows[a].primary == rows[b].primary :: a == b
  }

  /** The container accepts the row: neither its id nor its key is taken. */
  predicate CanStore(rows: Rows, id: int, row: Row) {
    id !in rows && forall other | other in rows :: !(rows[other].table == row.table && rows[other].primary == row.primary)
  }

  /** The order of the index: by table, then by primary key. */
  predicate KeyLess(table: int, primary: nat, table': int, primary': nat) {
    table < table' || (table == table' && primary < primary')
  }

  predicate Before(a: Row, b: Row) {
    KeyLess(a.table, a.primary, b.table, b.primary)
  }

  /** The ids whose key is at or after the given one. */
  function From(rows: Rows, table: int, primary: nat): set<int> {
    set id | id in rows && !KeyLess(rows[id].table, rows[id].primary, table, primary)
  }

  /** The ids whose key is after the given one. */
  function After(rows: Rows, table: int, primary: nat): set<int> {
    set id | id in rows && KeyLess(table, primary, rows[id].table, rows[id].primary)
  }

  /** The ids whose key is before the given one. */
  function UpTo(rows: Rows, table: int, primary: nat): set<int> {
    set id | id in rows && KeyLess(rows[id].table, rows[id].primary, table, primary)
  }

  ghost predicate IsFirst(rows: Rows, ids: set<int>, id: int)
    requires ids <= rows.Keys
  {
    id in ids && forall other | other in ids && other != id :: Before(rows[id], rows[other])
  }

  ghost predicate IsLast(rows: Rows, ids: set<int>, id: int)
    requires ids <= rows.Keys
  {
    id in ids && forall other | other in ids && other != id :: Before(rows[other], rows[id])
  }

  /** Different rows have different keys. */
  lemma KeysTotal(rows: Rows, a: int, b: int)
    requires RowsUnique(rows) && a in rows && b in rows && a != b
    ensures Before(rows[a], rows[b]) != Before(rows[b], rows[a])
  {
    assert !(rows[a].table == rows[b].table && rows[a].primary == rows[b].primary);
  }

  lemma {:induction false} FirstExists(rows: Rows, ids: set<int>) returns (first: int)
    requires RowsUnique(rows) && ids <= rows.Keys && ids != {}
    ensures IsFirst(rows, ids, first)
    decreases |ids|
  {
    assert (forall i :: i !in ids) ==> ids == {};
    var any :| any in ids;
    var rest := ids - {any};
    first := any;
    if rest != {} {
      var next := FirstExists(rows, rest);
      KeysTotal(rows, any, next);
      first := if Before(rows[any], rows[next]) then any else next;
      forall other | other in ids && other != first
        ensures Before(rows[first], rows[other])
      {
        if other != any && other != next {
          assert other in rest;
          assert Before(rows[next], rows[other]);
        }
      }
    } else {
      assert ids == {any};
    }
  }

  lemma {:induction false} LastExists(rows: Rows, ids: set<int>) returns (last: int)
    requires RowsUnique(rows) && ids <= rows.Keys && ids != {}
    ensures IsLast(rows, ids, last)
    decreases |ids|
  {
    assert (forall i :: i !in ids) ==> ids == {};
    var any :| any in ids;
    var rest := ids - {any};
    last := any;
    if rest != {} {
      var next := LastExists(rows, rest);
      KeysTotal(rows, any, next);
      last := if Before(rows[next], rows[any]) then any else next;
      forall other | other in ids && other != last
        ensures Before(rows[other], rows[last])
      {
        if other != any && other != next {
          assert other in rest;
          assert Before(rows[other], rows[next]);
        }
      }
    } else {
      assert ids == {any};
    }
  }

  /** A set of rows that is not empty has a first and a last row. */
  lemma EndsExist(rows: Rows, ids: set<int>)
    requires RowsUnique(rows) && ids <= rows.Keys && ids != {}
    ensures exists id :: IsFirst(rows, ids, id)
    ensures exists id :: IsLast(rows, ids, id)
  {
    var first := FirstExists(rows, ids);
    var last := LastExists(rows, ids);
  }

  /** The first row of a set of rows in index order; none if the set is empty. */
  function First(rows: Rows, ids: set<int>): (first: Option<int>)
    requires RowsUnique(rows) && ids <= rows.Keys
    ensures first.None? <==> ids == {}
    ensures first.Some? ==> IsFirst(rows, ids, first.value)
  {
    if ids == {} then None
    else
      EndsExist(rows, ids);
      var id :| id in ids && forall other | other in ids && other != id :: Before(rows[id], rows[other]);
      Some(id)
  }

  /** The last row of a set of rows in index order; none if the set is empty. */
  function Last(rows: Rows, ids: set<int>): (last: Option<int>)
    requires RowsUnique(rows) && ids <= rows.Keys
    ensures last.None? <==> ids == {}
    ensures last.Some? ==> IsLast(rows, ids, last.value)
  {
    if ids == {} then None
    else
      EndsExist(rows, ids);
      var id :| id in ids && forall other | other in ids && other != id :: Before(rows[other], rows[id]);
      Some(id)
  }
}
