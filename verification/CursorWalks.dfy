/** Walking a contract table with cursors: the walk visits the sorted keys of the table and nothing else. */
module CursorWalks {
  import opened IteratorCaches
  import opened ContractRows
  import opened ContractTables

  /** The primary keys of a set of rows. */
  ghost function Keys(rows: Rows, ids: set<int>): set<nat>
    requires ids <= rows.Keys
  {
    set id | id in ids :: rows[id].primary
  }

  ghost predicate StrictlyIncreasing(keys: seq<nat>) {
    forall i, j | 0 <= i < j < |keys| :: keys[i] < keys[j]
  }

  /** What a walk that starts at a handle yields: the keys it visits, its last outcome, and the state it leaves.
      It keeps moving forward until it leaves the rows. */
  ghost function Walk(s: Contracts, handle: int): (seq<nat>, Outcome, Contracts)
    requires Invariant(s)
    decreases |Remaining(s, handle)|
  {
    match Lookup(s.caches[KEY_VALUE], handle)
    case None => ([], Iterator(handle), s)
    case Some(id) =>
      NextKeeps(s, handle);
      var (s', r) := NextStep(s, handle);
      var key := s.rows[KEY_VALUE][id].primary;
      if r.RowAt? then
        NextShrinks(s, handle);
        var (keys, last, end) := Walk(s', r.handle);
        ([key] + keys, last, end)
      else ([key], r, s')
  }

  /** The rows still ahead of a cursor, itself included. */
  ghost function Remaining(s: Contracts, handle: int): set<int>
    requires WellFormed(s)
  {
    var rows := s.rows[KEY_VALUE];
    match Lookup(s.caches[KEY_VALUE], handle)
    case None => {}
    case Some(id) => if id in rows then Above(rows, rows[id].table, rows[id].primary) + {id} else {}
  }

  /** The rows above a row are its successor and the rows above that. */
  lemma AboveChain(rows: Rows, id: int, next: int)
    requires id in rows && IsFirst(rows, Above(rows, rows[id].table, rows[id].primary), next)
    ensures rows[next].table == rows[id].table && rows[id].primary < rows[next].primary
    ensures Above(rows, rows[id].table, rows[id].primary) == Above(rows, rows[next].table, rows[next].primary) + {next}
  {
    var above := Above(rows, rows[id].table, rows[id].primary);
    forall other | other in above && other != next
      ensures other in Above(rows, rows[next].table, rows[next].primary)
    {
      assert Before(rows[next], rows[other]);
    }
  }

  /** Moving forward from a row, when there is a row ahead. */
  lemma NextMoves(s: Contracts, handle: int)
    requires Invariant(s) && NextStep(s, handle).1.RowAt?
    ensures WellFormed(s)
    ensures var (s', r) := NextStep(s, handle);
            && Invariant(s') && WellFormed(s') && s'.rows == s.rows && s'.tables == s.tables
            && Lookup(s.caches[KEY_VALUE], handle).Some? && Lookup(s'.caches[KEY_VALUE], r.handle).Some?
            && var rows, id := s.rows[KEY_VALUE], Lookup(s.caches[KEY_VALUE], handle).value;
               var next := Lookup(s'.caches[KEY_VALUE], r.handle).value;
               && id in rows && next in rows && r.primary == rows[next].primary
               && IsFirst(rows, Above(rows, rows[id].table, rows[id].primary), next)
  {
    assert WellFormed(s);
    hide CachesExtend, NextStep, IsFirst, TablesUnique, RowsUnique, Counted, NoOrphans, CacheCovers, PointersAlive, Numbered;
    NextKeeps(s, handle);
  }

  /** Moving forward takes the current row, and no other, out of the rows ahead. */
  lemma NextShrinks(s: Contracts, handle: int)
    requires Invariant(s) && NextStep(s, handle).1.RowAt?
    ensures var (s', r) := NextStep(s, handle);
            && Invariant(s') && s'.rows == s.rows && s'.tables == s.tables
            && Lookup(s.caches[KEY_VALUE], handle).Some? && Lookup(s'.caches[KEY_VALUE], r.handle).Some?
            && var rows, id := s.rows[KEY_VALUE], Lookup(s.caches[KEY_VALUE], handle).value;
               var next := Lookup(s'.caches[KEY_VALUE], r.handle).value;
               && id in rows && next in rows && id !in Remaining(s', r.handle)
               && rows[next].table == rows[id].table && rows[id].primary < rows[next].primary == r.primary
               && Remaining(s', r.handle) + {id} == Remaining(s, handle)
               && |Remaining(s', r.handle)| < |Remaining(s, handle)|
  {
    NextMoves(s, handle);
    hide Invariant, NextStep, WellFormed, IsFirst;
    var (s', r) := NextStep(s, handle);
    var rows, id := s.rows[KEY_VALUE], Lookup(s.caches[KEY_VALUE], handle).value;
    var next := Lookup(s'.caches[KEY_VALUE], r.handle).value;
    AboveChain(rows, id, next);
    assert Remaining(s', r.handle) == Above(rows, rows[id].table, rows[id].primary);
  }

  /** What a walk from a handle must have done. */
  ghost predicate Visited(s: Contracts, handle: int, keys: seq<nat>, last: Outcome, end: Contracts)
    requires WellFormed(s) && Lookup(s.caches[KEY_VALUE], handle).Some?
  {
    var rows, id := s.rows[KEY_VALUE], Lookup(s.caches[KEY_VALUE], handle).value;
    && id in rows && KeysOf(rows, Remaining(s, handle), id, keys)
    && Invariant(end) && end.rows == s.rows && end.tables == s.tables
    && last.Iterator? && EndsAt(end, last.handle, rows[id].table)
  }

  /** The end iterator of a table that is there. */
  ghost predicate EndsAt(s: Contracts, handle: int, t: int)
    requires WellFormed(s)
  {
    t in s.tables && IsEndOf(s.caches[KEY_VALUE], handle, PointerTo(s.tables, t))
  }

  /** The keys of the rows ahead, in strictly increasing order, that of the current row first. */
  ghost predicate KeysOf(rows: Rows, ahead: set<int>, id: int, keys: seq<nat>)
    requires ahead <= rows.Keys && id in rows
  {
    && StrictlyIncreasing(keys) && keys != [] && keys[0] == rows[id].primary
    && (set key | key in keys) == Keys(rows, ahead)
  }

  /** A step of a walk, in terms of the walk that remains. */
  lemma WalkUnfolds(s: Contracts, handle: int)
    requires Invariant(s) && Lookup(s.caches[KEY_VALUE], handle).Some?
    ensures var id := Lookup(s.caches[KEY_VALUE], handle).value;
            var (s', r) := NextStep(s, handle);
            && id in s.rows[KEY_VALUE] && Invariant(s')
            && var key := s.rows[KEY_VALUE][id].primary;
               Walk(s, handle) ==
                 if r.RowAt? then var (keys, last, end) := Walk(s', r.handle); ([key] + keys, last, end)
                 else ([key], r, s')
  {
    assert WellFormed(s);
    hide Invariant, CachesExtend, NextStep, TablesUnique, RowsUnique;
    NextKeeps(s, handle);
  }

  /** Moving forward from the last row of a table. */
  lemma NextEnds(s: Contracts, handle: int)
    requires Invariant(s) && Lookup(s.caches[KEY_VALUE], handle).Some? && !NextStep(s, handle).1.RowAt?
    ensures WellFormed(s) && Lookup(s.caches[KEY_VALUE], handle).value in s.rows[KEY_VALUE]
    ensures var (s', r) := NextStep(s, handle);
            var rows, id := s.rows[KEY_VALUE], Lookup(s.caches[KEY_VALUE], handle).value;
            s' == s && r.Iterator? && EndsAt(s, r.handle, rows[id].table)
            && Above(rows, rows[id].table, rows[id].primary) == {}
  {
    assert WellFormed(s);
    hide CachesExtend, NextStep, IsFirst, TablesUnique, RowsUnique, Counted, NoOrphans, CacheCovers, PointersAlive, Numbered;
    NextKeeps(s, handle);
  }

  lemma LastVisited(s: Contracts, handle: int)
    requires Invariant(s) && Lookup(s.caches[KEY_VALUE], handle).Some? && !NextStep(s, handle).1.RowAt?
    ensures var id := Lookup(s.caches[KEY_VALUE], handle).value;
            && id in s.rows[KEY_VALUE]
            && Visited(s, handle, [s.rows[KEY_VALUE][id].primary], NextStep(s, handle).1, NextStep(s, handle).0)
  {
    NextEnds(s, handle);
    hide Invariant, NextStep, WellFormed, EndsAt;
    var rows, id := s.rows[KEY_VALUE], Lookup(s.caches[KEY_VALUE], handle).value;
    assert Remaining(s, handle) == {id};
    assert (set key | key in [rows[id].primary]) == {rows[id].primary} == Keys(rows, {id});
  }

  lemma MoreVisited(s: Contracts, handle: int, keys: seq<nat>, last: Outcome, end: Contracts)
    requires Invariant(s) && NextStep(s, handle).1.RowAt?
    requires var (s', r) := NextStep(s, handle);
             WellFormed(s') && Lookup(s'.caches[KEY_VALUE], r.handle).Some? && Visited(s', r.handle, keys, last, end)
    ensures Lookup(s.caches[KEY_VALUE], handle).Some?
    ensures var id := Lookup(s.caches[KEY_VALUE], handle).value;
            id in s.rows[KEY_VALUE] && Visited(s, handle, [s.rows[KEY_VALUE][id].primary] + keys, last, end)
  {
    NextMoves(s, handle);
    hide Invariant, NextStep, WellFormed, EndsAt, KeysOf, Remaining, IsFirst;
    NextShrinks(s, handle);
    var (s', r) := NextStep(s, handle);
    var rows, id := s.rows[KEY_VALUE], Lookup(s.caches[KEY_VALUE], handle).value;
    MoreKeys(rows, Remaining(s', r.handle), Lookup(s'.caches[KEY_VALUE], r.handle).value, id, keys);
  }

  lemma MoreKeys(rows: Rows, ahead: set<int>, next: int, id: int, keys: seq<nat>)
    requires ahead <= rows.Keys && next in rows && id in rows && KeysOf(rows, ahead, next, keys)
    requires rows[id].primary < rows[next].primary
    ensures KeysOf(rows, ahead + {id}, id, [rows[id].primary] + keys)
  {
    hide Keys, StrictlyIncreasing;
    KeysAdd(rows, ahead, id);
    Prepended(rows[id].primary, keys);
  }

  /** A walk visits the keys of exactly the rows ahead, in strictly increasing order, ends with the end iterator
      of the table, and changes nothing but the handle table. */
  lemma {:induction false} WalkVisits(s: Contracts, handle: int)
    requires Invariant(s) && Lookup(s.caches[KEY_VALUE], handle).Some?
    ensures var (keys, last, end) := Walk(s, handle); Visited(s, handle, keys, last, end)
    decreases |Remaining(s, handle)|
  {
    WalkUnfolds(s, handle);
    var (s', r) := NextStep(s, handle);
    if r.RowAt? {
      NextShrinks(s, handle);
      WalkVisits(s', r.handle);
      var (keys, last, end) := Walk(s', r.handle);
      MoreVisited(s, handle, keys, last, end);
    } else {
      LastVisited(s, handle);
    }
    hide Invariant, CachesExtend, NextStep, Remaining, Visited;
  }

  lemma Prepended(key: nat, keys: seq<nat>)
    requires StrictlyIncreasing(keys) && keys != [] && key < keys[0]
    ensures StrictlyIncreasing([key] + keys)
    ensures (set k | k in [key] + keys) == (set k | k in keys) + {key}
  {
    assert forall k :: k in [key] + keys <==> k == key || k in keys;
  }

  lemma KeysAdd(rows: Rows, ids: set<int>, id: int)
    requires ids <= rows.Keys && id in rows
    ensures Keys(rows, ids + {id}) == Keys(rows, ids) + {rows[id].primary}
  {
  }

  /** The keys of a table at or above a bound. */
  ghost function KeysFrom(rows: Rows, t: int, bound: nat): set<nat> {
    set id | id in rows && rows[id].table == t && rows[id].primary >= bound :: rows[id].primary
  }

  lemma NoKeys(rows: Rows, t: int, bound: nat)
    requires Matches(rows, t, LowerBound(bound)) == {}
    ensures KeysFrom(rows, t, bound) == {}
  {
    forall id | id in rows && rows[id].table == t
      ensures rows[id].primary < bound
    {
      assert id !in Matches(rows, t, LowerBound(bound));
    }
  }

  lemma WalkFromEnd(s: Contracts, handle: int, t: int)
    requires Invariant(s) && EndsAt(s, handle, t)
    ensures Walk(s, handle) == ([], Iterator(handle), s)
  {
    hide Invariant, NextStep;
  }

  /** The walk from the first row at or above a bound. */
  lemma WalkFromRow(s: Contracts, handle: int, t: int, bound: nat)
    requires Invariant(s) && Lookup(s.caches[KEY_VALUE], handle).Some?
    requires IsFirst(s.rows[KEY_VALUE], Matches(s.rows[KEY_VALUE], t, LowerBound(bound)),
                     Lookup(s.caches[KEY_VALUE], handle).value)
    ensures var (keys, last, end) := Walk(s, handle);
            && StrictlyIncreasing(keys) && (set key | key in keys) == KeysFrom(s.rows[KEY_VALUE], t, bound)
            && Invariant(end) && last.Iterator? && EndsAt(end, last.handle, t)
  {
    var rows, id := s.rows[KEY_VALUE], Lookup(s.caches[KEY_VALUE], handle).value;
    assert rows[id].table == t;
    RemainingFromBound(rows, t, bound, id);
    WalkVisits(s, handle);
    hide Walk, Invariant, KeysFrom, Keys, StrictlyIncreasing, IsFirst, Matches, EndsAt;
  }

  lemma NothingVisited()
    ensures StrictlyIncreasing([]) && (set key: nat | key in []) == {}
  {
  }

  /** A lower bound followed by moving forward until the rows end yields the sorted keys of the table at or
      above the bound, and then the end iterator of the table. */
  lemma LowerBoundWalk(s: Contracts, place: Place, bound: nat)
    requires Invariant(s) && FindTable(s.tables, place.code, place.scope, place.name).Some?
    ensures var t := FindTable(s.tables, place.code, place.scope, place.name).value;
            var (s1, r) := SeekStep(s, place, LowerBound(bound));
            && Invariant(s1) && r.Iterator?
            && var (keys, last, end) := Walk(s1, r.handle);
               && StrictlyIncreasing(keys) && (set key | key in keys) == KeysFrom(s.rows[KEY_VALUE], t, bound)
               && Invariant(end) && last.Iterator? && EndsAt(end, last.handle, t)
  {
    hide KeysFrom, Matches, Keys, IsFirst, StrictlyIncreasing, Walk, Remaining, Visited;
    SeekKeeps(s, place, LowerBound(bound));
    hide Invariant, CachesExtend, SeekStep;
    var t := FindTable(s.tables, place.code, place.scope, place.name).value;
    var rows := s.rows[KEY_VALUE];
    var (s1, r) := SeekStep(s, place, LowerBound(bound));
    if Matches(rows, t, LowerBound(bound)) == {} {
      NoKeys(rows, t, bound);
      WalkFromEnd(s1, r.handle, t);
      NothingVisited();
    } else {
      WalkFromRow(s1, r.handle, t, bound);
    }
  }

  /** The first row at or above a bound and the rows above it are the rows at or above the bound. */
  lemma RemainingFromBound(rows: Rows, t: int, bound: nat, id: int)
    requires IsFirst(rows, Matches(rows, t, LowerBound(bound)), id)
    ensures KeysFrom(rows, t, bound) == Keys(rows, Above(rows, t, rows[id].primary) + {id})
  {
    forall other | other in rows && rows[other].table == t && rows[other].primary >= bound
      ensures other in Above(rows, t, rows[id].primary) + {id}
    {
      assert other in Matches(rows, t, LowerBound(bound));
      assert other != id ==> Before(rows[id], rows[other]);
    }
  }

  /** Visiting a row that has a handle changes nothing and gives that handle. */
  lemma VisitKnown(s: Contracts, handle: int)
    requires Invariant(s) && Lookup(s.caches[KEY_VALUE], handle).Some?
    ensures var id := Lookup(s.caches[KEY_VALUE], handle).value;
            && id in s.rows[KEY_VALUE] && Visit(s, id) == (s, RowAt(handle, s.rows[KEY_VALUE][id].primary))
  {
    assert CacheCovers(s.caches[KEY_VALUE], s.rows[KEY_VALUE]);
    assert s.caches[KEY_VALUE := s.caches[KEY_VALUE]] == s.caches;
  }

  lemma BackFromRow(s: Contracts, handle: int, id: int)
    requires WellFormed(s) && handle >= 0 && Lookup(s.caches[KEY_VALUE], handle).Some?
    requires var rows, next := s.rows[KEY_VALUE], Lookup(s.caches[KEY_VALUE], handle).value;
             next in rows && id in rows && IsFirst(rows, Above(rows, rows[id].table, rows[id].primary), next)
    ensures PreviousStep(s, handle) == Visit(s, id)
  {
    var rows, next := s.rows[KEY_VALUE], Lookup(s.caches[KEY_VALUE], handle).value;
    PredecessorOfSuccessor(rows, id, next);
    PreviousInTable(rows, rows[next].table, rows[next].primary);
    hide WellFormed;
  }

  lemma BackFromEnd(s: Contracts, handle: int, id: int)
    requires WellFormed(s) && handle < -1 && id in s.rows[KEY_VALUE]
    requires EndsAt(s, handle, s.rows[KEY_VALUE][id].table)
    requires Above(s.rows[KEY_VALUE], s.rows[KEY_VALUE][id].table, s.rows[KEY_VALUE][id].primary) == {}
    ensures PreviousStep(s, handle) == Visit(s, id)
  {
    LargestOfTable(s.rows[KEY_VALUE], id);
    LastOfTable(s.rows[KEY_VALUE], s.rows[KEY_VALUE][id].table);
    hide WellFormed;
  }

  /** Moving back undoes moving forward: from the next row, and from the end iterator after the last row, it
      returns the handle that was moved forward, and leaves the state alone. */
  lemma PreviousInvertsNext(s: Contracts, handle: int)
    requires Invariant(s) && Lookup(s.caches[KEY_VALUE], handle).Some?
    ensures var (s1, r1) := NextStep(s, handle);
            && WellFormed(s1) && (r1.RowAt? || r1.Iterator?)
            && var (s2, r2) := PreviousStep(s1, r1.handle);
               s2 == s1 && r2.RowAt? && r2.handle == handle
  {
    NextKeeps(s, handle);
    var id := Lookup(s.caches[KEY_VALUE], handle).value;
    var (s1, r1) := NextStep(s, handle);
    assert Lookup(s1.caches[KEY_VALUE], handle) == Some(id);
    VisitKnown(s1, handle);
    if r1.RowAt? {
      BackFromRow(s1, r1.handle, id);
    } else {
      BackFromEnd(s1, r1.handle, id);
    }
    hide NextStep, PreviousStep, CachesExtend;
  }

  lemma PredecessorOfSuccessor(rows: Rows, id: int, next: int)
    requires RowsUnique(rows) && id in rows && IsFirst(rows, Above(rows, rows[id].table, rows[id].primary), next)
    ensures IsLast(rows, Below(rows, rows[next].table, rows[next].primary), id)
    ensures forall other :: IsLast(rows, Below(rows, rows[next].table, rows[next].primary), other) ==> other == id
  {
    forall other | other in Below(rows, rows[next].table, rows[next].primary) && other != id
      ensures Before(rows[other], rows[id])
    {
      KeysTotal(rows, other, id);
      assert other !in Above(rows, rows[id].table, rows[id].primary);
    }
  }

  lemma LargestOfTable(rows: Rows, id: int)
    requires RowsUnique(rows) && id in rows && Above(rows, rows[id].table, rows[id].primary) == {}
    ensures IsLast(rows, Members(rows, rows[id].table), id)
    ensures forall other :: IsLast(rows, Members(rows, rows[id].table), other) ==> other == id
  {
    forall other | other in Members(rows, rows[id].table) && other != id
      ensures Before(rows[other], rows[id])
    {
      KeysTotal(rows, other, id);
      assert other !in Above(rows, rows[id].table, rows[id].primary);
    }
  }
}
