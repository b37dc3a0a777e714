/** The in-place Huffman tree construction of tdefl (Moffat and Katajainen).

The array first holds the frequencies of the symbols, in ascending order.  The first pass merges the two rarest
trees again and again and leaves in each slot of a merged tree the index of its parent; the second pass turns
parents into depths; the third turns the depths of inner nodes into the depths of leaves.
 */
module MinimumRedundancy {
  import opened BitStrings
  import opened Deflate
  import opened HuffmanTrees
  import opened HuffmanCost

  // ----- first pass: parents -----

  /** The array in the middle of the first pass: parents of the trees taken again, weights of the other trees, and
      frequencies of the leaves not yet taken. */
  ghost predicate Holds(a: seq<nat>, keys: seq<nat>, m: Merging) {
    && |a| == |keys| && |m.parents| <= |m.weights| < |a|
    && (forall i | 0 <= i < |m.parents| :: a[i] == m.parents[i])
    && (forall i | |m.parents| <= i < |m.weights| :: a[i] == m.weights[i])
    && (forall i | m.leaf <= i < |a| :: a[i] == keys[i])
  }

  /** Takes the rarest tree or leaf that is left; returns its frequency. */
  method TakeRarest(a: array<nat>, root: nat, leaf: nat, next: nat, ghost keys: seq<nat>, ghost m: Merging)
    returns (weight: nat, root': nat, leaf': nat)
    requires Holds(a[..], keys, m) && CanTake(keys, m) && m.leaf <= |keys| && |m.weights| < m.leaf
    requires root == |m.parents| && leaf == m.leaf && next == |m.weights|
    modifies a
    ensures weight == Taken(keys, m) && Holds(a[..], keys, AfterTake(keys, m))
    ensures root' == |AfterTake(keys, m).parents| && leaf' == AfterTake(keys, m).leaf
  {
    if leaf >= a.Length || (root < next && a[root] < a[leaf]) {
      weight := a[root];
      a[root] := next;
      root', leaf' := root + 1, leaf;
    } else {
      weight := a[leaf];
      root', leaf' := root, leaf + 1;
    }
  }

  /** Merges the two rarest trees into a new one. */
  method MergeTwo(a: array<nat>, root: nat, leaf: nat, next: nat, ghost keys: seq<nat>, ghost m: Merging)
    returns (root': nat, leaf': nat)
    requires Holds(a[..], keys, m) && Stage(keys, m, next) && 1 <= next < |keys| - 1
    requires root == |m.parents| && leaf == m.leaf
    modifies a
    ensures var m' := MergeStep(keys, m);
            Stage(keys, m', next + 1) && Holds(a[..], keys, m') && root' == |m'.parents| && leaf' == m'.leaf
  {
    hide Holds, Taken, MergeStep, AfterTake, CanTake;
    TwoTakes(keys, m, next);
    FirstTake(keys, m, next);
    var w1, r1, l1 := TakeRarest(a, root, leaf, next, keys, m);
    var w2, r2, l2 := TakeRarest(a, r1, l1, next, keys, AfterTake(keys, m));
    SetKey(a, next, (w1 + w2) % KEY_LIMIT, keys, AfterTake(keys, AfterTake(keys, m)), MergeStep(keys, m));
    root', leaf' := r2, l2;
  }

  lemma FirstTake(keys: seq<nat>, m: Merging, k: nat)
    requires Stage(keys, m, k) && 1 <= k < |keys| - 1 && CanTake(keys, m)
    ensures k < m.leaf && var m1 := AfterTake(keys, m); m1.leaf <= |keys| && m1.weights == m.weights && k < m1.leaf
  {
  }

  /** Stores the frequency of a merged tree, above all slots that hold parents. */
  method SetKey(a: array<nat>, next: nat, key: nat, ghost keys: seq<nat>, ghost m: Merging, ghost m': Merging)
    requires Holds(a[..], keys, m) && next == |m.weights| < a.Length - 1 && next < m.leaf
    requires m' == m.(weights := m.weights + [key])
    modifies a
    ensures Holds(a[..], keys, m')
  {
    a[next] := key;
  }

  /** Merges the two rarest leaves. */
  method MergeFirst(a: array<nat>)
    requires a.Length >= 2
    modifies a
    ensures var keys := old(a[..]); Holds(a[..], keys, Merging([(keys[0] + keys[1]) % KEY_LIMIT], [], 2))
  {
    a[0] := (a[0] + a[1]) % KEY_LIMIT;
  }

  /** Merges trees until one is left; every other tree has a parent then. */
  method MergeTrees(a: array<nat>)
    requires a.Length >= 2
    modifies a
    ensures a[..a.Length - 2] == ParentsOf(old(a[..]))
  {
    hide Holds, MergeStep, ParentsOf;
    ghost var keys := a[..];
    var n := a.Length;
    var root: nat, leaf: nat := 0, 2;
    FirstMerge(keys);
    MergeFirst(a);
    for next := 1 to n - 1
      invariant Holds(a[..], keys, Merged(keys, next))
      invariant root == |Merged(keys, next).parents| && leaf == Merged(keys, next).leaf
    {
      root, leaf := MergeTwo(a, root, leaf, next, keys, Merged(keys, next));
    }
    AllParents(a[..], keys);
  }

  lemma AllParents(a: seq<nat>, keys: seq<nat>)
    requires |keys| >= 2 && Holds(a, keys, Merged(keys, |keys| - 1))
    ensures a[..|a| - 2] == ParentsOf(keys)
  {
  }

  // ----- second pass: depths of inner nodes -----

  method Depths(a: array<nat>, ghost parents: seq<nat>)
    requires a.Length >= 2 && ParentsOk(parents) && a[..a.Length - 2] == parents
    modifies a
    ensures forall i: nat | i <= |parents| :: a[i] == Depth(parents, i)
  {
    hide ParentsOk, Depth;
    var n := a.Length;
    assert forall i: nat | i < n - 2 :: a[i] == a[..n - 2][i];
    a[n - 2] := 0;
    DepthOfRoot(parents);
    for next := n - 2 downto 0
      invariant forall i: nat | i < next :: a[i] == parents[i]
      invariant forall i: nat | next <= i <= n - 2 :: a[i] == Depth(parents, i)
    {
      DepthOfParent(parents, next);
      a[next] := a[a[next]] + 1;
    }
  }

  lemma DepthOfRoot(parents: seq<nat>)
    requires ParentsOk(parents)
    ensures Depth(parents, |parents|) == 0
  {
  }

  lemma DepthOfParent(parents: seq<nat>, i: nat)
    requires ParentsOk(parents) && i < |parents|
    ensures i < parents[i] <= |parents| && Depth(parents, i) == Depth(parents, parents[i]) + 1
  {
  }

  /** Later nodes are not deeper, and depths fall by at most one from node to node. */
  lemma {:induction false} DepthFalls(parents: seq<nat>, i: nat)
    requires ParentsOk(parents) && i < |parents|
    ensures Depth(parents, i + 1) <= Depth(parents, i) <= Depth(parents, i + 1) + 1
    decreases |parents| - i, 0
  {
    if i + 1 < |parents| {
      DepthBetween(parents, parents[i], parents[i + 1]);
    }
    DepthBetween(parents, i + 1, parents[i]);
  }

  lemma {:induction false} DepthBetween(parents: seq<nat>, i: nat, j: nat)
    requires ParentsOk(parents) && i <= j <= |parents|
    ensures Depth(parents, j) <= Depth(parents, i)
    decreases |parents| - i, 1
  {
    if i < j {
      DepthFalls(parents, i);
      DepthBetween(parents, i + 1, j);
    }
  }

  // ----- third pass: depths of leaves -----

  /** How many elements equal `d`. */
  function Occurrences(s: seq<nat>, d: nat): nat {
    if s == [] then 0 else (if s[0] == d then 1 else 0) + Occurrences(s[1..], d)
  }

  /** `counts` is the histogram of `s`, and its codes exactly fill what there is: the leaves of a full tree. */
  ghost predicate LeafDepths(s: seq<nat>, counts: seq<int>) {
    && |counts| > 0 && Histogram(s, counts)
    && Kraft(counts, |counts| - 1) == Pow2(|counts| - 1)
  }

  ghost predicate Histogram(s: seq<nat>, counts: seq<int>) {
    && (forall i | 0 <= i < |s| :: 0 < s[i] < |counts|)
    && (forall d: nat | d < |counts| :: counts[d] == Occurrences(s, d))
  }

  lemma {:induction false} ParentsSpread(parents: seq<nat>, i: nat, k: nat)
    requires ParentsOk(parents) && i + 2 * k < |parents|
    ensures parents[i + 2 * k] >= parents[i] + k
  {
    if k > 0 {
      ParentsSpread(parents, i, k - 1);
      assert parents[i + 2 * k - 2] < parents[i + 2 * k];
    }
  }

  /** The nodes of depth `d` are those between `low` and `high`. */
  ghost predicate LevelIs(parents: seq<nat>, d: nat, low: int, high: int)
    requires ParentsOk(parents)
  {
    && -1 <= low <= high <= |parents|
    && forall i: nat | i <= |parents| :: low < i <= high <==> Depth(parents, i) == d
  }

  /** A level has at most twice as many inner nodes as the level above it. */
  lemma LevelAtMostDoubles(parents: seq<nat>, d: nat, low: int, mid: int, high: int)
    requires ParentsOk(parents) && LevelIs(parents, d, mid, high) && -1 <= low <= mid
    requires forall i: nat | low < i <= mid :: Depth(parents, i) == d + 1
    ensures mid - low <= 2 * (high - mid)
  {
    if low < mid {
      var first: nat := low + 1;
      var k := (mid - low - 1) / 2;
      assert Depth(parents, mid) == d + 1;
      assert mid != |parents|;
      assert Depth(parents, first) == d + 1;
      ParentsSpread(parents, first, k);
      assert Depth(parents, parents[first]) == d;
      assert Depth(parents, first + 2 * k) == d + 1;
      assert Depth(parents, parents[first + 2 * k]) == d;
    }
  }

  /** Below a level comes the next level, unless there are no more nodes. */
  lemma NextLevelStarts(parents: seq<nat>, d: nat, low: nat, high: int)
    requires ParentsOk(parents) && LevelIs(parents, d, low, high) && low < high
    ensures Depth(parents, low) == d + 1
  {
    DepthFalls(parents, low);
    assert Depth(parents, low + 1) == d;
    assert Depth(parents, low) != d;
  }

  lemma RootLevel(parents: seq<nat>)
    requires ParentsOk(parents)
    ensures LevelIs(parents, 0, |parents| - 1, |parents|)
  {
  }

  /** How many of the first `n` inner nodes have depth `d`. */
  ghost function InnerAt(parents: seq<nat>, d: nat, n: nat): nat
    requires ParentsOk(parents) && n <= |parents| + 1
  {
    if n == 0 then 0 else InnerAt(parents, d, n - 1) + if Depth(parents, n - 1) == d then 1 else 0
  }

  ghost function LevelSize(parents: seq<nat>, d: nat): nat
    requires ParentsOk(parents)
  {
    InnerAt(parents, d, |parents| + 1)
  }

  lemma {:induction false} InnerAtIs(parents: seq<nat>, d: nat, low: int, high: int, n: nat)
    requires ParentsOk(parents) && LevelIs(parents, d, low, high) && n <= |parents| + 1
    ensures InnerAt(parents, d, n) == if n - 1 <= low then 0 else if n - 1 <= high then n - 1 - low else high - low
  {
    if n > 0 {
      InnerAtIs(parents, d, low, high, n - 1);
    }
  }

  lemma LevelSizeIs(parents: seq<nat>, d: nat, low: int, high: int)
    requires ParentsOk(parents) && LevelIs(parents, d, low, high)
    ensures LevelSize(parents, d) == high - low
  {
    InnerAtIs(parents, d, low, high, |parents| + 1);
  }

  ghost function LeavesAt(parents: seq<nat>, d: nat): int
    requires ParentsOk(parents)
  {
    if d == 0 then 0 else 2 * LevelSize(parents, d - 1) - LevelSize(parents, d)
  }

  /** Each level has room for twice as many nodes as the level above has inner ones; what is not inner is a leaf. */
  ghost predicate LevelCounts(parents: seq<nat>, counts: seq<int>)
    requires ParentsOk(parents)
  {
    && Depth(parents, 0) + 1 < |counts|
    && LevelsCounted(parents, counts)
  }

  ghost predicate LevelsCounted(parents: seq<nat>, counts: seq<int>)
    requires ParentsOk(parents)
  {
    forall d: nat | d < |counts| :: counts[d] == LeavesAt(parents, d)
  }

  /** A level without inner nodes is below all of them. */
  lemma {:induction false} AboveEmptyLevel(parents: seq<nat>, d: nat, i: nat)
    requires ParentsOk(parents) && i <= |parents|
    requires forall j: nat | j <= |parents| :: Depth(parents, j) != d
    ensures Depth(parents, i) < d
    decreases |parents| - i
  {
    if i < |parents| {
      AboveEmptyLevel(parents, d, i + 1);
      DepthFalls(parents, i);
    }
  }

  /** Counts the inner nodes of one depth, from the topmost down. */
  method CountLevel(a: array<nat>, ghost parents: seq<nat>, root: int, depth: nat) returns (used: nat, root': int)
    requires ParentsOk(parents) && -1 <= root <= |parents| < a.Length
    requires forall i: nat | i <= root :: a[i] == Depth(parents, i)
    ensures root' == root - used && -1 <= root'
    ensures forall i: nat | root' < i <= root :: Depth(parents, i) == depth
    ensures root' >= 0 ==> Depth(parents, root') != depth
  {
    used, root' := 0, root;
    while root' >= 0 && a[root'] == depth
      invariant root' == root - used && -1 <= root'
      invariant forall i: nat | root' < i <= root :: Depth(parents, i) == depth
      decreases root' + 1
    {
      used, root' := used + 1, root' - 1;
    }
  }

  function Repeat(d: nat, k: nat): (s: seq<nat>)
    ensures |s| == k && forall i | 0 <= i < k :: s[i] == d
  {
    if k == 0 then [] else [d] + Repeat(d, k - 1)
  }

  lemma RepeatNone(d: nat)
    ensures Repeat(d, 0) == []
  {
  }

  lemma RepeatNext(d: nat, k: nat, s: seq<nat>)
    ensures Repeat(d, k + 1) + s == [d] + (Repeat(d, k) + s)
  {
  }

  /** Writes a depth into a number of slots, from the topmost free one down. */
  method FillLevel(a: array<nat>, next: int, number: nat, depth: nat) returns (next': int)
    requires -1 <= next < a.Length && number <= next + 1
    modifies a
    ensures next' == next - number
    ensures forall i | 0 <= i <= next' :: a[i] == old(a[i])
    ensures a[next' + 1..] == Repeat(depth, number) + old(a[next + 1..])
  {
    hide Repeat;
    next' := next;
    var left := number;
    RepeatNone(depth);
    ghost var suffix := a[next + 1..];
    while left > 0
      invariant 0 <= left <= number && next' == next - (number - left)
      invariant forall i | 0 <= i <= next' :: a[i] == old(a[i])
      invariant a[next' + 1..] == Repeat(depth, number - left) + suffix
    {
      RepeatNext(depth, number - left, suffix);
      next' := FillOne(a, next', depth);
      left := left - 1;
    }
  }

  method FillOne(a: array<nat>, next: nat, depth: nat) returns (next': int)
    requires next < a.Length
    modifies a
    ensures next' == next - 1
    ensures forall i | 0 <= i <= next' :: a[i] == old(a[i])
    ensures a[next..] == [depth] + old(a[next + 1..])
  {
    a[next] := depth;
    next' := next - 1;
  }

  /** Turns the depths of inner nodes into the depths of leaves. */
  method LeavesOfLevels(a: array<nat>, ghost parents: seq<nat>) returns (ghost counts: seq<int>)
    requires a.Length >= 2 && |parents| == a.Length - 2 && ParentsOk(parents)
    requires forall i: nat | i <= |parents| :: a[i] == Depth(parents, i)
    modifies a
    ensures LeafDepths(a[..], counts) && LevelCounts(parents, counts)
    ensures Descending(a[..])
  {
    hide Depth, ParentsOk, LevelIs, Histogram, Kraft, Repeat, Pow2, LevelSize;
    var n := a.Length;
    var available, depth, root, next := 1, 0, n - 2, n - 1;
    ghost var high := n - 2;
    counts := [];
    NothingCounted();
    assert a[next + 1..] == [];
    while available > 0
      invariant available >= 0 && -1 <= root <= n - 2 && next == root + available && next <= n - 1
      invariant forall i: nat | i <= root :: a[i] == Depth(parents, i)
      invariant |counts| == depth && Histogram(a[next + 1..], counts) && LevelsCounted(parents, counts)
      invariant Descending(a[next + 1..])
      invariant depth == 0 ==> root == n - 2 && available == 1
      invariant depth > 0 ==>
        && LevelIs(parents, depth - 1, root, high) && available == 2 * (high - root)
        && 2 * Kraft(counts, depth - 1) + available == Pow2(depth)
      invariant available == 0 ==> root == -1 && depth > 0
      decreases root + 1, available
    {
      var used, root';
      used, root' := CountLevel(a, parents, root, depth);
      LevelCounted(parents, depth, root, root', high);
      var leaves := available - used;
      LevelSizes(parents, depth, root', root, high);
      LevelFilled(a[next + 1..], counts, leaves);
      DeeperFirst(a[next + 1..], counts, leaves);
      next := FillLevel(a, next, leaves, depth);
      counts := counts + [leaves];
      available, root, high := 2 * used, root', root;
      depth := depth + 1;
    }
    LevelsEnd(depth);
    NoMoreLevels(parents, depth - 1, high);
    assert a[next + 1..] == a[..];
  }

  /** Depths never rise from one leaf to the next: rarer symbols are deeper. */
  ghost predicate Descending(s: seq<nat>) {
    forall i, j | 0 <= i < j < |s| :: s[i] >= s[j]
  }

  lemma DeeperFirst(s: seq<nat>, counts: seq<int>, leaves: nat)
    requires Histogram(s, counts) && Descending(s)
    ensures Descending(Repeat(|counts|, leaves) + s)
  {
    hide Repeat;
  }

  lemma LevelSizes(parents: seq<nat>, depth: nat, root': int, root: int, high: int)
    requires ParentsOk(parents) && LevelIs(parents, depth, root', root)
    requires depth > 0 ==> LevelIs(parents, depth - 1, root, high)
    ensures LevelSize(parents, depth) == root - root' && (depth > 0 ==> LevelSize(parents, depth - 1) == high - root)
  {
    LevelSizeIs(parents, depth, root', root);
    if depth > 0 {
      LevelSizeIs(parents, depth - 1, root, high);
    }
  }

  lemma NothingCounted()
    ensures Histogram([], [])
  {
  }

  lemma NoMoreLevels(parents: seq<nat>, d: nat, high: int)
    requires ParentsOk(parents) && LevelIs(parents, d, -1, high) && high == -1
    ensures Depth(parents, 0) < d
  {
    AboveEmptyLevel(parents, d, 0);
  }

  lemma LevelsEnd(depth: nat)
    requires depth > 0
    ensures Pow2(depth) == 2 * Pow2(depth - 1)
  {
  }

  /** Filling in the leaves of the next depth adds them to the histogram and to the Kraft sum. */
  lemma LevelFilled(s: seq<nat>, counts: seq<int>, leaves: nat)
    requires Histogram(s, counts) && (counts == [] ==> leaves == 0)
    ensures Histogram(Repeat(|counts|, leaves) + s, counts + [leaves])
    ensures |counts| == 0 ==> Kraft(counts + [leaves], 0) == 0 && Pow2(1) == 2
    ensures |counts| > 0 ==> Kraft(counts + [leaves], |counts|) == 2 * Kraft(counts, |counts| - 1) + leaves
    ensures Pow2(|counts| + 1) == 2 * Pow2(|counts|)
  {
    hide Occurrences, Kraft, Repeat;
    KraftGrows(counts, leaves);
    assert Pow2(0) == 1;
    var d := |counts|;
    NoOccurrences(s, d);
    forall k: nat | k < d + 1
      ensures (counts + [leaves])[k] == Occurrences(Repeat(d, leaves) + s, k)
    {
      RepeatedOccurrences(s, d, leaves, k);
    }
  }

  lemma {:induction false} RepeatedOccurrences(s: seq<nat>, d: nat, number: nat, k: nat)
    ensures Occurrences(Repeat(d, number) + s, k) == Occurrences(s, k) + if k == d then number else 0
  {
    if number == 0 {
      assert Repeat(d, number) + s == s;
    } else {
      RepeatedOccurrences(s, d, number - 1, k);
      assert Repeat(d, number) + s == [d] + (Repeat(d, number - 1) + s);
    }
  }

  lemma {:induction false} NoOccurrences(s: seq<nat>, d: nat)
    requires forall i | 0 <= i < |s| :: s[i] != d
    ensures Occurrences(s, d) == 0
  {
    if s != [] {
      NoOccurrences(s[1..], d);
    }
  }

  lemma KraftGrows(counts: seq<int>, leaves: int)
    ensures |counts| == 0 ==> Kraft(counts + [leaves], 0) == 0
    ensures |counts| > 0 ==> Kraft(counts + [leaves], |counts|) == 2 * Kraft(counts, |counts| - 1) + leaves
  {
    if |counts| > 0 {
      SameKraft(counts + [leaves], counts, |counts| - 1);
    }
  }

  /** The counted nodes are the whole level, and are at most as many as there is room for. */
  lemma LevelCounted(parents: seq<nat>, depth: nat, root: int, root': int, high: int)
    requires ParentsOk(parents) && -1 <= root' <= root <= |parents|
    requires forall i: nat | root' < i <= root :: Depth(parents, i) == depth
    requires root' >= 0 ==> Depth(parents, root') != depth
    requires if depth == 0 then root == |parents| else LevelIs(parents, depth - 1, root, high) && root < high
    ensures LevelIs(parents, depth, root', root)
    ensures depth == 0 ==> root - root' == 1
    ensures depth > 0 ==> root - root' <= 2 * (high - root)
    ensures root' == root ==> root == -1
  {
    if depth == 0 {
      RootLevel(parents);
      assert Depth(parents, root) == 0;
      if root > 0 {
        assert Depth(parents, root - 1) != 0;
      }
    } else {
      LevelAtMostDoubles(parents, depth - 1, root', root, high);
      if root >= 0 {
        NextLevelStarts(parents, depth - 1, root, high);
      }
      forall i: nat | i <= |parents|
        ensures root' < i <= root <==> Depth(parents, i) == depth
      {
        if i > root {
          DepthBetween(parents, root + 1, i);
          assert Depth(parents, root + 1) == depth - 1;
        } else if i <= root' {
          DepthBetween(parents, i, root');
          DepthBetween(parents, root', root);
        }
      }
    }
  }

  // ----- each leaf gets its own depth -----

  /** Of the two children of each node at one depth, those that are not inner nodes are leaves. */
  lemma {:induction false} LeavesCounted(keys: seq<nat>, k: nat, d: nat)
    requires |keys| >= 2 && ParentsOk(ParentsOf(keys)) && k < |keys|
    ensures |Merged(keys, k).parents| <= |keys| - 2
    ensures Occurrences(LeavesFrom(keys, k), d + 1) + InnerAt(ParentsOf(keys), d + 1, |keys| - 2)
         == 2 * (InnerAt(ParentsOf(keys), d, |keys| - 1) - InnerAt(ParentsOf(keys), d, k))
          + InnerAt(ParentsOf(keys), d + 1, |Merged(keys, k).parents|)
    decreases |keys| - k
  {
    hide Merged, MergeStep, AfterTake, CanTake, TakesTree, Depth, ParentsOk, ParentsOf, Occurrences, WithLeaf, InnerAt;
    MergedParentsStay(keys, k, |keys| - 1);
    if k + 1 < |keys| {
      var parents, m := ParentsOf(keys), Merged(keys, k);
      LeavesCounted(keys, k + 1, d);
      MergedNext(keys, k);
      TwoTakes(keys, m, k);
      TakenDepth(keys, k);
      var m1, depth := AfterTake(keys, m), Depth(parents, k) + 1;
      TakeBounds(keys, m);
      TakeBounds(keys, m1);
      TakeCounted(keys, parents, m1, depth, LeavesFrom(keys, k + 1), d);
      TakeCounted(keys, parents, m, depth, WithLeaf(keys, m1, depth, LeavesFrom(keys, k + 1)), d);
      InnerNext(parents, d, k);
    } else {
      NoLeaf(d + 1);
    }
  }

  lemma NoLeaf(d: nat)
    ensures Occurrences([], d) == 0
  {
  }

  lemma InnerNext(parents: seq<nat>, d: nat, k: nat)
    requires ParentsOk(parents) && k <= |parents|
    ensures InnerAt(parents, d, k + 1) == InnerAt(parents, d, k) + if Depth(parents, k) == d then 1 else 0
  {
  }

  lemma TakeCounted(keys: seq<nat>, parents: seq<nat>, m: Merging, depth: nat, others: seq<nat>, d: nat)
    requires ParentsOk(parents) && CanTake(keys, m)
    requires |m.parents| <= |parents| && |AfterTake(keys, m).parents| <= |parents|
    requires TakesTree(keys, m) ==> Depth(parents, |m.parents|) == depth
    ensures Occurrences(WithLeaf(keys, m, depth, others), d + 1) + InnerAt(parents, d + 1, |AfterTake(keys, m).parents|)
         == Occurrences(others, d + 1) + InnerAt(parents, d + 1, |m.parents|) + if depth == d + 1 then 1 else 0
  {
    hide TakesTree;
    if TakesTree(keys, m) {
      InnerNext(parents, d + 1, |m.parents|);
    } else {
      assert ([depth] + others)[1..] == others;
    }
  }

  /** A sequence of positive depths that never rises and starts at `depth` or below. */
  ghost predicate DownFrom(s: seq<nat>, depth: nat) {
    Descending(s) && UpTo(s, depth) && forall i | 0 <= i < |s| :: s[i] > 0
  }

  lemma TakeDescends(keys: seq<nat>, m: Merging, depth: nat, others: seq<nat>, below: nat)
    requires 0 < depth && below <= depth && DownFrom(others, below)
    ensures DownFrom(WithLeaf(keys, m, depth, others), depth)
  {
  }

  /** Leaves taken later are not deeper. */
  lemma {:induction false} LeavesDescend(keys: seq<nat>, k: nat)
    requires |keys| >= 2 && ParentsOk(ParentsOf(keys)) && k + 1 < |keys|
    ensures DownFrom(LeavesFrom(keys, k), Depth(ParentsOf(keys), k) + 1)
    decreases |keys| - k
  {
    hide Merged, MergeStep, AfterTake, CanTake, TakesTree, Depth, ParentsOk, ParentsOf, DownFrom, WithLeaf;
    TwoTakes(keys, Merged(keys, k), k);
    var depth, below := Depth(ParentsOf(keys), k) + 1, 0;
    if k + 2 < |keys| {
      LeavesDescend(keys, k + 1);
      DepthFalls(ParentsOf(keys), k);
      below := Depth(ParentsOf(keys), k + 1) + 1;
    } else {
      NothingDescends();
    }
    var m := Merged(keys, k);
    TakeDescends(keys, AfterTake(keys, m), depth, LeavesFrom(keys, k + 1), below);
    TakeDescends(keys, m, depth, WithLeaf(keys, AfterTake(keys, m), depth, LeavesFrom(keys, k + 1)), depth);
  }

  lemma NothingDescends()
    ensures DownFrom([], 0)
  {
  }

  /** Two descending sequences of the same histogram are the same. */
  lemma {:induction false} SameDescending(s: seq<nat>, t: seq<nat>)
    requires Descending(s) && Descending(t) && |s| == |t| && forall d: nat :: Occurrences(s, d) == Occurrences(t, d)
    ensures s == t
  {
    if s != [] {
      FirstOccurs(s);
      OccursSomewhere(t, s[0]);
      FirstOccurs(t);
      OccursSomewhere(s, t[0]);
      forall d: nat
        ensures Occurrences(s[1..], d) == Occurrences(t[1..], d)
      {
        assert Occurrences(s, d) == Occurrences(t, d);
      }
      SameDescending(s[1..], t[1..]);
    }
  }

  lemma FirstOccurs(s: seq<nat>)
    requires s != []
    ensures Occurrences(s, s[0]) > 0
  {
  }

  lemma {:induction false} NoInner(parents: seq<nat>, d: nat, n: nat)
    requires ParentsOk(parents) && n <= |parents| + 1 && forall i: nat | i < n :: Depth(parents, i) != d
    ensures InnerAt(parents, d, n) == 0
  {
    if n > 0 {
      NoInner(parents, d, n - 1);
    }
  }

  /** The leaves of the merged tree have the histogram that the levels tell. */
  lemma LeafHistogram(keys: seq<nat>, counts: seq<int>, d: nat)
    requires |keys| >= 2 && ParentsOk(ParentsOf(keys)) && LevelCounts(ParentsOf(keys), counts)
    ensures Occurrences(LeafDepthsOf(keys), d) == if d < |counts| then counts[d] else 0
  {
    hide Merged, LeavesFrom, ParentsOf, InnerAt, Depth, ParentsOk, Occurrences;
    var parents := ParentsOf(keys);
    if d == 0 {
      LeavesDescend(keys, 0);
      NoOccurrences(LeafDepthsOf(keys), 0);
      NoLeafAtRoot(parents, counts);
    } else {
      LeavesCounted(keys, 0, d - 1);
      NoneMerged(parents, keys, d);
      if d >= |counts| {
        BelowTree(parents, d - 1);
        BelowTree(parents, d);
      }
    }
  }

  lemma NoLeafAtRoot(parents: seq<nat>, counts: seq<int>)
    requires ParentsOk(parents) && LevelCounts(parents, counts)
    ensures |counts| > 0 && counts[0] == 0
  {
    var root: nat := 0;
    assert counts[root] == LeavesAt(parents, root);
  }

  lemma BelowTree(parents: seq<nat>, d: nat)
    requires ParentsOk(parents) && Depth(parents, 0) < d
    ensures LevelSize(parents, d) == 0
  {
    hide Depth, ParentsOk, InnerAt;
    forall i: nat | i <= |parents|
      ensures Depth(parents, i) < d
    {
      DepthBetween(parents, 0, i);
    }
    NoInner(parents, d, |parents| + 1);
  }

  lemma NoneMerged(parents: seq<nat>, keys: seq<nat>, d: nat)
    requires |keys| >= 2 && ParentsOk(parents) && |parents| == |keys| - 2 && d > 0
    ensures Merged(keys, 0).parents == [] && InnerAt(parents, d, 0) == 0 && InnerAt(parents, d - 1, 0) == 0
    ensures InnerAt(parents, d, |keys| - 2) == LevelSize(parents, d)
    ensures InnerAt(parents, d - 1, |keys| - 1) == LevelSize(parents, d - 1)
  {
    DepthOfRoot(parents);
  }

  /** The result of the third pass is the depth of each leaf in the merged tree. */
  lemma DepthsOfLeaves(keys: seq<nat>, counts: seq<int>, depths: seq<nat>)
    requires |keys| >= 2 && ParentsOk(ParentsOf(keys)) && LevelCounts(ParentsOf(keys), counts)
    requires |depths| == |keys| && LeafDepths(depths, counts) && Descending(depths)
    ensures depths == LeafDepthsOf(keys)
  {
    hide Occurrences, LevelCounts, LeafDepths, Merged, Depth, ParentsOk, ParentsOf;
    forall d: nat
      ensures Occurrences(depths, d) == Occurrences(LeafDepthsOf(keys), d)
    {
      LeafHistogram(keys, counts, d);
      DepthHistogram(depths, counts, d);
    }
    LeavesDescend(keys, 0);
    SameDescending(depths, LeafDepthsOf(keys));
  }

  lemma DepthHistogram(depths: seq<nat>, counts: seq<int>, d: nat)
    requires LeafDepths(depths, counts)
    ensures Occurrences(depths, d) == if d < |counts| then counts[d] else 0
  {
    if d >= |counts| {
      NoOccurrences(depths, d);
    }
  }

  /** The Kraft sum over the lengths is that over their histogram. */
  lemma {:induction false} RoomIsKraft(s: seq<nat>, counts: seq<int>, m: nat)
    requires m < |counts| && (forall i | 0 <= i < |s| :: s[i] > 0)
    requires forall d: nat | d <= m :: counts[d] == Occurrences(s, d)
    ensures Room(s, m) == Kraft(counts, m)
  {
    if m == 0 {
      NoRoom(s);
    } else {
      RoomIsKraft(s, counts, m - 1);
      RoomStep(s, m - 1);
    }
  }

  lemma {:induction false} NoRoom(s: seq<nat>)
    requires forall i | 0 <= i < |s| :: s[i] > 0
    ensures Room(s, 0) == 0
  {
    if s != [] {
      NoRoom(s[1..]);
    }
  }

  lemma {:induction false} RoomStep(s: seq<nat>, m: nat)
    ensures Room(s, m + 1) == 2 * Room(s, m) + Occurrences(s, m + 1)
  {
    if s != [] {
      RoomStep(s[1..], m);
    }
  }

  /** With frequencies whose sum does not wrap around, no code costs less than the leaf depths. */
  lemma DepthsAreOptimal(keys: seq<nat>, counts: seq<int>, depths: seq<nat>)
    requires Countable(keys) && |keys| >= 2 && ParentsOk(ParentsOf(keys)) && LevelCounts(ParentsOf(keys), counts)
    requires |depths| == |keys| && LeafDepths(depths, counts) && Descending(depths)
    ensures Optimal(keys, depths)
  {
    RoomIsKraft(depths, counts, |counts| - 1);
    assert HasCode(depths, |counts| - 1);
    DepthsOfLeaves(keys, counts, depths);
    hide Countable, LeafDepths, LevelCounts, Descending, HasCode, Cost, LeafDepthsOf;
    forall other: seq<nat>, top: nat | |other| == |keys| && HasCode(other, top)
      ensures Cost(keys, depths) <= Cost(keys, other)
    {
      MergedIsLeast(keys, other, top);
    }
  }

  /** Computes the depth of each leaf of the Huffman tree merged from the frequencies: the leaf depths of a full
      binary tree, the deepest first.  If the frequencies ascend and their sum is below 2^16, no code costs less. */
  method CalculateMinimumRedundancy(a: array<nat>) returns (ghost counts: seq<int>)
    modifies a
    ensures a.Length == 1 ==> a[..] == [1]
    ensures a.Length >= 2 ==> LeafDepths(a[..], counts) && Descending(a[..])
    ensures a.Length >= 2 ==> ParentsOk(ParentsOf(old(a[..]))) && LevelCounts(ParentsOf(old(a[..])), counts)
    ensures a.Length >= 2 ==> a[..] == LeafDepthsOf(old(a[..]))
    ensures a.Length >= 2 && Countable(old(a[..])) ==> Optimal(old(a[..]), a[..])
  {
    hide LeafDepths, LevelCounts, ParentsOk, ParentsOf, LeafDepthsOf, Optimal, Countable, Descending;
    counts := [];
    if a.Length == 0 { return; }
    if a.Length == 1 {
      a[0] := 1;
      return;
    }
    ghost var keys := a[..];
    ParentsOfOk(keys);
    MergeTrees(a);
    Depths(a, ParentsOf(keys));
    counts := LeavesOfLevels(a, ParentsOf(keys));
    DepthsOfLeaves(keys, counts, a[..]);
    if Countable(keys) {
      DepthsAreOptimal(keys, counts, a[..]);
    }
  }

  // ----- how deep the leaves are -----

  /** Above every leaf there is an inner node. */
  lemma LeafHasParent(parents: seq<nat>, counts: seq<int>, depths: seq<nat>, i: nat)
    requires ParentsOk(parents) && LevelCounts(parents, counts) && LeafDepths(depths, counts) && i < |depths|
    ensures depths[i] > 0 && exists j: nat :: j <= |parents| && Depth(parents, j) == depths[i] - 1
  {
    hide Depth, ParentsOk, Kraft, Pow2, Occurrences, InnerAt;
    SomeOccurrence(depths, i);
    var d := depths[i];
    assert 0 < d < |counts| && counts[d] > 0;
    assert counts[d] == 2 * LevelSize(parents, d - 1) - LevelSize(parents, d);
    InnerExists(parents, d - 1, |parents| + 1);
  }

  lemma {:induction false} SomeOccurrence(s: seq<nat>, i: nat)
    requires i < |s|
    ensures Occurrences(s, s[i]) > 0
  {
    if i > 0 {
      SomeOccurrence(s[1..], i - 1);
    }
  }

  lemma {:induction false} InnerExists(parents: seq<nat>, d: nat, n: nat)
    requires ParentsOk(parents) && n <= |parents| + 1 && InnerAt(parents, d, n) > 0
    ensures exists j: nat :: j < n && Depth(parents, j) == d
  {
    if Depth(parents, n - 1) != d {
      InnerExists(parents, d, n - 1);
    }
  }

  lemma {:induction false} InnerCounted(parents: seq<nat>, d: nat, n: nat, j: nat)
    requires ParentsOk(parents) && j < n <= |parents| + 1 && Depth(parents, j) == d
    ensures InnerAt(parents, d, n) > 0
  {
    if j < n - 1 {
      InnerCounted(parents, d, n - 1, j);
    }
  }

  lemma {:induction false} OccursSomewhere(s: seq<nat>, d: nat)
    requires Occurrences(s, d) > 0
    ensures exists i :: 0 <= i < |s| && s[i] == d
  {
    if s[0] != d {
      OccursSomewhere(s[1..], d);
      var i :| 0 <= i < |s[1..]| && s[1..][i] == d;
      assert s[i + 1] == d;
    }
  }

  /** The deepest leaves are one level below the deepest inner node, which is the one merged first. */
  lemma DeepestLeaf(parents: seq<nat>, counts: seq<int>, depths: seq<nat>)
    requires ParentsOk(parents) && LevelCounts(parents, counts) && LeafDepths(depths, counts)
    ensures forall i | 0 <= i < |depths| :: depths[i] <= Depth(parents, 0) + 1
    ensures exists i :: 0 <= i < |depths| && depths[i] == Depth(parents, 0) + 1
  {
    var deepest := Depth(parents, 0);
    forall i | 0 <= i < |depths|
      ensures depths[i] <= deepest + 1
    {
      LeafHasParent(parents, counts, depths, i);
      var j: nat :| j <= |parents| && Depth(parents, j) == depths[i] - 1;
      DepthBetween(parents, 0, j);
    }
    BelowDeepest(parents, counts);
    assert counts[deepest + 1] == Occurrences(depths, deepest + 1);
    OccursSomewhere(depths, deepest + 1);
  }

  lemma BelowDeepest(parents: seq<nat>, counts: seq<int>)
    requires ParentsOk(parents) && LevelCounts(parents, counts)
    ensures Depth(parents, 0) + 1 < |counts| && counts[Depth(parents, 0) + 1] > 0
  {
    hide Depth, ParentsOk, InnerAt;
    var deepest := Depth(parents, 0);
    InnerCounted(parents, deepest, |parents| + 1, 0);
    if LevelSize(parents, deepest + 1) > 0 {
      InnerExists(parents, deepest + 1, |parents| + 1);
      var j: nat :| j < |parents| + 1 && Depth(parents, j) == deepest + 1;
      DepthBetween(parents, 0, j);
    }
    assert counts[deepest + 1] == 2 * LevelSize(parents, deepest) - LevelSize(parents, deepest + 1);
  }
}
