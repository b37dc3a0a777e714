/** The Huffman tree that tdefl merges from ascending frequencies, as a function of these frequencies.

Two queues are enough: the leaves are taken in ascending order, and so are the merged trees, because their weights
only grow.  Weights are 16-bit sums, so they may wrap around; what holds only without that says so.
 */
module HuffmanTrees {

  const KEY_LIMIT: nat := 65536

  /** The weights of the merged trees so far, the parents of those taken again, and the first leaf not yet taken. */
  datatype Merging = Merging(weights: seq<nat>, parents: seq<nat>, leaf: nat)

  const NOTHING_MERGED := Merging([], [], 0)

  predicate CanTake(keys: seq<nat>, m: Merging) {
    |m.parents| < |m.weights| || m.leaf < |keys|
  }

  /** Whether the next one to take is a merged tree; of equals, the leaf is taken. */
  predicate TakesTree(keys: seq<nat>, m: Merging) {
    m.leaf >= |keys| || (|m.parents| < |m.weights| && m.weights[|m.parents|] < keys[m.leaf])
  }

  function Taken(keys: seq<nat>, m: Merging): nat
    requires CanTake(keys, m)
  {
    if TakesTree(keys, m) then m.weights[|m.parents|] else keys[m.leaf]
  }

  /** A tree that is taken becomes a child of the tree under construction, which will be the next one. */
  function AfterTake(keys: seq<nat>, m: Merging): Merging
    requires CanTake(keys, m)
  {
    if TakesTree(keys, m) then m.(parents := m.parents + [|m.weights|]) else m.(leaf := m.leaf + 1)
  }

  function MergeStep(keys: seq<nat>, m: Merging): Merging
    requires CanTake(keys, m) && CanTake(keys, AfterTake(keys, m))
  {
    var m1 := AfterTake(keys, m);
    var m2 := AfterTake(keys, m1);
    m2.(weights := m2.weights + [(Taken(keys, m) + Taken(keys, m1)) % KEY_LIMIT])
  }

  /** After `k` merges. */
  predicate Stage(keys: seq<nat>, m: Merging, k: nat) {
    && |m.weights| == k && m.leaf + |m.parents| == 2 * k && m.leaf <= |keys|
    && (k == 0 || |m.parents| < k)
  }

  /** The first `k` merges; a tree over `n` leaves takes `n - 1` of them. */
  function Merged(keys: seq<nat>, k: nat): (m: Merging)
    requires k < |keys| || k == 0
    ensures Stage(keys, m, k)
  {
    if k == 0 then NOTHING_MERGED else MergeStep(keys, Merged(keys, k - 1))
  }

  /** The parents of all inner nodes but the root, which is the last one. */
  function ParentsOf(keys: seq<nat>): (parents: seq<nat>)
    requires |keys| >= 2
    ensures |parents| == |keys| - 2
  {
    Merged(keys, |keys| - 1).parents
  }

  // ----- the shape of the tree -----

  /** Each parent comes after its child, parents never fall, and each has at most two children. */
  ghost predicate ParentsOk(parents: seq<nat>) {
    && (forall i | 0 <= i < |parents| :: i < parents[i] <= |parents|)
    && (forall i | 0 <= i < |parents| - 1 :: parents[i] <= parents[i + 1])
    && (forall i | 0 <= i < |parents| - 2 :: parents[i] < parents[i + 2])
  }

  ghost predicate GrowingParents(parents: seq<nat>, next: nat) {
    && (forall i | 0 <= i < |parents| :: i < parents[i] < next)
    && (forall i | 0 <= i < |parents| - 1 :: parents[i] <= parents[i + 1])
    && (forall i | 0 <= i < |parents| - 2 :: parents[i] < parents[i + 2])
  }

  lemma OneChild(parents: seq<nat>, next: nat)
    requires GrowingParents(parents, next) && |parents| < next
    ensures GrowingParents(parents + [next], next + 1)
  {
  }

  lemma TwoChildren(parents: seq<nat>, next: nat)
    requires GrowingParents(parents, next) && |parents| + 1 < next
    ensures GrowingParents(parents + [next, next], next + 1)
  {
  }

  /** A merge adds the new tree as parent at most twice. */
  lemma StepParents(keys: seq<nat>, m: Merging, k: nat)
    requires Stage(keys, m, k) && k + 1 < |keys|
    ensures var q := MergeStep(keys, m).parents;
            || q == m.parents
            || (q == m.parents + [k] && |m.parents| < k)
            || (q == m.parents + [k, k] && |m.parents| + 1 < k)
  {
    assert m.parents + [k, k] == (m.parents + [k]) + [k];
  }

  lemma {:induction false} MergedParents(keys: seq<nat>, k: nat)
    requires k < |keys|
    ensures GrowingParents(Merged(keys, k).parents, k)
  {
    hide MergeStep, GrowingParents;
    if k > 0 {
      MergedParents(keys, k - 1);
      var m := Merged(keys, k - 1);
      StepParents(keys, m, k - 1);
      ParentsLater(m.parents, k - 1);
      if |m.parents| < k - 1 {
        OneChild(m.parents, k - 1);
      }
      if |m.parents| + 1 < k - 1 {
        TwoChildren(m.parents, k - 1);
      }
    } else {
      NoParents();
    }
  }

  lemma ParentsLater(parents: seq<nat>, next: nat)
    requires GrowingParents(parents, next)
    ensures GrowingParents(parents, next + 1)
  {
  }

  lemma NoParents()
    ensures GrowingParents([], 0)
  {
  }

  lemma ParentsOfOk(keys: seq<nat>)
    requires |keys| >= 2
    ensures ParentsOk(ParentsOf(keys))
  {
    MergedParents(keys, |keys| - 1);
  }

  /** The depth of an inner node. */
  ghost function Depth(parents: seq<nat>, i: nat): nat
    requires ParentsOk(parents) && i <= |parents|
    decreases |parents| - i
  {
    if i == |parents| then 0 else Depth(parents, parents[i]) + 1
  }

  // ----- without wrap-around, weights grow like the Fibonacci numbers -----

  ghost predicate Ascending(s: seq<nat>) {
    forall i, j | 0 <= i < j < |s| :: s[i] <= s[j]
  }

  function SumFrom(s: seq<nat>, i: nat): nat
    requires i <= |s|
    decreases |s| - i
  {
    if i == |s| then 0 else s[i] + SumFrom(s, i + 1)
  }

  /** What a caller can check: ascending positive frequencies whose sum fits 16 bits. */
  ghost predicate Countable(keys: seq<nat>) {
    Ascending(keys) && (forall i | 0 <= i < |keys| :: keys[i] > 0) && SumFrom(keys, 0) < KEY_LIMIT
  }

  /** The weights taken by the first `k` merges, two for each. */
  ghost function Picks(keys: seq<nat>, k: nat): (p: seq<nat>)
    requires k < |keys| || k == 0
    ensures |p| == 2 * k
  {
    if k == 0 then []
    else
      var m := Merged(keys, k - 1);
      Picks(keys, k - 1) + [Taken(keys, m), Taken(keys, AfterTake(keys, m))]
  }

  /** Everything not yet taken weighs at least `low`. */
  ghost predicate AtLeast(keys: seq<nat>, m: Merging, low: nat) {
    && (forall q | m.leaf <= q < |keys| :: low <= keys[q])
    && (forall i | |m.parents| <= i < |m.weights| :: low <= m.weights[i])
  }

  /** What is taken is a lightest tree or leaf. */
  lemma TakesLightest(keys: seq<nat>, m: Merging)
    requires CanTake(keys, m) && Ascending(keys) && Ascending(m.weights)
    ensures AtLeast(keys, m, Taken(keys, m)) && AtLeast(keys, AfterTake(keys, m), Taken(keys, m))
  {
  }

  /** The weight of everything not yet taken. */
  ghost function Left(keys: seq<nat>, m: Merging): nat
    requires m.leaf <= |keys| && |m.parents| <= |m.weights|
  {
    SumFrom(keys, m.leaf) + SumFrom(m.weights, |m.parents|)
  }

  lemma TakeLeaves(keys: seq<nat>, m: Merging)
    requires CanTake(keys, m) && m.leaf <= |keys| && |m.parents| <= |m.weights|
    ensures var m1 := AfterTake(keys, m);
            && m1.leaf <= |keys| && |m1.parents| <= |m1.weights|
            && Left(keys, m) == Taken(keys, m) + Left(keys, m1)
  {
  }

  lemma {:induction false} SumFromAppend(s: seq<nat>, x: nat, i: nat)
    requires i <= |s|
    ensures SumFrom(s + [x], i) == SumFrom(s, i) + x
    decreases |s| - i
  {
    if i < |s| {
      SumFromAppend(s, x, i + 1);
    } else {
      assert SumFrom(s + [x], i + 1) == 0;
    }
  }

  /** What the first `k` merges have in common: no sum wraps around, weights are sums of two picks, picks grow, and
      a tree taken again is one of the two picks of its parent. */
  ghost predicate Exact(keys: seq<nat>, m: Merging, p: seq<nat>, k: nat) {
    && Stage(keys, m, k) && |p| == 2 * k
    && Left(keys, m) == SumFrom(keys, 0)
    && Ascending(p) && Ascending(m.weights)
    && (k > 0 ==> AtLeast(keys, m, p[2 * k - 1]))
    && (forall j | 0 <= j < k :: m.weights[j] == p[2 * j] + p[2 * j + 1])
    && (forall i | 0 <= i < |p| :: p[i] > 0)
    && (forall i | 0 <= i < |m.parents| ::
          m.parents[i] < k && (m.weights[i] == p[2 * m.parents[i]] || m.weights[i] == p[2 * m.parents[i] + 1]))
  }

  /** One merge keeps all this. */
  lemma ExactStep(keys: seq<nat>, m: Merging, p: seq<nat>, k: nat)
    requires Countable(keys) && Exact(keys, m, p, k) && k + 1 < |keys|
    ensures Exact(keys, MergeStep(keys, m), p + [Taken(keys, m), Taken(keys, AfterTake(keys, m))], k + 1)
  {
    hide Taken, AfterTake, MergeStep, Ascending, AtLeast, TakesTree, Left;
    StepWeights(keys, m, p, k);
    var m1 := AfterTake(keys, m);
    var x, y := Taken(keys, m), Taken(keys, m1);
    PicksGrow(keys, m, p, k);
    WeightsGrow(keys, m, p, k);
    ParentsPick(keys, m, p, k);
    StepAtLeast(keys, m, y, x + y);
  }

  /** There are always two trees or leaves to take. */
  lemma TwoTakes(keys: seq<nat>, m: Merging, k: nat)
    requires Stage(keys, m, k) && k + 1 < |keys|
    ensures CanTake(keys, m) && CanTake(keys, AfterTake(keys, m))
    ensures var m2, m' := AfterTake(keys, AfterTake(keys, m)), MergeStep(keys, m);
            && m2.weights == m.weights && m2.leaf <= |keys| && |m2.parents| <= k
            && Stage(keys, m', k + 1) && m'.parents == m2.parents && m'.leaf == m2.leaf
            && m'.weights == m.weights + [(Taken(keys, m) + Taken(keys, AfterTake(keys, m))) % KEY_LIMIT]
  {
  }

  lemma SmallSum(x: nat)
    requires x < KEY_LIMIT
    ensures x % KEY_LIMIT == x
  {
  }

  /** The new tree weighs what its two children weigh, and the weight of everything stays the same. */
  lemma StepWeights(keys: seq<nat>, m: Merging, p: seq<nat>, k: nat)
    requires Countable(keys) && Exact(keys, m, p, k) && k + 1 < |keys|
    ensures CanTake(keys, m) && CanTake(keys, AfterTake(keys, m))
    ensures var m1, m' := AfterTake(keys, m), MergeStep(keys, m);
            && Stage(keys, m', k + 1) && m'.parents == AfterTake(keys, m1).parents
            && m'.weights == m.weights + [Taken(keys, m) + Taken(keys, m1)]
            && Left(keys, m') == SumFrom(keys, 0)
  {
    hide Ascending, AtLeast, Taken, AfterTake, MergeStep;
    TwoTakes(keys, m, k);
    var m1 := AfterTake(keys, m);
    var m2 := AfterTake(keys, m1);
    TakeLeaves(keys, m);
    TakeLeaves(keys, m1);
    SmallSum(Taken(keys, m) + Taken(keys, m1));
    SumFromAppend(m2.weights, Taken(keys, m) + Taken(keys, m1), |m2.parents|);
  }

  lemma StepAtLeast(keys: seq<nat>, m: Merging, low: nat, weight: nat)
    requires CanTake(keys, m) && CanTake(keys, AfterTake(keys, m))
    requires AtLeast(keys, AfterTake(keys, AfterTake(keys, m)), low) && low <= weight
    requires MergeStep(keys, m).weights == m.weights + [weight]
    ensures AtLeast(keys, MergeStep(keys, m), low)
  {
  }

  lemma TakenAtLeast(keys: seq<nat>, m: Merging, low: nat)
    requires CanTake(keys, m) && AtLeast(keys, m, low)
    ensures low <= Taken(keys, m)
  {
  }

  /** The first pick of all is a leaf. */
  lemma FirstPick(keys: seq<nat>, m: Merging)
    requires CanTake(keys, m) && |m.weights| == 0 && forall i | 0 <= i < |keys| :: keys[i] > 0
    ensures Taken(keys, m) > 0
  {
  }

  lemma TwoMorePicks(p: seq<nat>, x: nat, y: nat)
    requires Ascending(p) && x <= y && (|p| > 0 ==> p[|p| - 1] <= x)
    ensures Ascending(p + [x, y])
  {
  }

  lemma PicksGrow(keys: seq<nat>, m: Merging, p: seq<nat>, k: nat)
    requires Countable(keys) && Exact(keys, m, p, k) && k + 1 < |keys|
    ensures var x, y := Taken(keys, m), Taken(keys, AfterTake(keys, m));
            && 0 < x <= y && Ascending(p + [x, y]) && (k > 0 ==> p[2 * k - 1] <= x)
            && AtLeast(keys, AfterTake(keys, AfterTake(keys, m)), y)
  {
    hide Taken, AfterTake, AtLeast, Ascending, Left, MergeStep, TakesTree, CanTake;
    TwoTakes(keys, m, k);
    var m1 := AfterTake(keys, m);
    SameWeights(keys, m);
    TakesLightest(keys, m);
    TakesLightest(keys, m1);
    TakenAtLeast(keys, m1, Taken(keys, m));
    if k > 0 {
      TakenAtLeast(keys, m, p[2 * k - 1]);
    } else {
      FirstPick(keys, m);
    }
    TwoMorePicks(p, Taken(keys, m), Taken(keys, m1));
  }

  lemma SameWeights(keys: seq<nat>, m: Merging)
    requires CanTake(keys, m)
    ensures AfterTake(keys, m).weights == m.weights
  {
  }

  lemma WeightsGrow(keys: seq<nat>, m: Merging, p: seq<nat>, k: nat)
    requires Countable(keys) && Exact(keys, m, p, k) && k + 1 < |keys|
    ensures var x, y := Taken(keys, m), Taken(keys, AfterTake(keys, m));
            Ascending(m.weights + [x + y]) && (k > 0 ==> m.weights[k - 1] <= x + y)
  {
    PicksGrow(keys, m, p, k);
    if k > 0 {
      assert m.weights[k - 1] == p[2 * (k - 1)] + p[2 * (k - 1) + 1];
      assert p[2 * k - 2] <= p[2 * k - 1];
    }
  }

  /** A tree that is taken weighs what is picked, and gets the tree under construction as its parent. */
  lemma TakePick(keys: seq<nat>, m: Merging)
    requires CanTake(keys, m) && |m.parents| <= |m.weights|
    ensures var m1 := AfterTake(keys, m);
            || m1.parents == m.parents
            || (m1.parents == m.parents + [|m.weights|] && |m.parents| < |m.weights|
                && m.weights[|m.parents|] == Taken(keys, m))
  {
  }

  lemma ParentsPick(keys: seq<nat>, m: Merging, p: seq<nat>, k: nat)
    requires Exact(keys, m, p, k) && k + 1 < |keys|
    ensures CanTake(keys, m) && CanTake(keys, AfterTake(keys, m))
    ensures var m1 := AfterTake(keys, m);
            var q := p + [Taken(keys, m), Taken(keys, m1)];
            var m2 := AfterTake(keys, m1);
            forall i | 0 <= i < |m2.parents| ::
              i < k && m2.parents[i] <= k
              && (m.weights[i] == q[2 * m2.parents[i]] || m.weights[i] == q[2 * m2.parents[i] + 1])
  {
    hide Taken, AfterTake, AtLeast, Ascending, Left, MergeStep, TakesTree, CanTake;
    TwoTakes(keys, m, k);
    SameWeights(keys, m);
    TakePick(keys, m);
    TakePick(keys, AfterTake(keys, m));
  }

  lemma {:induction false} MergedExact(keys: seq<nat>, k: nat)
    requires Countable(keys) && k < |keys|
    ensures Exact(keys, Merged(keys, k), Picks(keys, k), k)
  {
    hide Exact, MergeStep, AfterTake, Taken, Countable;
    if k == 0 {
      StartExact(keys);
    } else {
      MergedExact(keys, k - 1);
      ExactStep(keys, Merged(keys, k - 1), Picks(keys, k - 1), k - 1);
    }
  }

  lemma StartExact(keys: seq<nat>)
    ensures Exact(keys, NOTHING_MERGED, [], 0)
  {
  }

  function Fib(n: nat): nat { if n < 2 then n else Fib(n - 1) + Fib(n - 2) }

  /** A grandparent weighs at least as much as the parent and the child together. */
  lemma Grandparent(keys: seq<nat>, i: nat)
    requires Countable(keys) && |keys| >= 2 && i < |keys| - 2
    ensures ParentsOk(ParentsOf(keys))
    ensures var parents, w := ParentsOf(keys), Merged(keys, |keys| - 1).weights;
            var j := parents[i];
            && i < j <= |keys| - 2 && w[j] > w[i]
            && (j < |keys| - 2 ==> w[parents[j]] >= w[j] + w[i])
  {
    hide Countable, Exact, Picks, Merged;
    var k := |keys| - 1;
    ParentsOfOk(keys);
    MergedExact(keys, k);
    GrandparentPicks(keys, Merged(keys, k), Picks(keys, k), k, i);
  }

  lemma GrandparentPicks(keys: seq<nat>, m: Merging, p: seq<nat>, k: nat, i: nat)
    requires Exact(keys, m, p, k) && i < |m.parents| && i < m.parents[i]
    ensures var j := m.parents[i];
            && m.weights[j] > m.weights[i]
            && (j < |m.parents| && j < m.parents[j] ==> m.weights[m.parents[j]] >= m.weights[j] + m.weights[i])
  {
    hide Left, SumFrom, AtLeast, Ascending;
    var j := m.parents[i];
    assert m.weights[j] == p[2 * j] + p[2 * j + 1];
    if j < |m.parents| && j < m.parents[j] {
      var g := m.parents[j];
      assert m.weights[g] == p[2 * g] + p[2 * g + 1];
      Pairs(p, j, g);
    }
  }

  lemma Pairs(p: seq<nat>, j: nat, g: nat)
    requires Ascending(p) && j < g && 2 * g + 1 < |p|
    ensures p[2 * j] <= p[2 * g] && p[2 * j + 1] <= p[2 * g] <= p[2 * g + 1]
  {
  }

  lemma {:induction false} Climb(keys: seq<nat>, i: nat, c: nat)
    requires Countable(keys) && |keys| >= 2 && ParentsOk(ParentsOf(keys)) && i < |keys| - 2
    requires var parents, w := ParentsOf(keys), Merged(keys, |keys| - 1).weights;
             w[i] >= Fib(c) && w[parents[i]] >= Fib(c + 1)
    ensures Merged(keys, |keys| - 1).weights[|keys| - 2] >= Fib(c + Depth(ParentsOf(keys), i))
    decreases |keys| - i
  {
    hide Merged, Countable, ParentsOk;
    var parents := ParentsOf(keys);
    var j := parents[i];
    Grandparent(keys, i);
    if j < |keys| - 2 {
      Climb(keys, j, c + 1);
    }
  }

  /** The root weighs as much as all leaves together. */
  lemma RootWeight(keys: seq<nat>)
    requires Countable(keys) && |keys| >= 2
    ensures Merged(keys, |keys| - 1).weights[|keys| - 2] == SumFrom(keys, 0)
  {
    hide Countable, Exact, Picks, Merged;
    MergedExact(keys, |keys| - 1);
    AllMerged(keys, Merged(keys, |keys| - 1), Picks(keys, |keys| - 1));
  }

  lemma AllMerged(keys: seq<nat>, m: Merging, p: seq<nat>)
    requires |keys| >= 2 && Exact(keys, m, p, |keys| - 1) && |m.parents| == |keys| - 2
    ensures m.weights[|keys| - 2] == SumFrom(keys, 0)
  {
    var k := |keys| - 1;
    assert SumFrom(m.weights, |m.parents|) == m.weights[k - 1] + SumFrom(m.weights, k);
  }

  /** The deeper a node, the heavier the tree. */
  lemma DepthNeedsWeight(keys: seq<nat>, i: nat)
    requires Countable(keys) && |keys| >= 2 && ParentsOk(ParentsOf(keys)) && i <= |keys| - 2
    ensures Fib(Depth(ParentsOf(keys), i) + 3) <= SumFrom(keys, 0)
  {
    RootWeight(keys);
    TwoLeaves(keys, i);
    if i < |keys| - 2 {
      Grandparent(keys, i);
      Climb(keys, i, 3);
    }
  }

  lemma TwoLeaves(keys: seq<nat>, i: nat)
    requires Countable(keys) && |keys| >= 2 && i <= |keys| - 2
    ensures Merged(keys, |keys| - 1).weights[i] >= 2 && Fib(3) == 2 && Fib(4) == 3
  {
    hide Countable, Exact, Picks, Merged;
    MergedExact(keys, |keys| - 1);
    WeighTwo(keys, Merged(keys, |keys| - 1), Picks(keys, |keys| - 1), |keys| - 1, i);
  }

  lemma WeighTwo(keys: seq<nat>, m: Merging, p: seq<nat>, k: nat, i: nat)
    requires Exact(keys, m, p, k) && i < k
    ensures m.weights[i] >= 2
  {
    assert m.weights[i] == p[2 * i] + p[2 * i + 1];
  }

  lemma {:induction false} FibMonotone(m: nat, n: nat)
    requires m <= n
    ensures Fib(m) <= Fib(n)
  {
    if m < n {
      FibMonotone(m, n - 1);
    }
  }

  lemma FibTwentyFive()
    ensures Fib(25) == 75025
  {
    assert Fib(6) == 8 && Fib(7) == 13;
    assert Fib(8) == 21 && Fib(9) == 34;
    assert Fib(10) == 55 && Fib(11) == 89;
    assert Fib(12) == 144 && Fib(13) == 233;
    assert Fib(14) == 377 && Fib(15) == 610;
    assert Fib(16) == 987 && Fib(17) == 1597;
    assert Fib(18) == 2584 && Fib(19) == 4181;
    assert Fib(20) == 6765 && Fib(21) == 10946;
    assert Fib(22) == 17711 && Fib(23) == 28657;
  }

  /** With a sum of less than 2^16 no inner node is deeper than 21, so no leaf is deeper than 22. */
  lemma DepthBound(keys: seq<nat>, i: nat)
    requires Countable(keys) && |keys| >= 2 && ParentsOk(ParentsOf(keys)) && i <= |keys| - 2
    ensures Depth(ParentsOf(keys), i) <= 21
  {
    hide Depth, Countable, ParentsOk, Fib;
    DepthNeedsWeight(keys, i);
    FibTwentyFive();
    if Depth(ParentsOf(keys), i) > 21 {
      FibMonotone(25, Depth(ParentsOf(keys), i) + 3);
      CountableFits(keys);
    }
  }

  lemma CountableFits(keys: seq<nat>)
    requires Countable(keys)
    ensures SumFrom(keys, 0) < KEY_LIMIT
  {
  }

  // ----- with wrap-around, a tree can be too deep -----

  /** 34 ascending frequencies of 16 bits: two small ones and then the largest possible ones. */
  const DEEP: seq<nat> := [100, 100] + seq(32, _ => 65535)

  /** The sums so far, and the parents: a chain. */
  function Chained(k: nat): Merging
    requires 1 <= k <= 33
  {
    if k == 1 then Merging([200], [], 2)
    else
      var m := Chained(k - 1);
      Merging(m.weights + [201 - k], m.parents + [k - 1], k + 1)
  }

  lemma {:induction false} ChainedIs(k: nat)
    requires 1 <= k <= 33
    ensures var m := Chained(k);
            && |m.weights| == k && |m.parents| == k - 1 && m.leaf == k + 1 && m.weights[k - 1] == 201 - k
            && forall i | 0 <= i < k - 1 :: m.parents[i] == i + 1
  {
    if k > 1 {
      ChainedIs(k - 1);
    }
  }

  /** Each sum wraps around to one less than the sum before it, so it is always lighter than the next leaf. */
  lemma {:induction false} DeepMerged(k: nat)
    requires 1 <= k <= 33
    ensures Merged(DEEP, k) == Chained(k)
  {
    hide MergeStep;
    if k == 1 {
      FirstMerge(DEEP);
    } else {
      DeepMerged(k - 1);
      ChainedIs(k - 1);
      DeepStep(Chained(k - 1), k - 1);
    }
  }

  lemma FirstMerge(keys: seq<nat>)
    requires |keys| >= 2
    ensures Merged(keys, 1) == Merging([(keys[0] + keys[1]) % KEY_LIMIT], [], 2)
  {
    assert Merged(keys, 0) == NOTHING_MERGED;
  }

  lemma DeepStep(m: Merging, k: nat)
    requires 1 <= k <= 32 && |m.weights| == k && |m.parents| == k - 1 && m.leaf == k + 1 && m.weights[k - 1] == 201 - k
    ensures Stage(DEEP, m, k)
    ensures MergeStep(DEEP, m) == Merging(m.weights + [200 - k], m.parents + [k], k + 2)
  {
    assert DEEP[k + 1] == 65535;
    assert TakesTree(DEEP, m);
    var m1 := AfterTake(DEEP, m);
    assert !TakesTree(DEEP, m1);
    assert (201 - k + 65535) % KEY_LIMIT == 200 - k;
  }

  lemma {:induction false} ChainDepth(parents: seq<nat>, i: nat)
    requires ParentsOk(parents) && i <= |parents| && forall j | 0 <= j < |parents| :: parents[j] == j + 1
    ensures Depth(parents, i) == |parents| - i
    decreases |parents| - i
  {
    if i < |parents| {
      ChainDepth(parents, i + 1);
    }
  }

  /** These frequencies have an inner node of depth 32, so a leaf of depth 33. */
  lemma DeepTree()
    ensures |DEEP| == 34 && Ascending(DEEP) && forall i | 0 <= i < 34 :: 0 < DEEP[i] < KEY_LIMIT
    ensures ParentsOk(ParentsOf(DEEP)) && Depth(ParentsOf(DEEP), 0) == 32
  {
    hide Merged;
    ParentsOfOk(DEEP);
    DeepMerged(33);
    ChainedIs(33);
    ChainDepth(ParentsOf(DEEP), 0);
  }
}
