/** The cost of a code, and why no code costs less than the tree that tdefl merges.

A code is given by the lengths of its words; it exists when their Kraft sum fits.  The two lightest symbols may
always have the two longest words, and these may be siblings: merging them leaves a smaller problem of the same kind.
 */
module HuffmanCost {
  import opened BitStrings
  import opened HuffmanTrees

  /** How many bits a message takes: each weight times the length of its word. */
  function Cost(weights: seq<nat>, lengths: seq<nat>): nat
    requires |weights| == |lengths|
  {
    if weights == [] then 0 else weights[0] * lengths[0] + Cost(weights[1..], lengths[1..])
  }

  ghost predicate UpTo(lengths: seq<nat>, top: nat) {
    forall i | 0 <= i < |lengths| :: lengths[i] <= top
  }

  /** The Kraft sum of the lengths up to `top`, in units of 2^-top. */
  function Room(lengths: seq<nat>, top: nat): nat {
    if lengths == [] then 0
    else (if lengths[0] <= top then Pow2(top - lengths[0]) else 0) + Room(lengths[1..], top)
  }

  /** There is a prefix code with words of these lengths, none longer than `top`. */
  ghost predicate HasCode(lengths: seq<nat>, top: nat) {
    UpTo(lengths, top) && Room(lengths, top) <= Pow2(top)
  }

  // ----- taking one element out -----

  function Without<T>(s: seq<T>, i: nat): (rest: seq<T>)
    requires i < |s|
    ensures |rest| == |s| - 1
  {
    s[..i] + s[i + 1..]
  }

  lemma WithoutRest<T>(s: seq<T>, i: nat)
    requires 0 < i < |s|
    ensures Without(s, i)[0] == s[0] && Without(s, i)[1..] == Without(s[1..], i - 1)
  {
  }

  lemma WithoutFirst<T>(s: seq<T>)
    requires s != []
    ensures Without(s, 0) == s[1..]
  {
  }

  lemma {:induction false} CostWithout(weights: seq<nat>, lengths: seq<nat>, i: nat)
    requires |weights| == |lengths| && i < |weights|
    ensures Cost(weights, lengths) == weights[i] * lengths[i] + Cost(Without(weights, i), Without(lengths, i))
  {
    hide Without;
    if i > 0 {
      CostWithout(weights[1..], lengths[1..], i - 1);
      WithoutRest(weights, i);
      WithoutRest(lengths, i);
    } else {
      WithoutFirst(weights);
      WithoutFirst(lengths);
    }
  }

  lemma {:induction false} RoomWithout(lengths: seq<nat>, top: nat, i: nat)
    requires UpTo(lengths, top) && i < |lengths|
    ensures UpTo(Without(lengths, i), top)
    ensures Room(lengths, top) == Pow2(top - lengths[i]) + Room(Without(lengths, i), top)
  {
    hide Pow2, Without;
    if i > 0 {
      RoomWithout(lengths[1..], top, i - 1);
      WithoutRest(lengths, i);
    } else {
      WithoutFirst(lengths);
    }
  }

  // ----- the lightest symbol may have the longest word -----

  lemma CostUpdate(weights: seq<nat>, lengths: seq<nat>, i: nat, v: nat)
    requires |weights| == |lengths| && i < |weights|
    ensures Cost(weights, lengths[i := v]) + weights[i] * lengths[i] == Cost(weights, lengths) + weights[i] * v
  {
    hide Cost, Without;
    CostWithout(weights, lengths, i);
    CostWithout(weights, lengths[i := v], i);
    SameWithout(lengths, i, v);
  }

  lemma SameWithout(s: seq<nat>, i: nat, v: nat)
    requires i < |s|
    ensures Without(s[i := v], i) == Without(s, i)
  {
  }

  lemma RoomUpdate(lengths: seq<nat>, top: nat, i: nat, v: nat)
    requires UpTo(lengths, top) && i < |lengths| && v <= top
    ensures UpTo(lengths[i := v], top)
    ensures Room(lengths[i := v], top) + Pow2(top - lengths[i]) == Room(lengths, top) + Pow2(top - v)
  {
    hide Room, Without, Pow2;
    RoomWithout(lengths, top, i);
    RoomWithout(lengths[i := v], top, i);
    SameWithout(lengths, i, v);
  }

  lemma {:induction false} Longest(lengths: seq<nat>) returns (a: nat)
    requires lengths != []
    ensures a < |lengths| && forall i | 0 <= i < |lengths| :: lengths[i] <= lengths[a]
  {
    a := 0;
    if |lengths| > 1 {
      var b := Longest(lengths[1..]);
      assert forall i | 1 <= i < |lengths| :: lengths[i] == lengths[1..][i - 1];
      a := if lengths[b + 1] >= lengths[0] then b + 1 else 0;
    }
  }

  lemma Products(x: nat, y: nat, short: nat, long: nat)
    requires x <= y && short <= long
    ensures x * long + y * short <= x * short + y * long
  {
    assert (y - x) * (long - short) >= 0;
  }

  /** Exchanging the word of a lightest symbol with a longest word costs nothing. */
  lemma Exchange(weights: seq<nat>, lengths: seq<nat>, top: nat, i: nat) returns (exchanged: seq<nat>)
    requires |weights| == |lengths| && i < |weights| && UpTo(lengths, top)
    requires forall j | 0 <= j < |weights| :: weights[i] <= weights[j]
    ensures |exchanged| == |lengths| && UpTo(exchanged, exchanged[i]) && exchanged[i] <= top
    ensures Room(exchanged, top) == Room(lengths, top)
    ensures Cost(weights, exchanged) <= Cost(weights, lengths)
    ensures forall bound: nat | UpTo(lengths, bound) :: UpTo(exchanged, bound)
  {
    hide Cost, Room, Pow2;
    var a := Longest(lengths);
    var short, long := lengths[i], lengths[a];
    var half := lengths[i := long];
    exchanged := half[a := short];
    if a != i {
      CostUpdate(weights, lengths, i, long);
      CostUpdate(weights, half, a, short);
      RoomUpdate(lengths, top, i, long);
      RoomUpdate(half, top, a, short);
      Products(weights[i], weights[a], short, long);
    } else {
      assert exchanged == lengths;
    }
  }

  // ----- the two longest words may be siblings -----

  /** In finer units the same lengths make twice the sum. */
  lemma {:induction false} RoomDoubles(lengths: seq<nat>, top: nat)
    requires UpTo(lengths, top)
    ensures UpTo(lengths, top + 1) && Room(lengths, top + 1) == 2 * Room(lengths, top)
  {
    if lengths != [] {
      RoomDoubles(lengths[1..], top);
    }
  }

  /** A word that is longer than all others can be shortened to the length of the next one. */
  lemma {:induction false} Shorten(lengths: seq<nat>, long: nat, next: nat)
    requires next <= long && UpTo(lengths, next) && UpTo(lengths, long) && 1 + Room(lengths, long) <= Pow2(long)
    ensures 1 + Room(lengths, next) <= Pow2(next)
    decreases long
  {
    if next < long {
      RoomDoubles(lengths, long - 1);
      Shorten(lengths, long - 1, next);
    }
  }

  /** Whatever the code, two lightest symbols can be taken out of it as siblings without more cost. */
  lemma TakeSiblings(weights: seq<nat>, lengths: seq<nat>, top: nat, i: nat, j: nat)
    returns (others: seq<nat>, long: nat)
    requires |weights| == |lengths| >= 2 && i < |weights| && j < |weights| - 1 && HasCode(lengths, top)
    requires forall k | 0 <= k < |weights| :: weights[i] <= weights[k]
    requires var rest := Without(weights, i); forall k | 0 <= k < |rest| :: rest[j] <= rest[k]
    ensures long >= 1 && |others| == |weights| - 2 && UpTo(others, long) && 2 + Room(others, long) <= Pow2(long)
    ensures var rest := Without(weights, i);
            Cost(weights, lengths) >= (weights[i] + rest[j]) * long + Cost(Without(rest, j), others)
  {
    hide Cost, Room, Pow2;
    var rest := Without(weights, i);
    var first := Exchange(weights, lengths, top, i);
    var longest := first[i];
    var some := Without(first, i);
    FirstOut(weights, first, top, i);
    var second := Exchange(rest, some, longest, j);
    long := second[j];
    others := Without(second, j);
    Shorten(second, longest, long);
    CostWithout(rest, second, j);
    RoomWithout(second, long, j);
    Together(weights[i], rest[j], longest, long);
    PowOne(long);
  }

  /** In units of its own size, a longest word takes up 1. */
  lemma FirstOut(weights: seq<nat>, lengths: seq<nat>, top: nat, i: nat)
    requires |weights| == |lengths| && i < |weights| && UpTo(lengths, lengths[i]) && lengths[i] <= top
    requires UpTo(lengths, top) && Room(lengths, top) <= Pow2(top)
    ensures UpTo(Without(lengths, i), lengths[i]) && 1 + Room(Without(lengths, i), lengths[i]) <= Pow2(lengths[i])
    ensures Cost(weights, lengths) == weights[i] * lengths[i] + Cost(Without(weights, i), Without(lengths, i))
  {
    hide Cost, Room, Pow2;
    Coarsen(lengths, top, lengths[i]);
    RoomWithout(lengths, lengths[i], i);
    CostWithout(weights, lengths, i);
    PowOne(0);
  }

  lemma {:induction false} Coarsen(lengths: seq<nat>, top: nat, lower: nat)
    requires lower <= top && UpTo(lengths, lower) && UpTo(lengths, top) && Room(lengths, top) <= Pow2(top)
    ensures Room(lengths, lower) <= Pow2(lower)
    decreases top
  {
    if lower < top {
      RoomDoubles(lengths, top - 1);
      Coarsen(lengths, top - 1, lower);
    }
  }

  lemma PowOne(n: nat)
    ensures Pow2(0) == 1 && (Pow2(n) >= 2 ==> n >= 1)
  {
  }

  lemma Together(x: nat, y: nat, longest: nat, long: nat)
    requires long <= longest
    ensures x * longest + y * long >= (x + y) * long
  {
    assert x * longest >= x * long;
  }

  /** Two siblings at the end of a word of length `long - 1` can give way to that word itself. */
  lemma JoinSiblings(weights: seq<nat>, p: nat, others: seq<nat>, long: nat) returns (lengths: seq<nat>)
    requires p < |weights| == |others| + 1 && long >= 1 && UpTo(others, long) && 2 + Room(others, long) <= Pow2(long)
    ensures |lengths| == |weights| && HasCode(lengths, long)
    ensures Cost(weights, lengths) + weights[p] == weights[p] * long + Cost(Without(weights, p), others)
  {
    hide Cost, Room, Pow2;
    lengths := others[..p] + [long - 1] + others[p..];
    assert Without(lengths, p) == others;
    RoomWithout(lengths, long, p);
    CostWithout(weights, lengths, p);
    PowOfOne();
    OneShorter(weights[p], long);
  }

  lemma PowOfOne()
    ensures Pow2(1) == 2
  {
  }

  lemma OneShorter(x: nat, long: nat)
    requires long >= 1
    ensures x * (long - 1) + x == x * long
  {
  }

  // ----- merging is optimal -----

  /** The weights of all trees and leaves not yet taken. */
  ghost function Queue(keys: seq<nat>, m: Merging): seq<nat>
    requires |m.parents| <= |m.weights| && m.leaf <= |keys|
  {
    m.weights[|m.parents|..] + keys[m.leaf..]
  }

  /** Where in the queue the next one to take is. */
  ghost function Next(keys: seq<nat>, m: Merging): nat
    requires |m.parents| <= |m.weights|
  {
    if TakesTree(keys, m) then 0 else |m.weights| - |m.parents|
  }

  /** What is taken is a lightest element of the queue, and it leaves the queue. */
  lemma QueueTake(keys: seq<nat>, m: Merging)
    requires CanTake(keys, m) && |m.parents| <= |m.weights| && m.leaf <= |keys|
    requires Ascending(keys) && Ascending(m.weights)
    ensures var m1, q := AfterTake(keys, m), Queue(keys, m);
            && |m1.parents| <= |m1.weights| && m1.leaf <= |keys| && m1.weights == m.weights
            && Next(keys, m) < |q| && q[Next(keys, m)] == Taken(keys, m)
            && Queue(keys, m1) == Without(q, Next(keys, m))
            && forall k | 0 <= k < |q| :: Taken(keys, m) <= q[k]
  {
    TakesLightest(keys, m);
    hide Ascending;
    var m1, q, i := AfterTake(keys, m), Queue(keys, m), Next(keys, m);
    if TakesTree(keys, m) {
      assert Queue(keys, m1) == q[1..] == Without(q, 0);
    } else {
      assert Queue(keys, m1) == q[..i] + q[i + 1..];
    }
  }

  /** A new tree enters the queue behind the other trees. */
  lemma QueueAdd(keys: seq<nat>, m: Merging, weight: nat)
    requires |m.parents| <= |m.weights| && m.leaf <= |keys|
    ensures var m', p := m.(weights := m.weights + [weight]), |m.weights| - |m.parents|;
            var q := Queue(keys, m');
            p < |q| && q[p] == weight && Without(q, p) == Queue(keys, m)
  {
    var m', p := m.(weights := m.weights + [weight]), |m.weights| - |m.parents|;
    var q := Queue(keys, m');
    assert q[..p] + q[p + 1..] == Queue(keys, m);
  }

  /** The weight of the tree that the next merge makes. */
  ghost function MergeWeight(keys: seq<nat>, k: nat): nat
    requires k + 1 < |keys|
  {
    var m := Merged(keys, k);
    TwoTakes(keys, m, k);
    Taken(keys, m) + Taken(keys, AfterTake(keys, m))
  }

  /** The weights of all inner nodes made from the merge `k` on. */
  ghost function MergeCost(keys: seq<nat>, k: nat): nat
    requires k < |keys|
    decreases |keys| - k
  {
    if k + 1 == |keys| then 0 else MergeWeight(keys, k) + MergeCost(keys, k + 1)
  }

  /** No code for the elements of the queue costs less than the merges that are still to come. */
  lemma {:induction false} LeastCost(keys: seq<nat>, k: nat, lengths: seq<nat>, top: nat)
    requires Countable(keys) && k < |keys| && HasCode(lengths, top)
    requires |lengths| == |Queue(keys, Merged(keys, k))|
    ensures Cost(Queue(keys, Merged(keys, k)), lengths) >= MergeCost(keys, k)
    decreases |keys| - k
  {
    hide Countable, Exact, Picks, Stage, MergeStep, CanTake, Queue, Cost, HasCode, MergeWeight, Merged;
    if k + 1 < |keys| {
      var m := Merged(keys, k);
      var others, long := TakenAsSiblings(keys, k, lengths, top);
      var next, p := MergeIsJoin(keys, k);
      var joined := JoinSiblings(next, p, others, long);
      Saved(MergeWeight(keys, k), long);
      LeastCost(keys, k + 1, joined, long);
    }
  }

  lemma Saved(weight: nat, long: nat)
    ensures weight * long == long * weight
  {
  }

  /** The two that the next merge takes are siblings of a code that costs no more. */
  lemma TakenAsSiblings(keys: seq<nat>, k: nat, lengths: seq<nat>, top: nat) returns (others: seq<nat>, long: nat)
    requires Countable(keys) && k + 1 < |keys| && HasCode(lengths, top)
    requires |lengths| == |Queue(keys, Merged(keys, k))|
    ensures var left := QueueAfter(keys, k);
            && long >= 1 && |others| == |left| && UpTo(others, long) && 2 + Room(others, long) <= Pow2(long)
            && Cost(Queue(keys, Merged(keys, k)), lengths) >= MergeWeight(keys, k) * long + Cost(left, others)
  {
    hide Countable, Merged, Queue, QueueAfter, MergeWeight, Cost, HasCode, Room, Pow2;
    var i, j := TwoFromQueue(keys, k);
    others, long := TakeSiblings(Queue(keys, Merged(keys, k)), lengths, top, i, j);
  }

  /** The next merge takes the two lightest elements of the queue. */
  lemma TwoFromQueue(keys: seq<nat>, k: nat) returns (i: nat, j: nat)
    requires Countable(keys) && k + 1 < |keys|
    ensures var q := Queue(keys, Merged(keys, k));
            && |q| >= 2 && i < |q| && j < |q| - 1 && (forall other | 0 <= other < |q| :: q[i] <= q[other])
            && var rest := Without(q, i);
               && (forall other | 0 <= other < |rest| :: rest[j] <= rest[other])
               && MergeWeight(keys, k) == q[i] + rest[j] && QueueAfter(keys, k) == Without(rest, j)
  {
    hide Countable, Exact, Picks, MergeStep, Merged, AfterTake, Taken, CanTake, Ascending, Queue, Next;
    var m := Merged(keys, k);
    MergedExact(keys, k);
    AscendingQueue(keys, m, Picks(keys, k), k);
    TwoTakes(keys, m, k);
    QueueTake(keys, m);
    QueueTake(keys, AfterTake(keys, m));
    i, j := Next(keys, m), Next(keys, AfterTake(keys, m));
  }

  lemma AscendingQueue(keys: seq<nat>, m: Merging, p: seq<nat>, k: nat)
    requires Countable(keys) && Exact(keys, m, p, k)
    ensures Ascending(keys) && Ascending(m.weights) && Stage(keys, m, k)
  {
  }

  /** The queue between the two takes of a merge and the entry of the new tree. */
  ghost function QueueAfter(keys: seq<nat>, k: nat): seq<nat>
    requires k + 1 < |keys|
  {
    var m := Merged(keys, k);
    TwoTakes(keys, m, k);
    Queue(keys, AfterTake(keys, AfterTake(keys, m)))
  }

  lemma AddsWeight(keys: seq<nat>, m: Merging, p: seq<nat>, k: nat)
    requires Countable(keys) && k + 1 < |keys| && m == Merged(keys, k) && Exact(keys, m, p, k)
    ensures CanTake(keys, m) && CanTake(keys, AfterTake(keys, m))
    ensures var m2 := AfterTake(keys, AfterTake(keys, m));
            && |m2.parents| <= |m2.weights| && m2.leaf <= |keys|
            && MergeStep(keys, m) == m2.(weights := m2.weights + [MergeWeight(keys, k)])
  {
    hide Countable, Exact, Picks, Taken, AfterTake, CanTake, Merged;
    StepWeights(keys, m, p, k);
    TwoTakes(keys, m, k);
  }

  lemma MergeIsJoin(keys: seq<nat>, k: nat) returns (next: seq<nat>, p: nat)
    requires Countable(keys) && k + 1 < |keys|
    ensures next == Queue(keys, Merged(keys, k + 1)) && p < |next|
    ensures next[p] == MergeWeight(keys, k) && Without(next, p) == QueueAfter(keys, k)
  {
    hide Countable, Exact, Picks, Taken, Queue, AfterTake, CanTake, MergeWeight;
    MergedExact(keys, k);
    var m := Merged(keys, k);
    AddsWeight(keys, m, Picks(keys, k), k);
    var m2 := AfterTake(keys, AfterTake(keys, m));
    QueueAdd(keys, m2, MergeWeight(keys, k));
    next, p := Queue(keys, Merged(keys, k + 1)), |m2.weights| - |m2.parents|;
  }

  // ----- what the merged tree costs -----

  /** The depths of the trees from `i` up to `k`. */
  ghost function TreeDepths(parents: seq<nat>, i: nat, k: nat): (d: seq<nat>)
    requires ParentsOk(parents) && k <= |parents| + 1
    ensures |d| == if i < k then k - i else 0
    decreases k - i
  {
    if i >= k then [] else [Depth(parents, i)] + TreeDepths(parents, i + 1, k)
  }

  /** Puts the depth of the next one to take in front of the others if it is a leaf. */
  ghost function WithLeaf(keys: seq<nat>, m: Merging, depth: nat, others: seq<nat>): seq<nat> {
    if TakesTree(keys, m) then others else [depth] + others
  }

  /** The depths of the leaves that are taken from the merge `k` on: children of the trees made there. */
  ghost function LeavesFrom(keys: seq<nat>, k: nat): (d: seq<nat>)
    requires |keys| >= 2 && ParentsOk(ParentsOf(keys)) && k < |keys|
    ensures |d| == |keys| - Merged(keys, k).leaf
    decreases |keys| - k
  {
    if k + 1 == |keys| then []
    else
      var m := Merged(keys, k);
      TwoTakes(keys, m, k);
      var depth := Depth(ParentsOf(keys), k) + 1;
      WithLeaf(keys, m, depth, WithLeaf(keys, AfterTake(keys, m), depth, LeavesFrom(keys, k + 1)))
  }

  /** The depths of all leaves, in the order of their frequencies. */
  ghost function LeafDepthsOf(keys: seq<nat>): (d: seq<nat>)
    requires |keys| >= 2 && ParentsOk(ParentsOf(keys))
    ensures |d| == |keys|
  {
    LeavesFrom(keys, 0)
  }

  lemma {:induction false} MergedParentsStay(keys: seq<nat>, k: nat, j: nat)
    requires k <= j < |keys|
    ensures Merged(keys, k).parents <= Merged(keys, j).parents
    decreases j
  {
    hide Merged, MergeStep;
    if k < j {
      MergedParentsStay(keys, k, j - 1);
      StepParents(keys, Merged(keys, j - 1), j - 1);
      MergedNext(keys, j - 1);
    }
  }

  lemma MergedNext(keys: seq<nat>, k: nat)
    requires k + 1 < |keys|
    ensures CanTake(keys, Merged(keys, k)) && CanTake(keys, AfterTake(keys, Merged(keys, k)))
    ensures Merged(keys, k + 1) == MergeStep(keys, Merged(keys, k))
  {
    TwoTakes(keys, Merged(keys, k), k);
  }

  /** A tree that the merge `k` takes is one level below the tree that it makes. */
  lemma TakenDepth(keys: seq<nat>, k: nat)
    requires |keys| >= 2 && ParentsOk(ParentsOf(keys)) && k + 1 < |keys|
    ensures CanTake(keys, Merged(keys, k)) && CanTake(keys, AfterTake(keys, Merged(keys, k)))
    ensures var parents, m := ParentsOf(keys), Merged(keys, k);
            var m1 := AfterTake(keys, m);
            && (TakesTree(keys, m) ==>
                  |m.parents| < |parents| && Depth(parents, |m.parents|) == Depth(parents, k) + 1)
            && (TakesTree(keys, m1) ==>
                  |m1.parents| < |parents| && Depth(parents, |m1.parents|) == Depth(parents, k) + 1)
  {
    hide Merged, TakesTree;
    var m := Merged(keys, k);
    TwoTakes(keys, m, k);
    MergedNext(keys, k);
    MergedParentsStay(keys, k + 1, |keys| - 1);
  }

  /** What the trees and leaves not yet taken cost, given the depths of these leaves. */
  ghost function CostLeft(keys: seq<nat>, parents: seq<nat>, m: Merging, leaves: seq<nat>): nat
    requires ParentsOk(parents) && |m.parents| <= |m.weights| <= |parents| + 1 && m.leaf <= |keys|
    requires |leaves| == |keys| - m.leaf
  {
    Cost(m.weights[|m.parents|..], TreeDepths(parents, |m.parents|, |m.weights|)) + Cost(keys[m.leaf..], leaves)
  }

  lemma TakeCost(keys: seq<nat>, parents: seq<nat>, m: Merging, depth: nat, others: seq<nat>)
    requires ParentsOk(parents) && |m.parents| <= |m.weights| <= |parents| + 1 && m.leaf <= |keys| && CanTake(keys, m)
    requires TakesTree(keys, m) ==> |m.parents| < |m.weights| && Depth(parents, |m.parents|) == depth
    requires |others| == |keys| - AfterTake(keys, m).leaf
    ensures CostLeft(keys, parents, m, WithLeaf(keys, m, depth, others))
         == Taken(keys, m) * depth + CostLeft(keys, parents, AfterTake(keys, m), others)
  {
    if TakesTree(keys, m) {
      FirstTreeCost(m.weights, parents, |m.parents|);
    } else {
      FirstLeafCost(keys, m.leaf, depth, others);
    }
    hide Cost, TreeDepths, Depth;
  }

  lemma FirstTreeCost(weights: seq<nat>, parents: seq<nat>, i: nat)
    requires ParentsOk(parents) && i < |weights| <= |parents| + 1
    ensures Cost(weights[i..], TreeDepths(parents, i, |weights|))
         == weights[i] * Depth(parents, i) + Cost(weights[i + 1..], TreeDepths(parents, i + 1, |weights|))
  {
    hide Depth, ParentsOk;
    assert weights[i..][1..] == weights[i + 1..];
    assert TreeDepths(parents, i, |weights|)[1..] == TreeDepths(parents, i + 1, |weights|);
  }

  lemma FirstLeafCost(keys: seq<nat>, i: nat, depth: nat, others: seq<nat>)
    requires i < |keys| && |others| == |keys| - i - 1
    ensures Cost(keys[i..], [depth] + others) == keys[i] * depth + Cost(keys[i + 1..], others)
  {
    assert keys[i..][1..] == keys[i + 1..];
    assert ([depth] + others)[1..] == others;
  }

  lemma {:induction false} CostAppend(weights: seq<nat>, lengths: seq<nat>, x: nat, d: nat)
    requires |weights| == |lengths|
    ensures Cost(weights + [x], lengths + [d]) == Cost(weights, lengths) + x * d
  {
    if weights == [] {
      assert Cost([x][1..], [d][1..]) == 0;
    } else {
      CostAppend(weights[1..], lengths[1..], x, d);
      assert (weights + [x])[1..] == weights[1..] + [x] && (lengths + [d])[1..] == lengths[1..] + [d];
    }
  }

  lemma {:induction false} TreeDepthsAppend(parents: seq<nat>, i: nat, k: nat)
    requires ParentsOk(parents) && i <= k <= |parents|
    ensures TreeDepths(parents, i, k + 1) == TreeDepths(parents, i, k) + [Depth(parents, k)]
    decreases k - i
  {
    if i < k {
      TreeDepthsAppend(parents, i + 1, k);
    } else {
      assert TreeDepths(parents, k + 1, k + 1) == [];
    }
  }

  lemma AddCost(keys: seq<nat>, parents: seq<nat>, m: Merging, weight: nat, leaves: seq<nat>)
    requires ParentsOk(parents) && |m.parents| <= |m.weights| <= |parents| && m.leaf <= |keys|
    requires |leaves| == |keys| - m.leaf
    ensures CostLeft(keys, parents, m.(weights := m.weights + [weight]), leaves)
         == CostLeft(keys, parents, m, leaves) + weight * Depth(parents, |m.weights|)
  {
    hide Cost, TreeDepths;
    TreeDepthsAppend(parents, |m.parents|, |m.weights|);
    CostAppend(m.weights[|m.parents|..], TreeDepths(parents, |m.parents|, |m.weights|), weight,
               Depth(parents, |m.weights|));
    assert (m.weights + [weight])[|m.parents|..] == m.weights[|m.parents|..] + [weight];
  }

  /** The weight of everything above the leaves is what the leaves cost: each merge pays for one bit. */
  lemma {:induction false} TreeCost(keys: seq<nat>, k: nat)
    requires Countable(keys) && |keys| >= 2 && ParentsOk(ParentsOf(keys)) && k < |keys|
    ensures Stage(keys, Merged(keys, k), k)
    ensures CostLeft(keys, ParentsOf(keys), Merged(keys, k), LeavesFrom(keys, k)) == MergeCost(keys, k)
    decreases |keys| - k
  {
    hide Countable, Merged, MergeStep, CostLeft, WithLeaf, TakesTree, Taken, AfterTake, CanTake, ParentsOk, ParentsOf;
    if k + 1 < |keys| {
      TreeCost(keys, k + 1);
      MergePays(keys, k);
    } else {
      RootCost(keys);
    }
  }

  lemma RootCost(keys: seq<nat>)
    requires |keys| >= 2 && ParentsOk(ParentsOf(keys))
    ensures CostLeft(keys, ParentsOf(keys), Merged(keys, |keys| - 1), []) == 0
  {
    hide Merged, CostLeft;
    OneTreeCost(keys, ParentsOf(keys), Merged(keys, |keys| - 1));
  }

  lemma OneTreeCost(keys: seq<nat>, parents: seq<nat>, m: Merging)
    requires ParentsOk(parents) && m.parents == parents && |m.weights| == |parents| + 1 && m.leaf == |keys|
    ensures CostLeft(keys, parents, m, []) == 0
  {
    assert TreeDepths(parents, |parents| + 1, |parents| + 1) == [];
    assert TreeDepths(parents, |parents|, |parents| + 1) == [0];
    assert m.weights[|parents|..] == [m.weights[|parents|]];
    assert Cost([m.weights[|parents|]][1..], [0][1..]) == 0;
  }

  /** What a take finds and leaves. */
  lemma TakeBounds(keys: seq<nat>, m: Merging)
    requires CanTake(keys, m) && |m.parents| <= |m.weights| && m.leaf <= |keys|
    ensures TakesTree(keys, m) ==> |m.parents| < |m.weights|
    ensures var m1 := AfterTake(keys, m);
            |m.parents| <= |m1.parents| <= |m1.weights| && m1.leaf <= |keys| && m1.weights == m.weights
    ensures AfterTake(keys, m).leaf == if TakesTree(keys, m) then m.leaf else m.leaf + 1
  {
  }

  lemma MergePays(keys: seq<nat>, k: nat)
    requires Countable(keys) && |keys| >= 2 && ParentsOk(ParentsOf(keys)) && k + 1 < |keys|
    ensures CostLeft(keys, ParentsOf(keys), Merged(keys, k), LeavesFrom(keys, k))
         == MergeWeight(keys, k)
          + CostLeft(keys, ParentsOf(keys), Merged(keys, k + 1), LeavesFrom(keys, k + 1))
  {
    hide Countable, Exact, Picks, Merged, MergeStep, CostLeft, WithLeaf, TakesTree, Taken, AfterTake, CanTake, ParentsOk,
      ParentsOf, Depth;
    var parents, m := ParentsOf(keys), Merged(keys, k);
    var leaves, depth := LeavesFrom(keys, k + 1), Depth(parents, k) + 1;
    TwoTakes(keys, m, k);
    MergedExact(keys, k);
    AddsWeight(keys, m, Picks(keys, k), k);
    MergedNext(keys, k);
    TakenDepth(keys, k);
    var m1 := AfterTake(keys, m);
    TakeBounds(keys, m);
    TakeBounds(keys, m1);
    LeafAdded(keys, m1, depth, leaves);
    TakeCost(keys, parents, m1, depth, leaves);
    TakeCost(keys, parents, m, depth, WithLeaf(keys, m1, depth, leaves));
    AddCost(keys, parents, AfterTake(keys, m1), MergeWeight(keys, k), leaves);
    OneBit(Taken(keys, m), Taken(keys, m1), depth);
  }

  lemma LeafAdded(keys: seq<nat>, m: Merging, depth: nat, others: seq<nat>)
    ensures |WithLeaf(keys, m, depth, others)| == |others| + if TakesTree(keys, m) then 0 else 1
  {
  }

  lemma OneBit(x: nat, y: nat, depth: nat)
    requires depth > 0
    ensures x * depth + y * depth == (x + y) + (x + y) * (depth - 1)
  {
  }

  // ----- the least cost -----

  /** The lengths have a code, and no code costs less. */
  ghost predicate Optimal(weights: seq<nat>, lengths: seq<nat>) {
    && |lengths| == |weights|
    && (exists top: nat :: HasCode(lengths, top))
    && forall other: seq<nat>, top: nat | |other| == |weights| && HasCode(other, top) ::
         Cost(weights, lengths) <= Cost(weights, other)
  }

  /** The leaves of the merged tree cost no more than any code. */
  lemma MergedIsLeast(keys: seq<nat>, other: seq<nat>, top: nat)
    requires Countable(keys) && |keys| >= 2 && ParentsOk(ParentsOf(keys))
    requires |other| == |keys| && HasCode(other, top)
    ensures Cost(keys, LeafDepthsOf(keys)) <= Cost(keys, other)
  {
    hide Countable, HasCode, Cost, MergeCost, LeavesFrom, ParentsOk, ParentsOf;
    assert Merged(keys, 0) == NOTHING_MERGED;
    assert Queue(keys, NOTHING_MERGED) == keys;
    LeastCost(keys, 0, other, top);
    TreeCost(keys, 0);
    assert keys[0..] == keys;
    NoTrees(ParentsOf(keys));
  }

  lemma NoTrees(parents: seq<nat>)
    requires ParentsOk(parents)
    ensures Cost([], TreeDepths(parents, 0, 0)) == 0
  {
  }

  // ----- with wrap-around, the result can cost more -----

  /** Four ascending frequencies of 16 bits.  The sum of the first two wraps around to 0. */
  const WRAPPING: seq<nat> := [32768, 32768, 40000, 40000]

  lemma WrappingMerged()
    ensures Merged(WRAPPING, 1) == Merging([0], [], 2)
    ensures Merged(WRAPPING, 2) == Merging([0, 40000], [1], 3)
    ensures Merged(WRAPPING, 3) == Merging([0, 40000, 14464], [1, 2], 4)
    ensures ParentsOk(ParentsOf(WRAPPING)) && ParentsOf(WRAPPING) == [1, 2]
  {
    hide MergeStep;
    FirstMerge(WRAPPING);
    WrappingStep(Merging([0], [], 2), 1);
    WrappingStep(Merging([0, 40000], [1], 3), 2);
    MergedNext(WRAPPING, 1);
    MergedNext(WRAPPING, 2);
    ParentsOfOk(WRAPPING);
  }

  lemma WrappingStep(m: Merging, k: nat)
    requires (k == 1 && m == Merging([0], [], 2)) || (k == 2 && m == Merging([0, 40000], [1], 3))
    ensures Stage(WRAPPING, m, k)
    ensures MergeStep(WRAPPING, m)
         == if k == 1 then Merging([0, 40000], [1], 3) else Merging([0, 40000, 14464], [1, 2], 4)
  {
    var m1 := AfterTake(WRAPPING, m);
    if k == 1 {
      assert m1 == Merging([0], [1], 2);
    } else {
      assert m1 == Merging([0, 40000], [1], 4);
    }
  }

  lemma WrappingLeaves()
    ensures ParentsOk(ParentsOf(WRAPPING)) && LeafDepthsOf(WRAPPING) == [3, 3, 2, 1]
  {
    WrappingMerged();
    hide Merged;
    assert Merged(WRAPPING, 0) == NOTHING_MERGED;
    assert LeavesFrom(WRAPPING, 3) == [];
    assert LeavesFrom(WRAPPING, 2) == [1];
    assert LeavesFrom(WRAPPING, 1) == [2, 1];
  }

  /** Two bits for each of the four symbols would cost less. */
  lemma WrappingCostsMore()
    ensures Ascending(WRAPPING) && forall i | 0 <= i < 4 :: 0 < WRAPPING[i] < KEY_LIMIT
    ensures ParentsOk(ParentsOf(WRAPPING)) && !Optimal(WRAPPING, LeafDepthsOf(WRAPPING))
  {
    hide Merged, LeavesFrom, ParentsOf;
    WrappingLeaves();
    var two := [2, 2, 2, 2];
    FourTwos(two);
    FourCost(WRAPPING, two);
    FourCost(WRAPPING, [3, 3, 2, 1]);
  }

  lemma FourTwos(two: seq<nat>)
    requires two == [2, 2, 2, 2]
    ensures HasCode(two, 2)
  {
    assert two[1..][1..] == [2, 2] && [2, 2][1..] == [2] && [2][1..] == [];
    assert Room([2, 2], 2) == 2;
  }

  lemma FourCost(w: seq<nat>, d: seq<nat>)
    requires |w| == |d| == 4
    ensures Cost(w, d) == w[0] * d[0] + w[1] * d[1] + w[2] * d[2] + w[3] * d[3]
  {
    assert w[1..][1..] == w[2..] && d[1..][1..] == d[2..];
    assert w[2..][1..] == w[3..] && d[2..][1..] == d[3..];
    assert w[3..][1..] == [] && d[3..][1..] == [];
    assert Cost(w[3..], d[3..]) == w[3] * d[3];
    assert Cost(w[2..], d[2..]) == w[2] * d[2] + w[3] * d[3];
  }

  // ----- equal weights -----

  const EQUALS: seq<nat> := [1, 1, 2, 2]

  /** Of a leaf and a tree with the same weight the leaf is taken first.  So the tree of 1, 1, 2, 2 has depth 2
      everywhere; the other order would give a chain of the same cost. */
  lemma EqualsStayFlat()
    ensures ParentsOf(EQUALS) == [2, 2]
  {
    hide MergeStep, Merged;
    FirstMerge(EQUALS);
    EqualsStep(Merging([2], [], 2), 1);
    EqualsStep(Merging([2, 4], [], 4), 2);
    MergedNext(EQUALS, 1);
    MergedNext(EQUALS, 2);
  }

  lemma EqualsStep(m: Merging, k: nat)
    requires (k == 1 && m == Merging([2], [], 2)) || (k == 2 && m == Merging([2, 4], [], 4))
    ensures Stage(EQUALS, m, k)
    ensures MergeStep(EQUALS, m) == if k == 1 then Merging([2, 4], [], 4) else Merging([2, 4, 6], [2, 2], 4)
  {
    var m1 := AfterTake(EQUALS, m);
    if k == 1 {
      assert m1 == Merging([2], [], 3);
    } else {
      assert m1 == Merging([2, 4], [2], 4);
      assert AfterTake(EQUALS, m1) == Merging([2, 4], [2, 2], 4);
    }
  }
}
