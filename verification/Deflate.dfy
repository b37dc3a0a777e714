/** The Huffman tables of tdefl: limiting the code lengths, assigning sizes to symbols, and assigning codes. */
module Deflate {
  import opened BitStrings
  import opened CanonicalCodes
  import opened InflateTables
  import opened TreeBound

  const LENGTHS: nat := 32

  // ----- Kraft sums and numbers of codes -----

  /** The sum of 2^(m - i) over all codes of lengths `i` from 1 to `m`; `counts[i]` is the number of codes of
      length `i`. */
  function Kraft(counts: seq<int>, m: nat): int
    requires m < |counts|
  {
    if m == 0 then 0 else 2 * Kraft(counts, m - 1) + counts[m]
  }

  /** The number of codes of lengths from 1 to `m`. */
  function Sum(counts: seq<int>, m: nat): int
    requires m < |counts|
  {
    if m == 0 then 0 else Sum(counts, m - 1) + counts[m]
  }

  ghost predicate Counts(counts: seq<int>) {
    |counts| == LENGTHS + 1 && forall i | 0 <= i <= LENGTHS :: counts[i] >= 0
  }

  /** The histogram of the depths of the leaves of a binary tree in which every inner node has two children. */
  ghost predicate FullTree(counts: seq<int>) {
    Counts(counts) && Kraft(counts, LENGTHS) == Pow2(LENGTHS)
  }

  /** The histogram of a valid code with lengths up to `max` and `n` symbols. */
  ghost predicate LimitedCode(counts: seq<int>, max: nat, n: nat) {
    Counts(counts) && max <= LENGTHS && Kraft(counts, max) == Pow2(max) && Sum(counts, max) == n
  }

  lemma {:induction false} SameKraft(a: seq<int>, b: seq<int>, m: nat)
    requires m < |a| && m < |b| && forall i | 1 <= i <= m :: a[i] == b[i]
    ensures Kraft(a, m) == Kraft(b, m) && Sum(a, m) == Sum(b, m)
  {
    if m > 0 {
      SameKraft(a, b, m - 1);
    }
  }

  /** In a full tree, the leaves down to depth `m` leave room, and the deeper leaves more than fill it. */
  lemma {:induction false} RoomBelow(counts: seq<int>, m: nat)
    requires FullTree(counts) && m <= LENGTHS
    ensures 0 <= Pow2(m) - Kraft(counts, m) <= Sum(counts, LENGTHS) - Sum(counts, m)
    decreases LENGTHS - m
  {
    if m < LENGTHS {
      RoomBelow(counts, m + 1);
    }
  }

  lemma {:induction false} SumMonotone(counts: seq<int>, m: nat, n: nat)
    requires Counts(counts) && m <= n <= LENGTHS
    ensures 0 <= Sum(counts, m) <= Sum(counts, n) && 0 <= Kraft(counts, m)
    decreases n
  {
    if m < n {
      SumMonotone(counts, m, n - 1);
    } else if m > 0 {
      SumMonotone(counts, m - 1, m - 1);
    }
  }

  lemma {:induction false} NoCodes(counts: seq<int>, m: nat)
    requires m < |counts| && forall i | 1 <= i <= m :: counts[i] == 0
    ensures Kraft(counts, m) == 0 && Sum(counts, m) == 0
  {
    if m > 0 {
      NoCodes(counts, m - 1);
    }
  }

  /** Two codes in place of the parent of both: Kraft sums over both lengths do not change, those over the
      shorter length alone go down by one. */
  lemma {:induction false} SplitKraft(counts: seq<int>, i: nat, m: nat)
    requires Counts(counts) && 1 <= i < LENGTHS && m <= LENGTHS
    ensures var after := counts[i := counts[i] - 1][i + 1 := counts[i + 1] + 2];
            && Kraft(after, m) == Kraft(counts, m) - (if m == i then 1 else 0)
            && Sum(after, m) == Sum(counts, m) + (if m < i then 0 else if m == i then -1 else 1)
  {
    var after := counts[i := counts[i] - 1][i + 1 := counts[i + 1] + 2];
    if m < i {
      SameKraft(after, counts, m);
    } else {
      SplitKraft(counts, i, m - 1);
    }
  }

  lemma {:induction false} ShlInner(a: nat, n: nat)
    ensures Shl(2 * a, n) == Shl(a, n + 1)
  {
    if n > 0 {
      ShlInner(a, n - 1);
    }
  }

  /** One step of adding up the Kraft sum from the longest length down. */
  lemma KraftStep(counts: seq<int>, i: nat, max: nat)
    requires Counts(counts) && 1 <= i <= max <= LENGTHS
    ensures Kraft(counts, i) >= 0 && Kraft(counts, i - 1) >= 0
    ensures Shl(Kraft(counts, i), max - i) == Shl(counts[i], max - i) + Shl(Kraft(counts, i - 1), max - i + 1)
  {
    SumMonotone(counts, i, i);
    SumMonotone(counts, i - 1, i - 1);
    ShlAdd(2 * Kraft(counts, i - 1), counts[i], max - i);
    ShlInner(Kraft(counts, i - 1), max - i);
  }

  // ----- limiting the lengths -----

  /** All codes longer than `max` are counted as having length `max`. */
  method FoldLong(counts: array<int>, max: nat)
    requires counts.Length == LENGTHS + 1 && 1 <= max <= LENGTHS && Counts(counts[..])
    modifies counts
    ensures Counts(counts[..])
    ensures forall i | 0 <= i <= LENGTHS && i != max :: counts[i] == old(counts[i])
    ensures counts[max] == old(counts[max]) + Sum(old(counts[..]), LENGTHS) - Sum(old(counts[..]), max)
  {
    ghost var was := counts[..];
    for i := max + 1 to LENGTHS + 1
      invariant forall k | 0 <= k <= LENGTHS && k != max :: counts[k] == was[k]
      invariant counts[max] == was[max] + Sum(was, i - 1) - Sum(was, max)
      invariant counts[max] >= 0
    {
      counts[max] := counts[max] + counts[i];
    }
  }

  method KraftTotal(counts: array<int>, max: nat) returns (total: int)
    requires counts.Length == LENGTHS + 1 && 1 <= max <= LENGTHS && Counts(counts[..])
    ensures total == Kraft(counts[..], max)
  {
    total := 0;
    SumMonotone(counts[..], max, max);
    for i := max downto 0
      invariant Kraft(counts[..], i) >= 0
      invariant total + Shl(Kraft(counts[..], i), max - i) == Kraft(counts[..], max)
    {
      KraftStep(counts[..], i + 1, max);
      total := total + Shl(counts[i + 1], max - i - 1);
    }
    ShlZero(max);
  }

  /** The longest used length below `max`. */
  method LongestBelow(counts: array<int>, max: nat) returns (i: nat)
    requires counts.Length == LENGTHS + 1 && 1 <= max <= LENGTHS
    ensures i < max && (i > 0 ==> counts[i] != 0)
    ensures forall k | i < k < max :: counts[k] == 0
  {
    i := max - 1;
    while i > 0 && counts[i] == 0
      invariant i < max && forall k | i < k < max :: counts[k] == 0
    {
      i := i - 1;
    }
  }

  /** No code is longer than `max`. */
  ghost predicate NoneLonger(counts: seq<int>, max: nat) {
    forall i | max < i < |counts| :: counts[i] == 0
  }

  /** Lengths that no code has double the Kraft sum and what there is alike. */
  lemma {:induction false} NothingToLimit(counts: seq<int>, max: nat, k: nat)
    requires max <= k < |counts| && NoneLonger(counts, max)
    ensures Kraft(counts, k) == Pow2(k) <==> Kraft(counts, max) == Pow2(max)
    ensures Sum(counts, k) == Sum(counts, max)
    decreases k
  {
    if max < k {
      NothingToLimit(counts, max, k - 1);
    }
  }

  lemma FullIsCounts(counts: seq<int>)
    requires FullTree(counts)
    ensures Counts(counts)
  {
  }

  /** With all longer codes counted as having length `max`, there are at least as many as fit. */
  lemma Folded(was: seq<int>, now: seq<int>, max: nat, n: nat)
    requires FullTree(was) && 1 <= max < LENGTHS && Sum(was, LENGTHS) == n <= Pow2(max)
    requires Counts(now) && forall i | 0 <= i <= LENGTHS && i != max :: now[i] == was[i]
    requires now[max] == was[max] + Sum(was, LENGTHS) - Sum(was, max)
    ensures Kraft(now, max) >= Pow2(max) && Sum(now, max) == n && 2 * Kraft(now, max - 1) <= Pow2(max)
    ensures NoneLonger(was, max) ==> now == was && Kraft(now, max) == Pow2(max)
  {
    RoomBelow(was, max);
    RoomBelow(was, max - 1);
    SameKraft(now, was, max - 1);
    if NoneLonger(was, max) {
      NothingToLimit(was, max, LENGTHS);
    }
    hide Kraft, Sum, Pow2;
    KraftUnfolds(was, max);
    KraftUnfolds(now, max);
  }

  /** The longest length from 1 to `n` that some code has; 0 if there is none. */
  ghost function Longest(counts: seq<int>, n: nat): (i: nat)
    requires n < |counts|
    ensures i <= n && (i > 0 ==> counts[i] != 0) && forall k | i < k <= n :: counts[k] == 0
  {
    if n == 0 || counts[n] != 0 then n else Longest(counts, n - 1)
  }

  /** One code of length `max` less, and the longest shorter code replaced by two that are one bit longer. */
  ghost function SplitLongest(counts: seq<int>, max: nat): (after: seq<int>)
    requires 1 <= max < |counts|
    ensures |after| == |counts|
  {
    var c := counts[max := counts[max] - 1];
    var i := Longest(c, max - 1);
    if i == 0 then c else c[i := c[i] - 1][i + 1 := c[i + 1] + 2]
  }

  ghost function SplitTimes(counts: seq<int>, max: nat, n: nat): seq<int>
    requires 1 <= max < |counts|
    decreases n
  {
    if n == 0 then counts else SplitTimes(SplitLongest(counts, max), max, n - 1)
  }

  /** All longer codes counted as having length `max`. */
  ghost function FoldedAt(counts: seq<int>, max: nat): seq<int>
    requires |counts| == LENGTHS + 1 && max <= LENGTHS
  {
    counts[max := counts[max] + Sum(counts, LENGTHS) - Sum(counts, max)]
  }

  /** The limited lengths: as many splits as the folded codes are too many. */
  ghost function Limited(counts: seq<int>, max: nat): seq<int>
    requires |counts| == LENGTHS + 1 && 1 <= max <= LENGTHS
  {
    var folded := FoldedAt(counts, max);
    var excess := Kraft(folded, max) - Pow2(max);
    if excess < 0 then folded else SplitTimes(folded, max, excess)
  }

  /** Limits the lengths of a full tree's codes to `max`: the numbers of codes stay natural, their sum stays
      what it was, and the result is again the histogram of a complete code.  Where nothing is longer, nothing
      changes. */
  method EnforceMaxCodeSize(counts: array<int>, listLength: nat, max: nat)
    requires counts.Length == LENGTHS + 1 && 1 <= max < LENGTHS
    requires listLength > 1 ==> FullTree(counts[..]) && Sum(counts[..], LENGTHS) == listLength <= Pow2(max)
    modifies counts
    ensures listLength <= 1 ==> counts[..] == old(counts[..])
    ensures listLength > 1 ==> LimitedCode(counts[..], max, listLength)
    ensures listLength > 1 ==> counts[..] == Limited(old(counts[..]), max)
    ensures NoneLonger(old(counts[..]), max) ==> counts[..] == old(counts[..])
  {
    hide Kraft, Sum, Pow2, FullTree, NoneLonger, SplitLongest;
    if listLength <= 1 { return; }
    ghost var was := counts[..];
    FullIsCounts(was);
    FoldLong(counts, max);
    Folded(was, counts[..], max, listLength);
    assert counts[..] == FoldedAt(was, max);
    var total := KraftTotal(counts, max);
    while total != Pow2(max)
      invariant NoneLonger(was, max) ==> counts[..] == was && total == Pow2(max)
      invariant Counts(counts[..])
      invariant total == Kraft(counts[..], max) >= Pow2(max)
      invariant SplitTimes(counts[..], max, total - Pow2(max)) == Limited(was, max)
      invariant Sum(counts[..], max) == listLength
      invariant 2 * Kraft(counts[..], max - 1) <= Pow2(max)
      decreases total
    {
      SplitOne(counts, max, listLength);
      total := total - 1;
    }
  }

  lemma KraftUnfolds(counts: seq<int>, m: nat)
    requires 1 <= m < |counts|
    ensures Kraft(counts, m) == 2 * Kraft(counts, m - 1) + counts[m]
    ensures Sum(counts, m) == Sum(counts, m - 1) + counts[m]
    ensures Pow2(m) == 2 * Pow2(m - 1)
  {
  }

  /** Takes one code of length `max` away and splits the longest shorter code into two. */
  method SplitOne(counts: array<int>, max: nat, ghost listLength: nat)
    requires counts.Length == LENGTHS + 1 && 1 <= max < LENGTHS && Counts(counts[..])
    requires Kraft(counts[..], max) > Pow2(max) >= listLength == Sum(counts[..], max)
    requires 2 * Kraft(counts[..], max - 1) <= Pow2(max)
    modifies counts
    ensures Counts(counts[..]) && counts[..] == SplitLongest(old(counts[..]), max)
    ensures Kraft(counts[..], max) == old(Kraft(counts[..], max)) - 1
    ensures Sum(counts[..], max) == listLength
    ensures 2 * Kraft(counts[..], max - 1) <= Pow2(max)
  {
    hide Kraft, Sum, Pow2;
    ghost var was := counts[..];
    KraftUnfolds(was, max);
    counts[max] := counts[max] - 1;
    ghost var mid := counts[..];
    SameKraft(mid, was, max - 1);
    KraftUnfolds(mid, max);
    var i := LongestBelow(counts, max);
    if i == 0 {
      NoCodes(was, max - 1);
    }
    assert i > 0;
    SplitKraft(mid, i, max);
    SplitKraft(mid, i, max - 1);
    counts[i] := counts[i] - 1;
    counts[i + 1] := counts[i + 1] + 2;
    assert counts[..] == mid[i := mid[i] - 1][i + 1 := mid[i + 1] + 2];
  }

  /** The bound on the number of symbols cannot be relaxed: more than 2^max symbols have no code limited to `max`. */
  lemma LimitNeedsRoom(counts: seq<int>, max: nat, n: nat)
    requires LimitedCode(counts, max, n)
    ensures n <= Pow2(max)
  {
    KraftAtLeastSum(counts, max);
  }

  lemma {:induction false} KraftAtLeastSum(counts: seq<int>, m: nat)
    requires Counts(counts) && m <= LENGTHS
    ensures Kraft(counts, m) >= Sum(counts, m) >= 0
  {
    if m > 0 {
      KraftAtLeastSum(counts, m - 1);
    }
  }

  // ----- assigning sizes -----

  /** The sizes have the histogram `counts`, and no size is above `max`. */
  ghost predicate HasHistogram(sizes: seq<nat>, counts: seq<int>, max: nat) {
    && Counts(counts) && max <= MAX_SIZE
    && (forall l: nat | 1 <= l <= max :: Total(sizes, l) == counts[l])
    && forall s | 0 <= s < |sizes| :: sizes[s] <= max
  }

  lemma {:induction false} CountUpdate(sizes: seq<nat>, n: nat, s: nat, size: nat, l: nat)
    requires s < |sizes| && n <= |sizes| && sizes[s] == 0 && size > 0 && l > 0
    ensures Count(sizes[s := size], n, l) == Count(sizes, n, l) + if s < n && l == size then 1 else 0
  {
    if n > 0 {
      CountUpdate(sizes, n - 1, s, size, l);
    }
  }

  lemma {:induction false} CountZeros(sizes: seq<nat>, n: nat, l: nat)
    requires n <= |sizes| && l > 0 && forall s | 0 <= s < n :: sizes[s] == 0
    ensures Count(sizes, n, l) == 0
  {
    if n > 0 {
      CountZeros(sizes, n - 1, l);
    }
  }

  /** Gives the symbols, listed from the rarest to the most frequent, their sizes: the shortest sizes go to the
      most frequent symbols, as many as there are codes of that size. */
  method AssignSizes(symbols: seq<nat>, counts: seq<int>, max: nat, tableLength: nat) returns (sizes: seq<nat>)
    requires Counts(counts) && 1 <= max <= MAX_SIZE && Sum(counts, max) == |symbols|
    requires forall k | 0 <= k < |symbols| :: symbols[k] < tableLength
    requires forall k, m | 0 <= k < m < |symbols| :: symbols[k] != symbols[m]
    ensures |sizes| == tableLength && HasHistogram(sizes, counts, max)
    ensures forall k | 0 <= k < |symbols| :: sizes[symbols[k]] >= 1
    ensures forall k, m | 0 <= k < m < |symbols| :: sizes[symbols[k]] >= sizes[symbols[m]]
    ensures forall s | 0 <= s < tableLength && s !in symbols :: sizes[s] == 0
  {
    hide Total, Sum, Assigned, GivenOut;
    sizes := seq(tableLength, _ => 0);
    var j := |symbols|;
    NothingAssigned(sizes, symbols, counts, max);
    SumEnds(counts, max);
    for i := 1 to max + 1
      invariant |sizes| == tableLength && 0 <= j <= |symbols|
      invariant j == |symbols| - Sum(counts, i - 1)
      invariant Assigned(sizes, symbols, j, i - 1) && GivenOut(sizes, counts, max, i, 0)
    {
      SumUnfolds(counts, i, max);
      sizes, j := AssignSize(sizes, symbols, counts, max, i, j);
      NextGivenOut(sizes, counts, max, i);
    }
    AllAssigned(sizes, symbols, max);
    AllGivenOut(sizes, counts, max);
  }

  lemma NothingAssigned(sizes: seq<nat>, symbols: seq<nat>, counts: seq<int>, max: nat)
    requires |counts| == LENGTHS + 1 && max <= LENGTHS && forall s | 0 <= s < |sizes| :: sizes[s] == 0
    ensures Assigned(sizes, symbols, |symbols|, 0) && GivenOut(sizes, counts, max, 1, 0)
  {
    hide Count;
    forall l: nat | 1 <= l <= max
      ensures Total(sizes, l) == 0
    {
      CountZeros(sizes, |sizes|, l);
    }
  }

  /** Gives one size to as many of the remaining symbols as there are codes of that size. */
  method AssignSize(before: seq<nat>, symbols: seq<nat>, counts: seq<int>, max: nat, i: nat, from: nat)
    returns (sizes: seq<nat>, j: nat)
    requires |counts| == LENGTHS + 1 && 1 <= i <= max <= LENGTHS && 0 <= counts[i] <= from <= |symbols|
    requires forall k | 0 <= k < |symbols| :: symbols[k] < |before|
    requires forall k, m | 0 <= k < m < |symbols| :: symbols[k] != symbols[m]
    requires Assigned(before, symbols, from, i - 1) && GivenOut(before, counts, max, i, 0)
    ensures |sizes| == |before| && j == from - counts[i]
    ensures Assigned(sizes, symbols, j, i) && GivenOut(sizes, counts, max, i, counts[i])
  {
    hide Assigned, GivenOut;
    MoreSizes(before, symbols, from, i);
    sizes, j := before, from;
    var l := counts[i];
    while l > 0
      invariant 0 <= l <= counts[i] && j == from - (counts[i] - l)
      invariant |sizes| == |before| && l <= j <= |symbols|
      invariant Assigned(sizes, symbols, j, i) && GivenOut(sizes, counts, max, i, counts[i] - l)
    {
      j := j - 1;
      SizeAssigned(sizes, symbols, j, i);
      OneGivenOut(sizes, counts, max, i, counts[i] - l, symbols[j]);
      sizes := sizes[symbols[j] := i];
      l := l - 1;
    }
  }

  /** All codes of lengths below `i` and `given` codes of length `i` have been given out. */
  ghost predicate GivenOut(sizes: seq<nat>, counts: seq<int>, max: nat, i: nat, given: int)
    requires |counts| == LENGTHS + 1 && max <= LENGTHS
  {
    forall m: nat | 1 <= m <= max :: Total(sizes, m) == if m < i then counts[m] else if m == i then given else 0
  }

  lemma OneGivenOut(sizes: seq<nat>, counts: seq<int>, max: nat, i: nat, given: int, s: nat)
    requires |counts| == LENGTHS + 1 && 1 <= i <= max <= LENGTHS && s < |sizes| && sizes[s] == 0
    requires GivenOut(sizes, counts, max, i, given)
    ensures GivenOut(sizes[s := i], counts, max, i, given + 1)
  {
    hide Total;
    forall m: nat | 1 <= m <= max
      ensures Total(sizes[s := i], m) == if m < i then counts[m] else if m == i then given + 1 else 0
    {
      TotalUpdate(sizes, s, i, m);
    }
  }

  lemma TotalUpdate(sizes: seq<nat>, s: nat, size: nat, l: nat)
    requires s < |sizes| && sizes[s] == 0 && size > 0 && l > 0
    ensures Total(sizes[s := size], l) == Total(sizes, l) + if l == size then 1 else 0
  {
    CountUpdate(sizes, |sizes|, s, size, l);
  }

  lemma NextGivenOut(sizes: seq<nat>, counts: seq<int>, max: nat, i: nat)
    requires |counts| == LENGTHS + 1 && 1 <= i <= max <= LENGTHS && GivenOut(sizes, counts, max, i, counts[i])
    ensures GivenOut(sizes, counts, max, i + 1, 0)
  {
    hide Total;
  }

  lemma AllGivenOut(sizes: seq<nat>, counts: seq<int>, max: nat)
    requires |counts| == LENGTHS + 1 && max <= LENGTHS && GivenOut(sizes, counts, max, max + 1, 0)
    ensures forall l: nat | 1 <= l <= max :: Total(sizes, l) == counts[l]
  {
    hide Total;
  }

  /** The symbols from position `j` on have sizes from 1 to `top`, not growing; the others have none yet. */
  ghost predicate Assigned(sizes: seq<nat>, symbols: seq<nat>, j: nat, top: nat)
    requires j <= |symbols|
  {
    && (forall k | j <= k < |symbols| :: symbols[k] < |sizes| && 1 <= sizes[symbols[k]] <= top)
    && (forall k, m | j <= k < m < |symbols| :: sizes[symbols[k]] >= sizes[symbols[m]])
    && (forall s | 0 <= s < |sizes| && s !in symbols[j..] :: sizes[s] == 0)
  }

  lemma MoreSizes(sizes: seq<nat>, symbols: seq<nat>, j: nat, top: nat)
    requires j <= |symbols| && top > 0 && Assigned(sizes, symbols, j, top - 1)
    ensures Assigned(sizes, symbols, j, top)
  {
  }

  lemma SizeAssigned(sizes: seq<nat>, symbols: seq<nat>, j: nat, size: nat)
    requires j < |symbols| && 1 <= size && Assigned(sizes, symbols, j + 1, size) && symbols[j] < |sizes|
    requires forall k, m | 0 <= k < m < |symbols| :: symbols[k] != symbols[m]
    ensures sizes[symbols[j]] == 0 && Assigned(sizes[symbols[j] := size], symbols, j, size)
  {
    assert symbols[j] !in symbols[j + 1..];
    assert symbols[j..] == [symbols[j]] + symbols[j + 1..];
  }

  lemma AllAssigned(sizes: seq<nat>, symbols: seq<nat>, max: nat)
    requires Assigned(sizes, symbols, 0, max)
    ensures forall k | 0 <= k < |symbols| :: symbols[k] < |sizes| && sizes[symbols[k]] >= 1
    ensures forall k, m | 0 <= k < m < |symbols| :: sizes[symbols[k]] >= sizes[symbols[m]]
    ensures forall s | 0 <= s < |sizes| && s !in symbols :: sizes[s] == 0
    ensures forall s | 0 <= s < |sizes| :: sizes[s] <= max
  {
    forall s | 0 <= s < |sizes|
      ensures sizes[s] <= max
    {
      if s in symbols {
        var k :| 0 <= k < |symbols| && symbols[k] == s;
      }
    }
  }

  lemma SumUnfolds(counts: seq<int>, i: nat, max: nat)
    requires Counts(counts) && 1 <= i <= max <= LENGTHS
    ensures Sum(counts, i) == Sum(counts, i - 1) + counts[i] <= Sum(counts, max) && Sum(counts, i - 1) >= 0
  {
    SumMonotone(counts, i, max);
    SumMonotone(counts, i - 1, i - 1);
  }

  lemma SumEnds(counts: seq<int>, max: nat)
    requires |counts| > 0
    ensures Sum(counts, 0) == 0
  {
  }

  // ----- from the limited histogram to a complete code -----

  lemma {:induction false} FirstCodeIsKraft(sizes: seq<nat>, counts: seq<int>, max: nat, l: nat)
    requires HasHistogram(sizes, counts, max) && 1 <= l <= max + 1
    ensures FirstCode(sizes, l) == 2 * Kraft(counts, l - 1)
  {
    if l > 1 {
      FirstCodeIsKraft(sizes, counts, max, l - 1);
    }
  }

  lemma {:induction false} CountAbsent(sizes: seq<nat>, n: nat, l: nat)
    requires n <= |sizes| && forall s | 0 <= s < n :: sizes[s] != l
    ensures Count(sizes, n, l) == 0
  {
    if n > 0 {
      CountAbsent(sizes, n - 1, l);
    }
  }

  lemma {:induction false} FirstCodeAbove(sizes: seq<nat>, max: nat, l: nat)
    requires 1 <= max < l && forall s | 0 <= s < |sizes| :: sizes[s] <= max
    requires FirstCode(sizes, max + 1) == Pow2(max + 1)
    ensures FirstCode(sizes, l) == Pow2(l)
  {
    if l > max + 1 {
      FirstCodeAbove(sizes, max, l - 1);
      CountAbsent(sizes, |sizes|, l - 1);
    }
  }

  /** Sizes with a limited histogram of more than one code make a complete code. */
  lemma LimitedIsComplete(sizes: seq<nat>, counts: seq<int>, max: nat, n: nat)
    requires LimitedCode(counts, max, n) && 1 <= max <= MAX_SIZE && HasHistogram(sizes, counts, max)
    ensures Complete(sizes) && ValidSizes(sizes)
  {
    FirstCodeIsKraft(sizes, counts, max, max + 1);
    FirstCodeAbove(sizes, max, 16);
    ShlSixteen();
    ShlOne(16);
  }

  // ----- assigning codes -----

  /** The first code of every size. */
  method FirstCodes(sizes: seq<nat>, counts: seq<int>, max: nat) returns (nextCodes: seq<nat>)
    requires 1 <= max <= MAX_SIZE && HasHistogram(sizes, counts, max)
    ensures |nextCodes| == LENGTHS + 1 && forall l: nat | 1 <= l <= max :: nextCodes[l] == FirstCode(sizes, l)
  {
    nextCodes := seq(LENGTHS + 1, _ => 0);
    var j := 0;
    for i := 2 to max + 1
      invariant |nextCodes| == LENGTHS + 1 && j == FirstCode(sizes, i - 1)
      invariant forall l: nat | 1 <= l < i :: nextCodes[l] == FirstCode(sizes, l)
    {
      j := 2 * (j + counts[i - 1]);
      nextCodes := nextCodes[i := j];
    }
  }

  /** Assigns the reversed canonical codes; the codes of symbols without a size stay 0. */
  method AssignCodes(sizes: seq<nat>, counts: seq<int>, max: nat) returns (codes: seq<nat>)
    requires 1 <= max <= MAX_SIZE && HasHistogram(sizes, counts, max)
    ensures |codes| == |sizes|
    ensures forall s: nat | IsUsed(sizes, s) :: codes[s] < Pow2(sizes[s]) && Bits(codes[s], sizes[s]) == Word(sizes, s)
    ensures forall s: nat | s < |sizes| && sizes[s] == 0 :: codes[s] == 0
  {
    hide Word, CodeWord, Bits, FirstCode, Total, Pow2;
    var nextCodes := FirstCodes(sizes, counts, max);
    codes := seq(|sizes|, _ => 0);
    for s := 0 to |sizes|
      invariant |nextCodes| == LENGTHS + 1 && |codes| == |sizes|
      invariant forall l: nat | 1 <= l <= max :: nextCodes[l] == FirstCode(sizes, l) + Count(sizes, s, l)
      invariant forall k: nat | k < s && sizes[k] > 0 ::
        codes[k] < Pow2(sizes[k]) && Bits(codes[k], sizes[k]) == Word(sizes, k)
      invariant forall k: nat | k < |sizes| && (k >= s || sizes[k] == 0) :: codes[k] == 0
    {
      var size := sizes[s];
      if size > 0 {
        var rev := ReverseCode(nextCodes[size], size);
        WordIs(sizes, s);
        nextCodes := nextCodes[size := nextCodes[size] + 1];
        codes := codes[s := rev];
      }
    }
  }

  lemma WordIs(sizes: seq<nat>, s: nat)
    requires s < |sizes|
    ensures Word(sizes, s) == CodeWord(FirstCode(sizes, sizes[s]) + Count(sizes, s, sizes[s]), sizes[s])
  {
  }

  /** The whole of tdefl's table: from the symbols in order of frequency and the leaf depths of their Huffman tree
      to sizes and codes that tinfl accepts. */
  method OptimizeHuffmanTable(symbols: seq<nat>, counts: array<int>, max: nat, tableLength: nat)
    returns (sizes: seq<nat>, codes: seq<nat>)
    requires counts.Length == LENGTHS + 1 && 1 <= max <= MAX_SIZE && Counts(counts[..])
    requires |symbols| > 1 ==> FullTree(counts[..]) && |symbols| <= Pow2(max)
    requires |symbols| <= 1 ==> Sum(counts[..], max) == Sum(counts[..], LENGTHS)
    requires Sum(counts[..], LENGTHS) == |symbols|
    requires forall k | 0 <= k < |symbols| :: symbols[k] < tableLength
    requires forall k, m | 0 <= k < m < |symbols| :: symbols[k] != symbols[m]
    modifies counts
    ensures |sizes| == |codes| == tableLength && ValidSizes(sizes) && Accepts(sizes)
    ensures forall s: nat | s < tableLength :: IsUsed(sizes, s) <==> s in symbols
    ensures forall s: nat | IsUsed(sizes, s) :: codes[s] < Pow2(sizes[s]) && Bits(codes[s], sizes[s]) == Word(sizes, s)
    ensures forall k, m | 0 <= k < m < |symbols| :: sizes[symbols[k]] >= sizes[symbols[m]]
    ensures NoneLonger(old(counts[..]), max) ==> HasHistogram(sizes, old(counts[..]), max)
  {
    EnforceMaxCodeSize(counts, |symbols|, max);
    sizes := AssignSizes(symbols, counts[..], max, tableLength);
    if |symbols| > 1 {
      LimitedIsComplete(sizes, counts[..], max, |symbols|);
    } else {
      FewUsed(sizes, symbols, |sizes|);
    }
    codes := AssignCodes(sizes, counts[..], max);
  }

  lemma {:induction false} FewUsed(sizes: seq<nat>, symbols: seq<nat>, n: nat)
    requires n <= |sizes| && |symbols| <= 1 && forall s | 0 <= s < |sizes| && s !in symbols :: sizes[s] == 0
    ensures Used(sizes, n) <= 1
    ensures (forall s | 0 <= s < n :: sizes[s] == 0) ==> Used(sizes, n) == 0
  {
    if n > 0 {
      FewUsed(sizes, symbols, n - 1);
    }
  }
}
