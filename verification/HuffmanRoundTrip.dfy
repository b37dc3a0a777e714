/** From symbol frequencies to a message and back: tdefl's table, the bits it sends, and what tinfl reads.

The bit stream is one number whose low bits come first; how it is cut into bytes is not part of this model.
 */
module HuffmanRoundTrip {
  import opened BitStrings
  import opened CanonicalCodes
  import opened InflateTables
  import opened TreeBound
  import opened Deflate
  import opened HuffmanTrees
  import opened HuffmanCost
  import opened MinimumRedundancy
  import opened Inflate

  // ----- from leaf depths to their histogram -----

  /** The histogram of leaf depths, as far as it fits the array of 33 counts; fails if a depth is above 32. */
  method CountDepths(depths: array<nat>, counts: array<int>) returns (ok: bool)
    requires counts.Length == LENGTHS + 1
    modifies counts
    ensures ok <==> forall i | 0 <= i < depths.Length :: depths[i] <= LENGTHS
    ensures ok ==> forall d: nat | d <= LENGTHS :: counts[d] == Occurrences(depths[..], d)
  {
    forall i | 0 <= i < counts.Length {
      counts[i] := 0;
    }
    for i := depths.Length downto 0
      invariant forall k | i <= k < depths.Length :: depths[k] <= LENGTHS
      invariant forall d: nat | d <= LENGTHS :: counts[d] == Occurrences(depths[i..], d)
    {
      if depths[i] > LENGTHS { return false; }
      counts[depths[i]] := counts[depths[i]] + 1;
      assert depths[i..] == [depths[i]] + depths[i + 1..];
    }
    assert depths[0..] == depths[..];
    ok := true;
  }

  /** How many elements lie between 1 and `m`. */
  function Within(s: seq<nat>, m: nat): nat {
    if s == [] then 0 else (if 1 <= s[0] <= m then 1 else 0) + Within(s[1..], m)
  }

  lemma {:induction false} WithinStep(s: seq<nat>, m: nat)
    ensures Within(s, m + 1) == Within(s, m) + Occurrences(s, m + 1)
  {
    if s != [] {
      WithinStep(s[1..], m);
    }
  }

  lemma {:induction false} WithinZero(s: seq<nat>)
    ensures Within(s, 0) == 0
  {
    if s != [] {
      WithinZero(s[1..]);
    }
  }

  lemma {:induction false} WithinAll(s: seq<nat>, m: nat)
    requires forall i | 0 <= i < |s| :: 1 <= s[i] <= m
    ensures Within(s, m) == |s|
  {
    if s != [] {
      WithinAll(s[1..], m);
    }
  }

  lemma {:induction false} SumIsWithin(s: seq<nat>, counts: seq<int>, m: nat)
    requires m < |counts| && forall d: nat | d <= m :: counts[d] == Occurrences(s, d)
    ensures Sum(counts, m) == Within(s, m)
  {
    if m == 0 {
      WithinZero(s);
    } else {
      SumIsWithin(s, counts, m - 1);
      WithinStep(s, m - 1);
    }
  }

  /** Leaf depths of at most 32 have the histogram of a full tree with as many leaves. */
  lemma DepthsAreFullTree(s: seq<nat>, levels: seq<int>, counts: seq<int>)
    requires LeafDepths(s, levels) && |counts| == LENGTHS + 1
    requires forall i | 0 <= i < |s| :: s[i] <= LENGTHS
    requires forall d: nat | d <= LENGTHS :: counts[d] == Occurrences(s, d)
    ensures FullTree(counts) && Sum(counts, LENGTHS) == |s|
  {
    SumIsWithin(s, counts, LENGTHS);
    WithinAll(s, LENGTHS);
    var top := |levels| - 1;
    if top <= LENGTHS {
      SameKraft(levels, counts, top);
      forall i: nat | top < i <= LENGTHS
        ensures counts[i] == 0
      {
        NoOccurrences(s, i);
      }
      NothingToLimit(counts, top, LENGTHS);
    } else {
      forall i: nat | LENGTHS < i <= top
        ensures levels[i] == 0
      {
        NoOccurrences(s, i);
      }
      NothingToLimit(levels, LENGTHS, top);
      SameKraft(levels, counts, LENGTHS);
    }
  }

  // ----- the table of tdefl -----

  /** The frequencies whose tree has no leaf below this depth: the first two to be merged are not deeper. */
  ghost predicate NoDeeper(keys: seq<nat>, bound: nat) {
    |keys| >= 2 ==> ParentsOk(ParentsOf(keys)) && Depth(ParentsOf(keys), 0) < bound
  }

  lemma NoDeeperDepths(keys: seq<nat>, levels: seq<int>, depths: seq<nat>, bound: nat)
    requires |keys| >= 2 && LeafDepths(depths, levels)
    requires ParentsOk(ParentsOf(keys)) && LevelCounts(ParentsOf(keys), levels)
    ensures NoDeeper(keys, bound) <==> forall i | 0 <= i < |depths| :: depths[i] <= bound
  {
    hide Depth, ParentsOf, LeafDepths, LevelCounts, ParentsOk;
    DeepestLeaf(ParentsOf(keys), levels, depths);
  }

  /** Ascending positive frequencies whose sum is below 2^16 have a tree of depth 22 at most. */
  lemma CountableIsShallow(keys: seq<nat>)
    requires Countable(keys)
    ensures NoDeeper(keys, 22) && NoDeeper(keys, LENGTHS)
  {
    hide Depth, ParentsOf, ParentsOk, Countable;
    if |keys| >= 2 {
      ParentsOfOk(keys);
      DepthBound(keys, 0);
    }
  }

  /** Ascending positive 16-bit frequencies alone are not enough: with these 34 the tree has a leaf of depth 33. */
  lemma DeepFails(levels: seq<int>, depths: seq<nat>)
    ensures |DEEP| == 34 && Ascending(DEEP) && forall i | 0 <= i < 34 :: 0 < DEEP[i] < KEY_LIMIT
    ensures !NoDeeper(DEEP, LENGTHS) && ParentsOk(ParentsOf(DEEP))
    ensures LeafDepths(depths, levels) && LevelCounts(ParentsOf(DEEP), levels) ==>
              exists i :: 0 <= i < |depths| && depths[i] == LENGTHS + 1
  {
    hide Depth, ParentsOf, LeafDepths, LevelCounts, ParentsOk, Ascending;
    DeepTree();
    if LeafDepths(depths, levels) && LevelCounts(ParentsOf(DEEP), levels) {
      DeepestLeaf(ParentsOf(DEEP), levels, depths);
    }
  }

  /** The sizes of the symbols in the order of the list. */
  function Listed(sizes: seq<nat>, symbols: seq<nat>): seq<nat>
    requires forall k | 0 <= k < |symbols| :: symbols[k] < |sizes|
  {
    seq(|symbols|, k requires 0 <= k < |symbols| => sizes[symbols[k]])
  }

  /** Counting sizes in the table is counting them in the list. */
  lemma {:induction false} ListedTotal(sizes: seq<nat>, symbols: seq<nat>, l: nat)
    requires l > 0 && forall k | 0 <= k < |symbols| :: symbols[k] < |sizes| && sizes[symbols[k]] > 0
    requires forall k, m | 0 <= k < m < |symbols| :: symbols[k] != symbols[m]
    requires forall s | 0 <= s < |sizes| && s !in symbols :: sizes[s] == 0
    ensures Occurrences(Listed(sizes, symbols), l) == Total(sizes, l)
    decreases |symbols|
  {
    hide Total, Count;
    if symbols == [] {
      NoTotal(sizes, l);
    } else {
      var first, rest := symbols[0], symbols[1..];
      var fewer := sizes[first := 0];
      assert forall s :: s in symbols <==> s == first || s in rest;
      ListedTotal(fewer, rest, l);
      TotalUpdate(fewer, first, sizes[first], l);
      assert fewer[first := sizes[first]] == sizes;
      assert Listed(sizes, symbols)[1..] == Listed(fewer, rest);
    }
  }

  lemma NoTotal(sizes: seq<nat>, l: nat)
    requires l > 0 && forall s | 0 <= s < |sizes| :: sizes[s] == 0
    ensures Total(sizes, l) == 0
  {
    CountZeros(sizes, |sizes|, l);
  }

  /** If no leaf is deeper than `max`, every symbol's size is the depth of its leaf. */
  lemma SizesAreDepths(sizes: seq<nat>, symbols: seq<nat>, depths: seq<nat>, counts: seq<int>, max: nat)
    requires |symbols| == |depths| && HasHistogram(sizes, counts, max) && Descending(depths)
    requires forall i | 0 <= i < |depths| :: 0 < depths[i] <= max
    requires forall d: nat | d <= LENGTHS :: counts[d] == Occurrences(depths, d)
    requires forall k | 0 <= k < |symbols| :: symbols[k] < |sizes| && sizes[symbols[k]] > 0
    requires forall k, m | 0 <= k < m < |symbols| :: symbols[k] != symbols[m] && sizes[symbols[k]] >= sizes[symbols[m]]
    requires forall s | 0 <= s < |sizes| && s !in symbols :: sizes[s] == 0
    ensures Listed(sizes, symbols) == depths
  {
    hide Occurrences, Total;
    forall d: nat
      ensures Occurrences(Listed(sizes, symbols), d) == Occurrences(depths, d)
    {
      if 0 < d <= max {
        ListedTotal(sizes, symbols, d);
      } else {
        NoOccurrences(depths, d);
        NoOccurrences(Listed(sizes, symbols), d);
      }
    }
    SameDescending(Listed(sizes, symbols), depths);
  }

  /** Builds a Huffman table from frequencies: tree depths, limited lengths, sizes and codes.  The code is one that
      tinfl accepts.  Fails exactly if the tree of these frequencies is deeper than 32, which the array of counts
      cannot hold; so never if they ascend and their sum is below 2^16.  If no leaf is deeper than `max` either, no
      code costs less. */
  method BuildFromFrequencies(keys: array<nat>, symbols: seq<nat>, max: nat, tableLength: nat)
    returns (ok: bool, sizes: seq<nat>, codes: seq<nat>)
    requires keys.Length == |symbols| <= Pow2(max) && 1 <= max <= MAX_SIZE
    requires forall k | 0 <= k < |symbols| :: symbols[k] < tableLength
    requires forall k, m | 0 <= k < m < |symbols| :: symbols[k] != symbols[m]
    modifies keys
    ensures ok <==> NoDeeper(old(keys[..]), LENGTHS)
    ensures Countable(old(keys[..])) ==> ok
    ensures ok ==> |sizes| == |codes| == tableLength && ValidSizes(sizes) && Accepts(sizes)
    ensures ok ==> forall s: nat | s < tableLength :: IsUsed(sizes, s) <==> s in symbols
    ensures ok ==> IsCode(sizes, codes)
    ensures |symbols| >= 2 && Countable(old(keys[..])) && NoDeeper(old(keys[..]), max) ==>
              Optimal(old(keys[..]), Listed(sizes, symbols))
  {
    hide LeafDepths, LevelCounts, LeafDepthsOf, Kraft, Sum, Pow2, Counts, FullTree, Occurrences, Word, Bits, Accepts, Depth,
      ParentsOf, ParentsOk, Countable, NoDeeper, Optimal, HasHistogram, NoneLonger, Descending, Listed;
    sizes, codes := [], [];
    ghost var was := keys[..];
    ghost var levels := CalculateMinimumRedundancy(keys);
    var counts := new int[LENGTHS + 1];
    ok := CountDepths(keys, counts);
    DepthsTell(was, levels, keys[..], max);
    if !ok { return; }
    if |symbols| > 1 {
      DepthsAreFullTree(keys[..], levels, counts[..]);
      TreeCounts(counts[..]);
    } else {
      FewDepths(keys[..], counts[..], max);
    }
    ghost var histogram := counts[..];
    sizes, codes := OptimizeHuffmanTable(symbols, counts, max, tableLength);
    UsedAreListed(sizes, symbols);
    if |symbols| >= 2 && NoDeeper(was, max) {
      NotLimited(keys[..], histogram, max);
      PositiveDepths(keys[..], levels);
      SizesAreDepths(sizes, symbols, keys[..], histogram, max);
    }
  }

  lemma DepthsTell(keys: seq<nat>, levels: seq<int>, depths: seq<nat>, max: nat)
    requires |depths| == |keys| && (|keys| == 1 ==> depths == [1])
    requires |keys| >= 2 ==> LeafDepths(depths, levels)
    requires |keys| >= 2 ==> ParentsOk(ParentsOf(keys)) && LevelCounts(ParentsOf(keys), levels)
    ensures NoDeeper(keys, LENGTHS) <==> forall i | 0 <= i < |depths| :: depths[i] <= LENGTHS
    ensures |keys| >= 2 && NoDeeper(keys, max) ==> forall i | 0 <= i < |depths| :: depths[i] <= max
    ensures Countable(keys) ==> NoDeeper(keys, LENGTHS)
  {
    hide Depth, ParentsOf, LeafDepths, LevelCounts, ParentsOk, Countable;
    if |keys| >= 2 {
      NoDeeperDepths(keys, levels, depths, LENGTHS);
      NoDeeperDepths(keys, levels, depths, max);
    }
    if Countable(keys) {
      CountableIsShallow(keys);
    }
  }

  lemma PositiveDepths(depths: seq<nat>, levels: seq<int>)
    requires LeafDepths(depths, levels)
    ensures forall i | 0 <= i < |depths| :: depths[i] > 0
  {
  }

  lemma UsedAreListed(sizes: seq<nat>, symbols: seq<nat>)
    requires ValidSizes(sizes) && forall k | 0 <= k < |symbols| :: symbols[k] < |sizes|
    requires forall s: nat | s < |sizes| :: IsUsed(sizes, s) <==> s in symbols
    ensures forall k | 0 <= k < |symbols| :: symbols[k] < |sizes| && sizes[symbols[k]] > 0
    ensures forall s | 0 <= s < |sizes| && s !in symbols :: sizes[s] == 0
  {
    forall k | 0 <= k < |symbols|
      ensures sizes[symbols[k]] > 0
    {
      assert IsUsed(sizes, symbols[k]);
    }
    forall s | 0 <= s < |sizes| && s !in symbols
      ensures sizes[s] == 0
    {
      assert !IsUsed(sizes, s);
    }
  }

  lemma NotLimited(depths: seq<nat>, counts: seq<int>, max: nat)
    requires |counts| == LENGTHS + 1 && forall i | 0 <= i < |depths| :: depths[i] <= max
    requires forall d: nat | d <= LENGTHS :: counts[d] == Occurrences(depths, d)
    ensures NoneLonger(counts, max)
  {
    hide Occurrences;
    forall i: nat | max < i < |counts|
      ensures counts[i] == 0
    {
      NoOccurrences(depths, i);
    }
  }

  lemma TreeCounts(counts: seq<int>)
    requires FullTree(counts)
    ensures Counts(counts)
  {
  }

  /** At most one leaf, of depth 1. */
  lemma FewDepths(s: seq<nat>, counts: seq<int>, max: nat)
    requires |counts| == LENGTHS + 1 && (s == [] || s == [1]) && 1 <= max <= LENGTHS
    requires forall d: nat | d <= LENGTHS :: counts[d] == Occurrences(s, d)
    ensures Counts(counts) && Sum(counts, LENGTHS) == |s| == Sum(counts, max)
  {
    SumIsWithin(s, counts, LENGTHS);
    SumIsWithin(s, counts, max);
    WithinAll(s, LENGTHS);
    WithinAll(s, max);
  }

  /** Every used symbol's code is its word, ready to be sent low bit first. */
  ghost predicate IsCode(sizes: seq<nat>, codes: seq<nat>) {
    && |codes| == |sizes|
    && forall s: nat | IsUsed(sizes, s) :: codes[s] < Pow2(sizes[s]) && Bits(codes[s], sizes[s]) == Word(sizes, s)
  }

  // ----- one symbol -----

  /** A code followed by arbitrary bits starts with its own word and no other, and leaves these bits. */
  lemma SentWord(sizes: seq<nat>, codes: seq<nat>, s: nat, rest: nat)
    requires ValidSizes(sizes) && Fits(sizes) && IsCode(sizes, codes) && IsUsed(sizes, s)
    ensures var buffer := codes[s] + Shl(rest, sizes[s]);
            && Word(sizes, s) <= Bits(buffer, MAX_SIZE)
            && (forall t: nat | IsUsed(sizes, t) && Word(sizes, t) <= Bits(buffer, MAX_SIZE) :: t == s)
            && Shr(buffer, sizes[s]) == rest
  {
    hide Word, Bits, Fits, Shl, Shr, Pow2;
    var buffer := codes[s] + Shl(rest, sizes[s]);
    BitsOfSum(codes[s], sizes[s], rest);
    BitsPrefix(buffer, MAX_SIZE, sizes[s]);
    ShrOfSum(codes[s], sizes[s], rest);
    forall t: nat | IsUsed(sizes, t) && t != s
      ensures !(Word(sizes, t) <= Bits(buffer, MAX_SIZE))
    {
      OtherPrefix(sizes, s, t, Bits(buffer, MAX_SIZE));
    }
  }

  lemma {:induction false} ShrOfSum(x: nat, n: nat, y: nat)
    requires x < Pow2(n)
    ensures Shr(x + Shl(y, n), n) == y
  {
    if n > 0 {
      assert (x + 2 * Shl(y, n - 1)) / 2 == x / 2 + Shl(y, n - 1);
      ShrOfSum(x / 2, n - 1, y);
    }
  }

  // ----- whole messages -----

  ghost predicate Sendable(sizes: seq<nat>, message: seq<nat>) {
    forall i | 0 <= i < |message| :: IsUsed(sizes, message[i])
  }

  /** The bit stream of a message: the code of the first symbol in the lowest bits, then the rest. */
  function Stream(sizes: seq<nat>, codes: seq<nat>, message: seq<nat>, tail: nat): nat
    requires |codes| == |sizes| && forall i | 0 <= i < |message| :: message[i] < |sizes|
  {
    if message == [] then tail
    else codes[message[0]] + Shl(Stream(sizes, codes, message[1..], tail), sizes[message[0]])
  }

  /** Reads as many symbols as the message had: gets the message back, and the bits after it. */
  method Receive(table: HuffTable, sizes: seq<nat>, ghost codes: seq<nat>, stream: nat, ghost message: seq<nat>,
                 ghost tail: nat, length: nat)
    returns (received: seq<nat>, rest: nat)
    requires Sizes(sizes) && Fits(sizes) && table.Holds(sizes, |sizes|) && IsCode(sizes, codes)
    requires Sendable(sizes, message) && length == |message| && stream == Stream(sizes, codes, message, tail)
    ensures received == message && rest == tail
  {
    hide Word, Bits, Shl, Shr, Fits;
    received, rest := [], stream;
    assert message[0..] == message;
    for i := 0 to length
      invariant received == message[..i] && rest == Stream(sizes, codes, message[i..], tail)
    {
      assert message[i..][1..] == message[i + 1..];
      SentWord(sizes, codes, message[i], Stream(sizes, codes, message[i + 1..], tail));
      var symbol, size, next := table.Decode(sizes, rest);
      received, rest := received + [symbol], next;
    }
  }

  /** The whole way: a table built from frequencies, a message sent with it and followed by anything, and the same
      message read by tables built from the sizes alone. */
  method RoundTrip(keys: array<nat>, symbols: seq<nat>, max: nat, tableLength: nat, message: seq<nat>, tail: nat)
    returns (ok: bool, received: seq<nat>, rest: nat)
    requires keys.Length == |symbols| <= Pow2(max) && 1 <= max <= MAX_SIZE && tableLength <= MAX_SYMBOLS
    requires forall k | 0 <= k < |symbols| :: symbols[k] < tableLength
    requires forall k, m | 0 <= k < m < |symbols| :: symbols[k] != symbols[m]
    requires forall i | 0 <= i < |message| :: message[i] in symbols
    modifies keys
    ensures ok ==> received == message && rest == tail
    ensures ok <==> NoDeeper(old(keys[..]), LENGTHS)
    ensures Countable(old(keys[..])) ==> ok
  {
    hide NoDeeper, Countable;
    received, rest := [], 0;
    var sizes, codes;
    ok, sizes, codes := BuildFromFrequencies(keys, symbols, max, tableLength);
    if !ok { return; }
    hide IsCode, Accepts, Fits;
    var table := new HuffTable();
    var built := table.Build(sizes);
    AcceptedFits(sizes);
    assert |codes| == |sizes| by { CodesMatch(sizes, codes); }
    received, rest := Receive(table, sizes, codes, Stream(sizes, codes, message, tail), message, tail, |message|);
  }

  /** Every block that tdefl can count comes back: its frequencies ascend after sorting, and their sum is below
      2^16 because the buffer of a block is smaller. */
  method BlockRoundTrip(keys: array<nat>, symbols: seq<nat>, max: nat, tableLength: nat, message: seq<nat>, tail: nat)
    returns (received: seq<nat>, rest: nat)
    requires Countable(keys[..])
    requires keys.Length == |symbols| <= Pow2(max) && 1 <= max <= MAX_SIZE && tableLength <= MAX_SYMBOLS
    requires forall k | 0 <= k < |symbols| :: symbols[k] < tableLength
    requires forall k, m | 0 <= k < m < |symbols| :: symbols[k] != symbols[m]
    requires forall i | 0 <= i < |message| :: message[i] in symbols
    modifies keys
    ensures received == message && rest == tail
  {
    hide NoDeeper, Countable;
    var ok;
    ok, received, rest := RoundTrip(keys, symbols, max, tableLength, message, tail);
  }

  lemma CodesMatch(sizes: seq<nat>, codes: seq<nat>)
    requires IsCode(sizes, codes)
    ensures |codes| == |sizes|
  {
  }
}
