/** The tree array of tinfl is large enough: a code of at most 288 symbols has at most 288 strings of 10 or more
bits on the way to a word. */
module TreeBound {
  import opened BitStrings
  import opened CanonicalCodes
  import opened InflateTables

  /** The number of symbols with sizes from `size` to 15, among the first `n`. */
  function LongTotal(sizes: seq<nat>, n: nat, size: nat): nat
    requires n <= |sizes|
    decreases 16 - size
  {
    if size > MAX_SIZE then 0 else Count(sizes, n, size) + LongTotal(sizes, n, size + 1)
  }

  lemma {:induction false} LongTotalStep(sizes: seq<nat>, n: nat, size: nat)
    requires n < |sizes|
    ensures LongTotal(sizes, n + 1, size) == LongTotal(sizes, n, size) + if size <= sizes[n] <= MAX_SIZE then 1 else 0
    decreases 16 - size
  {
    if size <= MAX_SIZE {
      LongTotalStep(sizes, n, size + 1);
    }
  }

  lemma {:induction false} LongTotalBound(sizes: seq<nat>, n: nat, size: nat)
    requires n <= |sizes| && size >= 1
    ensures LongTotal(sizes, n, size) <= Used(sizes, n)
  {
    if n == 0 {
      LongTotalEmpty(sizes, size);
    } else {
      LongTotalBound(sizes, n - 1, size);
      LongTotalStep(sizes, n - 1, size);
    }
  }

  /** Every used symbol has one of the sizes 1 to 15. */
  lemma {:induction false} UsedIsTotal(sizes: seq<nat>, n: nat)
    requires ValidSizes(sizes) && n <= |sizes|
    ensures LongTotal(sizes, n, 1) == Used(sizes, n)
  {
    hide Count, LongTotal;
    if n == 0 {
      LongTotalEmpty(sizes, 1);
    } else {
      UsedIsTotal(sizes, n - 1);
      LongTotalStep(sizes, n - 1, 1);
    }
  }

  lemma {:induction false} LongTotalEmpty(sizes: seq<nat>, size: nat)
    ensures LongTotal(sizes, 0, size) == 0
    decreases 16 - size
  {
    if size <= MAX_SIZE {
      LongTotalEmpty(sizes, size + 1);
    }
  }

  // ----- inner strings of a complete code -----

  /** The first code of a length that is not used up by words of that length or less. */
  function InnerStart(sizes: seq<nat>, d: nat): nat {
    FirstCode(sizes, d) + Total(sizes, d)
  }

  /** How many inner strings of lengths from `d` to 14 there can be. */
  function InnerSum(sizes: seq<nat>, d: nat): int
    decreases 15 - d
  {
    if d >= 15 then 0 else Pow2(d) - InnerStart(sizes, d) + InnerSum(sizes, d + 1)
  }

  /** Inner strings double from length to length, less the words that end there. */
  lemma {:induction false} InnerSumIs(sizes: seq<nat>, d: nat)
    requires Complete(sizes) && 1 <= d <= 15
    ensures InnerSum(sizes, d) + (Pow2(d) - InnerStart(sizes, d)) == LongTotal(sizes, |sizes|, d + 1)
    decreases 15 - d
  {
    hide Count, Used, Words, Shl;
    if d == 15 {
      ShlSixteen();
    } else {
      InnerSumIs(sizes, d + 1);
    }
  }

  /** The strings of length `d` whose codes lie between the bounds. */
  function Words(d: nat, lo: nat, hi: nat): (ws: set<seq<bool>>)
    ensures |ws| <= if lo < hi then hi - lo else 0
    decreases hi
  {
    if hi <= lo then {} else Words(d, lo, hi - 1) + {CodeWord(hi - 1, d)}
  }

  lemma {:induction false} WordsHave(d: nat, lo: nat, hi: nat, code: nat)
    requires lo <= code < hi
    ensures CodeWord(code, d) in Words(d, lo, hi)
    decreases hi
  {
    if code < hi - 1 {
      WordsHave(d, lo, hi - 1, code);
    }
  }

  function InnerWords(sizes: seq<nat>, d: nat): (ws: set<seq<bool>>)
    requires Fits(sizes) && 1 <= d
    ensures |ws| <= InnerSum(sizes, d)
    decreases 15 - d
  {
    if d >= 15 then {}
    else
      CodesFit(sizes, d);
      Words(d, InnerStart(sizes, d), Pow2(d)) + InnerWords(sizes, d + 1)
  }

  /** The code of an inner string is above the codes of the words of its length. */
  lemma InnerCode(sizes: seq<nat>, p: seq<bool>, s: nat)
    requires ValidSizes(sizes) && Fits(sizes) && IsUsed(sizes, s) && 1 <= |p| && p < Word(sizes, s)
    ensures p in Words(|p|, InnerStart(sizes, |p|), Pow2(|p|))
  {
    hide Words, CodeWord, Shr, Pow2, Fits;
    var d, m := |p|, sizes[s];
    var code := Code(sizes, s);
    CodeInRange(sizes, s);
    FirstCodeGrows(sizes, d, m);
    CodeWordTake(code, m, d);
    ShrBelow(code, d, m - d);
    ShrAtLeast(code, InnerStart(sizes, d), m - d);
    assert p == CodeWord(Shr(code, m - d), d);
    WordsHave(d, InnerStart(sizes, d), Pow2(d), Shr(code, m - d));
  }

  lemma {:induction false} InnerIsCounted(sizes: seq<nat>, p: seq<bool>, s: nat, d: nat)
    requires ValidSizes(sizes) && Fits(sizes) && IsUsed(sizes, s) && 1 <= d <= |p| && p < Word(sizes, s)
    ensures p in InnerWords(sizes, d)
    decreases |p| - d
  {
    hide Word, Words, FirstCode;
    assert |p| < sizes[s] <= MAX_SIZE;
    if d < |p| {
      InnerIsCounted(sizes, p, s, d + 1);
    } else {
      InnerCode(sizes, p, s);
    }
  }

  lemma {:induction false} SubsetSize<T>(a: set<T>, b: set<T>)
    requires a <= b
    ensures |a| <= |b|
    decreases |a|
  {
    if a != {} {
      var x :| x in a;
      SubsetSize(a - {x}, b - {x});
    }
  }

  // ----- codes with at most one symbol -----

  lemma {:induction false} UsedMonotone(sizes: seq<nat>, m: nat, n: nat)
    requires m <= n <= |sizes|
    ensures Used(sizes, m) <= Used(sizes, n)
    decreases n
  {
    if m < n {
      UsedMonotone(sizes, m, n - 1);
    }
  }

  lemma OneUsed(sizes: seq<nat>, s: nat, t: nat)
    requires IsUsed(sizes, s) && IsUsed(sizes, t) && Used(sizes, |sizes|) <= 1
    ensures s == t
  {
    var lo, hi := if s < t then s else t, if s < t then t else s;
    if lo != hi {
      UsedMonotone(sizes, lo + 1, hi);
      UsedMonotone(sizes, hi + 1, |sizes|);
    }
  }

  /** With at most one symbol, first codes stay below half of what there is. */
  lemma {:induction false} OneFirstCode(sizes: seq<nat>, size: nat)
    requires ValidSizes(sizes) && Used(sizes, |sizes|) <= 1 && 1 <= size <= 16
    ensures LongTotal(sizes, |sizes|, 1) - LongTotal(sizes, |sizes|, size) <= 0 ==> FirstCode(sizes, size) == 0
    ensures FirstCode(sizes, size) <= Pow2(size - 1)
  {
    LongTotalBound(sizes, |sizes|, 1);
    LongTotalShrinks(sizes, size);
    if size > 1 {
      OneFirstCode(sizes, size - 1);
      LongTotalShrinks(sizes, size - 1);
    }
  }

  lemma {:induction false} LongTotalShrinks(sizes: seq<nat>, size: nat)
    requires 1 <= size
    ensures LongTotal(sizes, |sizes|, size) <= LongTotal(sizes, |sizes|, 1)
  {
    if size > 1 && size <= 16 {
      LongTotalShrinks(sizes, size - 1);
    }
  }

  /** Every code that tinfl accepts fits. */
  lemma AcceptedFits(sizes: seq<nat>)
    requires ValidSizes(sizes) && Accepts(sizes)
    ensures Fits(sizes)
  {
    if !Complete(sizes) {
      OneFirstCode(sizes, 16);
      ShlSixteen();
    }
  }

  lemma InnerOfOne(sizes: seq<nat>, ps: set<seq<bool>>)
    requires Sizes(sizes) && Used(sizes, |sizes|) <= 1 && forall p | p in ps :: Inner(sizes, p)
    ensures |ps| <= 5
  {
    if ps != {} {
      var q :| q in ps;
      assert Inner(sizes, q);
      hide Word;
      var s: nat :| IsUsed(sizes, s) && q < Word(sizes, s);
      var w := Word(sizes, s);
      var prefixes := set d | 10 <= d <= 14 && d < |w| :: w[..d];
      forall p | p in ps
        ensures p in prefixes
      {
        assert Inner(sizes, p);
        var t: nat :| IsUsed(sizes, t) && p < Word(sizes, t);
        OneUsed(sizes, s, t);
        assert p == w[..|p|];
      }
      SubsetSize(ps, prefixes);
      FewPrefixes(w);
    }
  }

  /** Any set of inner strings has at most 288 elements. */
  lemma NodesBounded(sizes: seq<nat>, ps: set<seq<bool>>)
    requires Sizes(sizes) && Accepts(sizes) && forall p | p in ps :: Inner(sizes, p)
    ensures |ps| <= MAX_SYMBOLS
  {
    AcceptedFits(sizes);
    if Complete(sizes) {
      forall p | p in ps
        ensures p in InnerWords(sizes, 10)
      {
        assert Inner(sizes, p);
        var s: nat :| IsUsed(sizes, s) && p < Word(sizes, s);
        InnerIsCounted(sizes, p, s, 10);
      }
      hide Inner, InnerWords;
      SubsetSize(ps, InnerWords(sizes, 10));
      InnerSumIs(sizes, 10);
      CodesFit(sizes, 10);
      LongTotalBound(sizes, |sizes|, 11);
    } else {
      InnerOfOne(sizes, ps);
    }
  }

  lemma FewPrefixes(w: seq<bool>)
    ensures |set d | 10 <= d <= 14 && d < |w| :: w[..d]| <= 5
  {
    var prefixes := set d | 10 <= d <= 14 && d < |w| :: w[..d];
    if |w| > 14 {
      var five := {w[..10], w[..11], w[..12], w[..13], w[..14]};
      assert prefixes <= five;
      SubsetSize(prefixes, five);
    } else if |w| > 10 {
      var n := |w|;
      var four := {w[..10], w[..if n > 11 then 11 else 10], w[..if n > 12 then 12 else 10], w[..if n > 13 then 13 else 10]};
      assert prefixes <= four;
      SubsetSize(prefixes, four);
    } else {
      assert prefixes == {};
    }
  }
}
