/** Canonical Huffman codes (section 3.2.2 of RFC 1951): the code of a symbol is determined by the code sizes.

Codes of one size are consecutive in symbol order, and the first code of a size follows the last code of the
size below, doubled.  A size of 0 means that the symbol is not used.
 */
module CanonicalCodes {
  import opened BitStrings

  const MAX_SIZE: nat := 15
  const FULL: nat := 65536

  predicate ValidSizes(sizes: seq<nat>) {
    forall s | 0 <= s < |sizes| :: sizes[s] <= MAX_SIZE
  }

  /** How many of the first `n` symbols have the given size. */
  function Count(sizes: seq<nat>, n: nat, size: nat): (c: nat)
    requires n <= |sizes|
    ensures c <= n
  {
    if n == 0 then 0 else Count(sizes, n - 1, size) + if sizes[n - 1] == size then 1 else 0
  }

  function Total(sizes: seq<nat>, size: nat): nat {
    Count(sizes, |sizes|, size)
  }

  /** How many of the first `n` symbols are used. */
  function Used(sizes: seq<nat>, n: nat): (c: nat)
    requires n <= |sizes|
    ensures c <= n
  {
    if n == 0 then 0 else Used(sizes, n - 1) + if sizes[n - 1] != 0 then 1 else 0
  }

  /** The first code of a size; for size 16, the sum of 2^(16 - size) over all used symbols. */
  function FirstCode(sizes: seq<nat>, size: nat): nat {
    if size <= 1 then 0 else 2 * (FirstCode(sizes, size - 1) + Total(sizes, size - 1))
  }

  function Code(sizes: seq<nat>, s: nat): nat
    requires s < |sizes|
  {
    FirstCode(sizes, sizes[s]) + Count(sizes, s, sizes[s])
  }

  /** The `n` low bits of a code, most significant first. */
  function CodeWord(code: nat, n: nat): (w: seq<bool>)
    ensures |w| == n
  {
    if n == 0 then [] else CodeWord(code / 2, n - 1) + [code % 2 == 1]
  }

  /** The bits sent for a symbol, in the order they are sent. */
  function Word(sizes: seq<nat>, s: nat): (w: seq<bool>)
    requires s < |sizes|
    ensures |w| == sizes[s]
  {
    CodeWord(Code(sizes, s), sizes[s])
  }

  /** The example of section 3.2.2 of RFC 1951: eight symbols with sizes 3, 3, 3, 3, 3, 2, 4, 4 have the codes 010, 011,
      100, 101, 110, 00, 1110 and 1111. */
  lemma RfcExample()
    ensures var sizes := [3, 3, 3, 3, 3, 2, 4, 4];
            && Word(sizes, 0) == [false, true, false] && Word(sizes, 1) == [false, true, true]
            && Word(sizes, 2) == [true, false, false] && Word(sizes, 3) == [true, false, true]
            && Word(sizes, 4) == [true, true, false] && Word(sizes, 5) == [false, false]
            && Word(sizes, 6) == [true, true, true, false] && Word(sizes, 7) == [true, true, true, true]
  {
    RfcFirstCodes();
    var sizes := [3, 3, 3, 3, 3, 2, 4, 4];
    hide FirstCode, CodeWord;
    assert Code(sizes, 0) == 2 && Code(sizes, 1) == 3 && Code(sizes, 2) == 4 && Code(sizes, 3) == 5;
    assert Code(sizes, 4) == 6 && Code(sizes, 5) == 0 && Code(sizes, 6) == 14 && Code(sizes, 7) == 15;
    hide Code;
    ShortWords();
  }

  lemma RfcFirstCodes()
    ensures var sizes := [3, 3, 3, 3, 3, 2, 4, 4];
            FirstCode(sizes, 2) == 0 && FirstCode(sizes, 3) == 2 && FirstCode(sizes, 4) == 14
  {
    var sizes := [3, 3, 3, 3, 3, 2, 4, 4];
    assert Count(sizes, 4, 1) == 0 && Count(sizes, 4, 2) == 0 && Count(sizes, 4, 3) == 4;
    assert Count(sizes, 8, 1) == 0 && Count(sizes, 8, 2) == 1 && Count(sizes, 8, 3) == 5;
  }

  lemma ShortWords()
    ensures CodeWord(0, 2) == [false, false] && CodeWord(2, 3) == [false, true, false]
    ensures CodeWord(3, 3) == [false, true, true] && CodeWord(4, 3) == [true, false, false]
    ensures CodeWord(5, 3) == [true, false, true] && CodeWord(6, 3) == [true, true, false]
    ensures CodeWord(14, 4) == [true, true, true, false] && CodeWord(15, 4) == [true, true, true, true]
  {
  }

  predicate IsUsed(sizes: seq<nat>, s: nat) {
    s < |sizes| && sizes[s] > 0
  }

  /** The code does not claim more words than there are. */
  predicate Fits(sizes: seq<nat>) {
    FirstCode(sizes, 16) <= FULL
  }

  /** Every string of 15 bits starts with the word of a symbol. */
  predicate Complete(sizes: seq<nat>) {
    FirstCode(sizes, 16) == FULL
  }

  // ----- words -----

  lemma {:induction false} CodeWordTake(code: nat, n: nat, k: nat)
    requires k <= n
    ensures CodeWord(code, n)[..k] == CodeWord(Shr(code, n - k), k)
  {
    if k < n {
      CodeWordTake(code / 2, n - 1, k);
      assert CodeWord(code, n)[..k] == CodeWord(code / 2, n - 1)[..k];
    }
  }

  lemma {:induction false} CodeWordInjective(a: nat, b: nat, n: nat)
    requires a < Pow2(n) && b < Pow2(n) && CodeWord(a, n) == CodeWord(b, n)
    ensures a == b
  {
    if n > 0 {
      assert CodeWord(a, n)[n - 1] == CodeWord(b, n)[n - 1];
      assert CodeWord(a / 2, n - 1) == CodeWord(a, n)[..n - 1] == CodeWord(b, n)[..n - 1] == CodeWord(b / 2, n - 1);
      CodeWordInjective(a / 2, b / 2, n - 1);
    }
  }

  /** Every string of bits is the word of a code. */
  lemma {:induction false} CodeWordOnto(w: seq<bool>) returns (code: nat)
    ensures code < Pow2(|w|) && CodeWord(code, |w|) == w
  {
    if w == [] {
      code := 0;
    } else {
      var n := |w| - 1;
      code := CodeWordOnto(w[..n]);
      code := 2 * code + BitValue(w[n]);
      assert w == w[..n] + [w[n]];
    }
  }

  // ----- counting -----

  lemma {:induction false} CountMonotone(sizes: seq<nat>, m: nat, n: nat, size: nat)
    requires m <= n <= |sizes|
    ensures Count(sizes, m, size) <= Count(sizes, n, size)
    decreases n
  {
    if m < n {
      CountMonotone(sizes, m, n - 1, size);
    }
  }

  /** A symbol's rank among those of its size is below their number, and grows with the symbol. */
  lemma RankBelow(sizes: seq<nat>, s: nat, n: nat)
    requires s < n <= |sizes|
    ensures Count(sizes, s, sizes[s]) < Count(sizes, n, sizes[s])
  {
    CountMonotone(sizes, s + 1, n, sizes[s]);
  }

  /** Every rank below the number of symbols of a size belongs to a symbol. */
  lemma {:induction false} RankExists(sizes: seq<nat>, n: nat, size: nat, rank: nat) returns (s: nat)
    requires n <= |sizes| && rank < Count(sizes, n, size)
    ensures s < n && sizes[s] == size && Count(sizes, s, size) == rank
  {
    if sizes[n - 1] == size && Count(sizes, n - 1, size) == rank {
      s := n - 1;
    } else {
      s := RankExists(sizes, n - 1, size, rank);
    }
  }

  // ----- the code is prefix-free -----

  lemma {:induction false} FirstCodeGrows(sizes: seq<nat>, l: nat, m: nat)
    requires 1 <= l < m
    ensures FirstCode(sizes, m) >= Shl(FirstCode(sizes, l) + Total(sizes, l), m - l)
  {
    if l + 1 < m {
      FirstCodeGrows(sizes, l, m - 1);
    }
  }

  /** In a code that fits, the codes of each size have room in that many bits. */
  lemma CodesFit(sizes: seq<nat>, size: nat)
    requires Fits(sizes) && 1 <= size <= MAX_SIZE
    ensures FirstCode(sizes, size) + Total(sizes, size) <= Pow2(size)
  {
    hide FirstCode, Shl, Pow2;
    FirstCodeGrows(sizes, size, 16);
    ShlOne(size);
    ShlShl(1, size, 16 - size);
    ShlSixteen();
    ShlMonotone(FirstCode(sizes, size) + Total(sizes, size), Pow2(size), 16 - size);
  }

  lemma ShlSixteen()
    ensures Shl(1, 16) == FULL && Shl(1, 15) == 32768 == Pow2(15)
  {
    assert Shl(1, 8) == 256;
    assert Shl(1, 12) == 4096;
    ShlOne(15);
  }

  lemma CodeInRange(sizes: seq<nat>, s: nat)
    requires ValidSizes(sizes) && Fits(sizes) && IsUsed(sizes, s)
    ensures FirstCode(sizes, sizes[s]) <= Code(sizes, s) < FirstCode(sizes, sizes[s]) + Total(sizes, sizes[s]) <= Pow2(sizes[s])
  {
    RankBelow(sizes, s, |sizes|);
    CodesFit(sizes, sizes[s]);
  }

  /** Different symbols of the same size have different codes. */
  lemma CodesDistinct(sizes: seq<nat>, s: nat, t: nat)
    requires s < |sizes| && t < |sizes| && s != t && sizes[s] == sizes[t]
    ensures Code(sizes, s) != Code(sizes, t)
  {
    if s < t {
      RankBelow(sizes, s, t);
    } else {
      RankBelow(sizes, t, s);
    }
  }

  /** When a word is a prefix of another, its code is the leading part of the other code. */
  lemma PrefixCode(sizes: seq<nat>, s: nat, t: nat)
    requires ValidSizes(sizes) && Fits(sizes) && IsUsed(sizes, s) && IsUsed(sizes, t)
    requires Word(sizes, s) <= Word(sizes, t)
    ensures sizes[s] <= sizes[t] && Code(sizes, s) == Shr(Code(sizes, t), sizes[t] - sizes[s])
  {
    hide FirstCode, Shl, Shr, Pow2, CodeWord, Code;
    var l, m := sizes[s], sizes[t];
    CodeInRange(sizes, s);
    CodeInRange(sizes, t);
    CodeWordTake(Code(sizes, t), m, l);
    ShrBelow(Code(sizes, t), l, m - l);
    CodeWordInjective(Code(sizes, s), Shr(Code(sizes, t), m - l), l);
  }

  /** No word is a prefix of the word of another symbol. */
  lemma PrefixFree(sizes: seq<nat>, s: nat, t: nat)
    requires ValidSizes(sizes) && Fits(sizes) && IsUsed(sizes, s) && IsUsed(sizes, t) && s != t
    ensures !(Word(sizes, s) <= Word(sizes, t))
  {
    hide FirstCode, Shl, Pow2, Word;
    if Word(sizes, s) <= Word(sizes, t) {
      var l, m := sizes[s], sizes[t];
      PrefixCode(sizes, s, t);
      if l == m {
        CodesDistinct(sizes, s, t);
      } else {
        CodeInRange(sizes, s);
        CodeInRange(sizes, t);
        FirstCodeGrows(sizes, l, m);
        ShrAtLeast(Code(sizes, t), FirstCode(sizes, l) + Total(sizes, l), m - l);
      }
    }
  }

  // ----- a complete code has a word for every input -----

  /** Where the codes of a size start when all codes are padded to 15 bits. */
  function Start(sizes: seq<nat>, size: nat): nat
    requires 1 <= size <= 16
  {
    if size == 16 then FirstCode(sizes, 16) / 2 else Shl(FirstCode(sizes, size), 15 - size)
  }

  /** Padded to 15 bits, the codes of one size end where those of the next size start. */
  lemma StartsMeet(sizes: seq<nat>, size: nat)
    requires 1 <= size <= MAX_SIZE
    ensures Shl(FirstCode(sizes, size) + Total(sizes, size), 15 - size) == Start(sizes, size + 1)
  {
    if size < 15 {
      ShlShl(FirstCode(sizes, size) + Total(sizes, size), 1, 14 - size);
    }
  }

  /** A padded code below the start of a size belongs to a smaller size. */
  lemma {:induction false} SizeOf(sizes: seq<nat>, x: nat, size: nat) returns (l: nat)
    requires 2 <= size <= 16 && x < Start(sizes, size)
    ensures 1 <= l < size && Start(sizes, l) <= x < Start(sizes, l + 1)
  {
    ShlZero(14);
    if size == 2 || Start(sizes, size - 1) <= x {
      l := size - 1;
    } else {
      l := SizeOf(sizes, x, size - 1);
    }
  }

  /** In a complete code, every string of 15 bits starts with a word; by PrefixFree, with exactly one. */
  lemma WordExists(sizes: seq<nat>, bits: seq<bool>) returns (s: nat)
    requires ValidSizes(sizes) && Complete(sizes) && |bits| == 15
    ensures IsUsed(sizes, s) && Word(sizes, s) <= bits
  {
    hide FirstCode, Shl, Shr, CodeWord, Start;
    var x := CodeWordOnto(bits);
    LastStart(sizes);
    var l := SizeOf(sizes, x, 16);
    BetweenStarts(sizes, x, l);
    s := RankExists(sizes, |sizes|, l, Shr(x, 15 - l) - FirstCode(sizes, l));
    CodeWordTake(x, 15, l);
  }

  /** A complete code uses up all strings of 15 bits. */
  lemma LastStart(sizes: seq<nat>)
    requires Complete(sizes)
    ensures Start(sizes, 16) == Pow2(15)
  {
    ShlSixteen();
  }

  lemma BetweenStarts(sizes: seq<nat>, x: nat, l: nat)
    requires 1 <= l <= 15 && Start(sizes, l) <= x < Start(sizes, l + 1)
    ensures FirstCode(sizes, l) <= Shr(x, 15 - l) < FirstCode(sizes, l) + Total(sizes, l)
  {
    hide FirstCode, Shl, Shr;
    StartsMeet(sizes, l);
    ShrAtLeast(x, FirstCode(sizes, l), 15 - l);
    ShrAtLeast(x, FirstCode(sizes, l) + Total(sizes, l), 15 - l);
  }
}
