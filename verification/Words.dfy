/** Words of 64 bits, with the operators of C on them. */
module Words {
  import opened BitStrings

  const W32: nat := 0x1_0000_0000
  const W64: nat := 0x1_0000_0000_0000_0000
  const W128: nat := 0x1_0000_0000_0000_0000_0000_0000_0000_0000

  type Word = w: nat | w < W64

  function Not(x: Word): Word { W64 - 1 - x }

  function ShiftLeft(x: Word, n: nat): Word { Shl(x, n) % W64 }

  lemma {:induction false} ShrAtMost(x: nat, n: nat)
    ensures Shr(x, n) <= x
  {
    if n > 0 {
      ShrAtMost(x / 2, n - 1);
    }
  }

  function ShiftRight(x: Word, n: nat): Word {
    ShrAtMost(x, n);
    Shr(x, n)
  }

  lemma PowersAre()
    ensures Pow2(32) == W32 && Pow2(64) == W64 && Pow2(128) == W128
  {
    hide Pow2;
    Eight(0);
    Eight(8);
    Eight(16);
    Eight(24);
    Eight(32);
    Eight(40);
    Eight(48);
    Eight(56);
    Eight(64);
    Eight(72);
    Eight(80);
    Eight(88);
    Eight(96);
    Eight(104);
    Eight(112);
    Eight(120);
  }

  lemma Eight(n: nat)
    ensures Pow2(n + 8) == 256 * Pow2(n) && Pow2(0) == 1
  {
    assert Pow2(n + 2) == 4 * Pow2(n);
    assert Pow2(n + 4) == 4 * Pow2(n + 2);
    assert Pow2(n + 6) == 4 * Pow2(n + 4);
  }

  /** The bits of a number below position `n`. */
  function Below(x: nat, n: nat): (r: nat)
    ensures r < Pow2(n)
  {
    if n == 0 then 0 else x % 2 + 2 * Below(x / 2, n - 1)
  }

  lemma {:induction false} SplitAt(x: nat, n: nat)
    ensures x == Shl(Shr(x, n), n) + Below(x, n)
  {
    if n > 0 {
      SplitAt(x / 2, n - 1);
    }
  }

  /** There is only one way to split a number at a position. */
  lemma {:induction false} SplitUnique(x: nat, n: nat, q: nat, r: nat)
    requires x == Shl(q, n) + r && r < Pow2(n)
    ensures Shr(x, n) == q && Below(x, n) == r
  {
    if n > 0 {
      var z := Shl(q, n - 1);
      assert (2 * z + r) / 2 == z + r / 2 && (2 * z + r) % 2 == r % 2;
      SplitUnique(x / 2, n - 1, q, r / 2);
    }
  }

  lemma BelowIsRemainder(x: nat, n: nat)
    ensures Below(x, n) == x % Pow2(n)
  {
    hide Pow2, Shl, Shr, Below;
    SplitAt(x, n);
    ShlTimes(Shr(x, n), n);
    RemainderUnique(Pow2(n), Shr(x, n), Below(x, n));
  }

  lemma Multiple(p: nat, k: int)
    ensures (k >= 1 ==> p * k >= p) && (k <= -1 ==> p * k <= 0 - p)
  {
  }

  lemma RemainderUnique(p: nat, q: int, r: nat)
    requires r < p
    ensures (p * q + r) % p == r
  {
    var x := p * q + r;
    DivMod(x, p);
    var k := q - x / p;
    assert p * k == p * q - p * (x / p);
    Multiple(p, k);
  }

  lemma {:induction false} ShiftOut(x: nat, n: nat)
    requires x < Pow2(n)
    ensures Shr(x, n) == 0 && Below(x, n) == x
  {
    if n > 0 {
      ShiftOut(x / 2, n - 1);
    }
  }

  /** Bitwise and. */
  function And(x: nat, y: nat): nat {
    if x == 0 || y == 0 then 0
    else BitValue(x % 2 == 1 && y % 2 == 1) + 2 * And(x / 2, y / 2)
  }

  lemma {:induction false} AndAtMost(x: nat, y: nat)
    ensures And(x, y) <= x
  {
    if x > 0 && y > 0 {
      AndAtMost(x / 2, y / 2);
    }
  }

  function AndWords(x: Word, y: Word): Word {
    AndAtMost(x, y);
    And(x, y)
  }

  lemma AndHalf(x: nat, y: nat)
    ensures And(x, y) / 2 == And(x / 2, y / 2)
    ensures And(x, y) % 2 == BitValue(x % 2 == 1 && y % 2 == 1)
  {
  }

  lemma {:induction false} AndShr(x: nat, y: nat, n: nat)
    ensures Shr(And(x, y), n) == And(Shr(x, n), Shr(y, n))
  {
    if n > 0 {
      AndHalf(x, y);
      AndShr(x / 2, y / 2, n - 1);
    }
  }

  function Ones(n: nat): nat {
    if n == 0 then 0 else 1 + 2 * Ones(n - 1)
  }

  lemma {:induction false} OnesIs(n: nat)
    ensures Ones(n) == Pow2(n) - 1
  {
    if n > 0 {
      OnesIs(n - 1);
    }
  }

  lemma {:induction false} OnesSplit(m: nat, n: nat)
    ensures Ones(m + n) == Shl(Ones(n), m) + Ones(m)
  {
    if m > 0 {
      OnesSplit(m - 1, n);
    }
  }

  lemma {:induction false} AndOnes(x: nat, n: nat)
    ensures And(x, Ones(n)) == Below(x, n)
  {
    if n > 0 {
      AndOnes(x / 2, n - 1);
      AndHalf(x, Ones(n));
      assert (1 + 2 * Ones(n - 1)) / 2 == Ones(n - 1);
    }
  }

  lemma AndMask(x: Word, n: nat)
    requires n <= 64
    ensures Shr(And(x, Not(ShiftRight(W64 - 1, n))), 64 - n) == Shr(x, 64 - n)
    ensures And(x, Not(ShiftLeft(W64 - 1, n))) == Below(x, n)
  {
    hide Pow2, Shr, Shl, Ones, Below, And, Not, ShiftRight, ShiftLeft;
    PowersAre();
    OnesIs(n);
    HighMask(n);
    LowMask(n);
    AndShr(x, Shl(Ones(n), 64 - n), 64 - n);
    SplitUnique(Shl(Ones(n), 64 - n), 64 - n, Ones(n), 0);
    AndOnes(x, n);
    AndOnes(Shr(x, 64 - n), n);
    ShrBelow(x, n, 64 - n);
    ShiftOut(Shr(x, 64 - n), n);
  }

  lemma HighMask(n: nat)
    requires n <= 64
    ensures Not(ShiftRight(W64 - 1, n)) == Shl(Ones(n), 64 - n)
  {
    hide Pow2, Shr, Shl, Ones;
    PowersAre();
    OnesIs(64);
    OnesIs(n);
    OnesIs(64 - n);
    OnesSplit(n, 64 - n);
    SplitUnique(W64 - 1, n, Ones(64 - n), Ones(n));
    OnesSplit(64 - n, n);
  }

  lemma LowMask(n: nat)
    requires n <= 64
    ensures Not(ShiftLeft(W64 - 1, n)) == Ones(n)
  {
    hide Pow2, Shr, Shl, Ones, Below;
    PowersAre();
    OnesIs(64);
    OnesIs(n);
    OnesSplit(64 - n, n);
    OnesSplit(n, 64 - n);
    var low := Shl(Ones(64 - n), n);
    ShlShl(Ones(n), 64 - n, n);
    ShlAdd(Shl(Ones(n), 64 - n), Ones(64 - n), n);
    SplitUnique(Shl(W64 - 1, n), 64, Ones(n), low);
    BelowIsRemainder(Shl(W64 - 1, n), 64);
  }

  /** Two words as one number. */
  function Pair(hi: nat, lo: nat): nat { hi * W64 + lo }

  lemma PairIs(hi: nat, lo: nat)
    ensures Pair(hi, lo) == Shl(hi, 64) + lo
  {
    hide Pow2;
    PowersAre();
    ShlTimes(hi, 64);
  }

  lemma Remainder128(x: nat)
    ensures x % W128 == Below(x, 128)
  {
    hide Pow2, Below;
    PowersAre();
    BelowIsRemainder(x, 128);
  }

  lemma {:induction false} BelowSum(x: nat, z: nat, n: nat)
    ensures Below(x + Shl(z, n), n) == Below(x, n)
  {
    if n > 0 {
      var y := Shl(z, n - 1);
      assert (x + 2 * y) / 2 == x / 2 + y && (x + 2 * y) % 2 == x % 2;
      BelowSum(x / 2, z, n - 1);
    }
  }

  lemma ShlCommutes(x: nat, m: nat, n: nat)
    ensures Shl(Shl(x, m), n) == Shl(Shl(x, n), m)
  {
    hide Shl;
    ShlShl(x, m, n);
    ShlShl(x, n, m);
  }

  /** Cutting off high bits before a left shift changes nothing below them. */
  lemma BelowShl(x: nat, k: nat, n: nat)
    ensures Below(Shl(Below(x, k), n), k) == Below(Shl(x, n), k)
  {
    hide Shl, Below, Shr;
    SplitAt(x, k);
    ShlAdd(Shl(Shr(x, k), k), Below(x, k), n);
    ShlCommutes(Shr(x, k), k, n);
    BelowSum(Shl(Below(x, k), n), Shl(Shr(x, k), n), k);
  }

  lemma ShiftLeftIs(x: Word, n: nat)
    ensures ShiftLeft(x, n) == Below(Shl(x, n), 64)
  {
    hide Pow2, Below;
    PowersAre();
    BelowIsRemainder(Shl(x, n), 64);
  }

  /** What a left shift pushes out at the top is what a right shift leaves. */
  lemma PushedOut(x: nat, m: nat, n: nat)
    requires n <= m
    ensures Shr(Shl(x, n), m) == Shr(x, m - n)
    ensures Below(Shl(x, n), m) == Shl(Below(x, m - n), n)
  {
    hide Shl, Shr, Below, Pow2;
    var q, r := Shr(x, m - n), Below(x, m - n);
    SplitAt(x, m - n);
    ShlAdd(Shl(q, m - n), r, n);
    ShlShl(q, m - n, n);
    ShlBelow(r, m - n, n);
    SplitUnique(Shl(x, n), m, q, Shl(r, n));
  }

  function HighShiftedLeft(hi: Word, lo: Word, n: nat): nat
    requires n <= 64
  {
    Or(ShiftLeft(hi, n), ShiftRight(AndWords(lo, Not(ShiftRight(W64 - 1, n))), 64 - n))
  }

  lemma HighShifted(hi: Word, lo: Word, n: nat)
    requires n <= 64
    ensures HighShiftedLeft(hi, lo, n) == ShiftLeft(hi, n) + Shr(lo, 64 - n) < W64
  {
    hide Shl, Shr, Below, Pow2, ShiftLeft, ShiftRight, Not, And, Or;
    PowersAre();
    AndMask(lo, n);
    ShrIs(AndWords(lo, Not(ShiftRight(W64 - 1, n))), 64 - n);
    ShiftLeftIs(hi, n);
    PushedOut(hi, 64, n);
    ShrBelow(lo, n, 64 - n);
    OrDisjoint(Below(hi, 64 - n), Shr(lo, 64 - n), n);
    ShlPlusBelow(Below(hi, 64 - n), Shr(lo, 64 - n), 64 - n, n);
  }

  lemma {:induction false} ShlPlusBelow(x: nat, r: nat, m: nat, n: nat)
    requires x < Pow2(m) && r < Pow2(n)
    ensures Shl(x, n) + r < Pow2(m + n)
  {
    if n > 0 {
      ShlPlusBelow(x, r / 2, m, n - 1);
    }
  }

  /** A left shift over two words. */
  lemma PairShiftedLeft(hi: Word, lo: Word, n: nat)
    requires n <= 64
    ensures Pair(HighShiftedLeft(hi, lo, n), ShiftLeft(lo, n)) == Below(Shl(Pair(hi, lo), n), 128)
  {
    hide Shl, Shr, Below, Pow2, ShiftLeft, HighShiftedLeft, Pair;
    var low, high := ShiftLeft(lo, n), ShiftLeft(hi, n);
    var carry, out := Shr(lo, 64 - n), Shr(Shl(hi, n), 64);
    HighShifted(hi, lo, n);
    ShiftLeftIs(lo, n);
    ShiftLeftIs(hi, n);
    SplitAt(Shl(lo, n), 64);
    SplitAt(Shl(hi, n), 64);
    PushedOut(lo, 64, n);
    PairIs(hi, lo);
    PairIs(high + carry, low);
    ShlAdd(Shl(hi, 64), lo, n);
    ShlCommutes(hi, 64, n);
    ShlAdd(Shl(out, 64), high, 64);
    ShlAdd(high, carry, 64);
    ShlShl(out, 64, 64);
    assert Shl(Pair(hi, lo), n) == Shl(out, 128) + Pair(high + carry, low);
    PairBelow(high + carry, low);
    SplitUnique(Shl(Pair(hi, lo), n), 128, out, Pair(high + carry, low));
  }

  lemma PairBelow(hi: Word, lo: Word)
    ensures Pair(hi, lo) < Pow2(128) == W128
  {
    hide Pow2;
    PowersAre();
  }

  function LowShiftedRight(hi: Word, lo: Word, n: nat): nat
    requires n <= 64
  {
    Or(ShiftRight(lo, n), ShiftLeft(AndWords(hi, Not(ShiftLeft(W64 - 1, n))), 64 - n))
  }

  lemma LowShifted(hi: Word, lo: Word, n: nat)
    requires n <= 64
    ensures LowShiftedRight(hi, lo, n) == ShiftRight(lo, n) + Shl(Below(hi, n), 64 - n) < W64
  {
    hide Shl, Shr, Below, Pow2, ShiftLeft, ShiftRight, Not, And, Or;
    PowersAre();
    AndMask(hi, n);
    var r := Below(hi, n);
    BelowAtMost(hi, n);
    ShiftLeftIs(r, 64 - n);
    ShlBelow(r, n, 64 - n);
    ShiftOut(Shl(r, 64 - n), 64);
    ShrIs(lo, n);
    ShrBelow(lo, 64 - n, n);
    OrCommutes(Shr(lo, n), Shl(r, 64 - n));
    OrDisjoint(r, Shr(lo, n), 64 - n);
    ShlPlusBelow(r, Shr(lo, n), n, 64 - n);
  }

  lemma ShrIs(x: Word, n: nat)
    ensures ShiftRight(x, n) == Shr(x, n)
  {
  }

  lemma BelowAtMost(x: nat, n: nat)
    ensures Below(x, n) <= x
  {
    hide Shl, Below;
    SplitAt(x, n);
  }

  lemma {:induction false} OrCommutes(x: nat, y: nat)
    ensures Or(x, y) == Or(y, x)
    decreases x + y
  {
    if x > 0 || y > 0 {
      OrCommutes(x / 2, y / 2);
    }
  }

  /** A right shift over two words. */
  lemma PairShiftedRight(hi: Word, lo: Word, n: nat)
    requires n <= 64
    ensures Pair(ShiftRight(hi, n), LowShiftedRight(hi, lo, n)) == Shr(Pair(hi, lo), n)
  {
    hide Shl, Shr, Below, Pow2, ShiftRight, LowShiftedRight, Pair;
    var q, r, l := Shr(hi, n), Below(hi, n), Shr(lo, n);
    LowShifted(hi, lo, n);
    ShrIs(hi, n);
    ShrIs(lo, n);
    SplitAt(hi, n);
    SplitAt(lo, n);
    PairIs(hi, lo);
    var x := Pair(q, l + Shl(r, 64 - n));
    PairIs(q, l + Shl(r, 64 - n));
    ShlAdd(Shl(q, 64) + Shl(r, 64 - n), l, n);
    ShlAdd(Shl(q, 64), Shl(r, 64 - n), n);
    ShlCommutes(q, 64, n);
    ShlShl(r, 64 - n, n);
    ShlAdd(Shl(q, n), r, 64);
    SplitUnique(Pair(hi, lo), n, x, Below(lo, n));
  }

  lemma {:induction false} OrBelow(x: nat, y: nat, n: nat)
    requires x < Pow2(n) && y < Pow2(n)
    ensures Or(x, y) < Pow2(n)
  {
    if n > 0 {
      OrBelow(x / 2, y / 2, n - 1);
    }
  }

  lemma {:induction false} OrSplit(a: nat, b: nat, c: nat, d: nat, n: nat)
    requires b < Pow2(n) && d < Pow2(n)
    ensures Or(Shl(a, n) + b, Shl(c, n) + d) == Shl(Or(a, c), n) + Or(b, d)
  {
    if n > 0 {
      var x, y := Shl(a, n - 1), Shl(c, n - 1);
      OrSplit(a, b / 2, c, d / 2, n - 1);
      assert (2 * x + b) / 2 == x + b / 2 && (2 * x + b) % 2 == b % 2;
      assert (2 * y + d) / 2 == y + d / 2 && (2 * y + d) % 2 == d % 2;
      OrStep(2 * x + b, 2 * y + d);
      OrStep(b, d);
    }
  }

  lemma OrStep(x: nat, y: nat)
    ensures Or(x, y) == BitValue(x % 2 == 1 || y % 2 == 1) + 2 * Or(x / 2, y / 2)
  {
  }

  /** The bitwise or of two pairs of words, word by word. */
  lemma PairOr(a: Word, b: Word, c: Word, d: Word)
    ensures Or(a, c) < W64 && Or(b, d) < W64 && Pair(Or(a, c), Or(b, d)) == Or(Pair(a, b), Pair(c, d))
  {
    hide Or, Pow2, Shl, Pair;
    PowersAre();
    OrBelow(a, c, 64);
    OrBelow(b, d, 64);
    OrSplit(a, b, c, d, 64);
    PairIs(a, b);
    PairIs(c, d);
    PairIs(Or(a, c), Or(b, d));
  }
}
