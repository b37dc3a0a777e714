/** Unsigned 128-bit numbers made of two 64-bit words. */
module Uint128s {
  import opened BitStrings
  import opened Words

  /** Arithmetic modulo 2^128. */
  function Wrap(x: int): (v: nat)
    ensures v < W128
  {
    x % W128
  }

  lemma Wrapped(x: nat, w: nat)
    requires x < 2 * w
    ensures x % w == if x < w then x else x - w
  {
    if x >= w {
      RemainderUnique(w, 1, x - w);
    } else {
      RemainderUnique(w, 0, x);
    }
  }

  function Sum(a: Word, b: Word): Word { (a + b) % W64 }

  lemma AddWithCarry(hi: Word, lo: Word, h: Word, l: Word)
    ensures var low := Sum(lo, l);
            Pair((hi + h + if low < lo then 1 else 0) % W64, low) == (Pair(hi, lo) + Pair(h, l)) % W128
  {
    var low := Sum(lo, l);
    Wrapped(lo + l, W64);
    var carry := if low < lo then 1 else 0;
    Wrapped(hi + h + carry, W64);
    Wrapped(Pair(hi, lo) + Pair(h, l), W128);
  }

  lemma AddNegative(a: nat, b: nat)
    requires a < W128 && b < W128
    ensures (a + (W128 - b) % W128) % W128 == (a - b) % W128
  {
    if b == 0 {
      Wrapped(a, W128);
    } else {
      Wrapped(a + W128 - b, W128);
    }
  }

  lemma ShiftedByWord(hi: Word, lo: Word, n: nat)
    ensures Pair(lo, 0) == Below(Shl(Pair(hi, lo), 64), 128)
    ensures Below(Shl(Pair(lo, 0), n), 128) == Below(Shl(Pair(hi, lo), 64 + n), 128)
  {
    hide Shl, Below, Pow2, Pair;
    PairIs(hi, lo);
    PairIs(lo, 0);
    ShlAdd(Shl(hi, 64), lo, 64);
    ShlShl(hi, 64, 64);
    PairBelow(lo, 0);
    SplitUnique(Shl(Pair(hi, lo), 64), 128, hi, Pair(lo, 0));
    BelowShl(Shl(Pair(hi, lo), 64), 128, n);
    ShlShl(Pair(hi, lo), 64, n);
  }

  lemma ShiftedByNothing(hi: Word, lo: Word)
    ensures Below(Shl(Pair(hi, lo), 0), 128) == Pair(hi, lo)
  {
    hide Below, Pow2, Pair;
    PairBelow(hi, lo);
    ShiftOut(Pair(hi, lo), 128);
  }

  lemma ShiftedOut(hi: Word, lo: Word, n: nat)
    requires n >= 128
    ensures Below(Shl(Pair(hi, lo), n), 128) == 0 && Shr(Pair(hi, lo), n) == 0
  {
    hide Below, Pow2, Pair, Shr, Shl;
    var x := Pair(hi, lo);
    ShlShl(x, n - 128, 128);
    SplitUnique(Shl(x, n), 128, Shl(x, n - 128), 0);
    PairBelow(hi, lo);
    ShiftOut(x, 128);
    ShrShr(x, 128, n - 128);
    ShiftOut(0, n - 128);
  }

  lemma {:induction false} ShrShr(x: nat, m: nat, n: nat)
    ensures Shr(Shr(x, m), n) == Shr(x, m + n)
  {
    if m > 0 {
      ShrShr(x / 2, m - 1, n);
    }
  }

  lemma ShiftedByWordRight(hi: Word, lo: Word, n: nat)
    ensures Pair(0, hi) == Shr(Pair(hi, lo), 64)
    ensures Shr(Pair(0, hi), n) == Shr(Pair(hi, lo), 64 + n)
  {
    hide Shl, Shr, Below, Pow2, Pair;
    PowersAre();
    PairIs(hi, lo);
    SplitUnique(Pair(hi, lo), 64, hi, lo);
    ShrShr(Pair(hi, lo), 64, n);
    assert Pair(0, hi) == hi by {
      PairZero(hi);
    }
  }

  lemma PairZero(x: Word)
    ensures Pair(0, x) == x
  {
  }

  lemma TimesMonotone(a: nat, b: nat, c: nat)
    requires a <= b
    ensures a * c <= b * c
  {
    assert b * c - a * c == (b - a) * c;
  }

  lemma ProductBelow(a: nat, b: nat, m: nat)
    requires a < m && b < m
    ensures a * b <= (m - 1) * (m - 1)
  {
    TimesMonotone(a, m - 1, b);
    TimesMonotone(b, m - 1, m - 1);
    Commutes(b, m - 1);
  }

  lemma LimbProduct(a: nat, b: nat)
    requires a < W32 && b < W32
    ensures a * b < W64
  {
    ProductBelow(a, b, W32);
  }

  function Limb(x: Word, k: nat): (l: nat)
    requires k < 2
    ensures l < W32
  {
    if k == 0 then x % W32 else x / W32
  }

  /** The ten limb products that are summed up, and their sum without any wrap-around. */
  datatype Products = Products(p30: Word, p21: Word, p12: Word, p03: Word, p20: Word, p11: Word, p02: Word,
                               p10: Word, p01: Word, p00: Word)
  {
    function Sum(): nat {
      W32 * (W32 * (W32 * (p30 + p21 + p12 + p03) + p20 + p11 + p02) + p10 + p01) + p00
    }
  }

  function LimbSum(a0: nat, a1: nat, a2: nat, a3: nat, b0: nat, b1: nat, b2: nat, b3: nat): nat {
    W32 * (W32 * (W32 * (Times(a3, b0) + Times(a2, b1) + Times(a1, b2) + Times(a0, b3))
                  + Times(a2, b0) + Times(a1, b1) + Times(a0, b2))
           + Times(a1, b0) + Times(a0, b1))
    + Times(a0, b0)
  }

  function Times(a: nat, b: nat): nat { a * b }

  /** The product of two limbs fits into a word. */
  function Product(a: nat, b: nat): (p: Word)
    requires a < W32 && b < W32
    ensures p == Times(a, b)
  {
    LimbProduct(a, b);
    a * b
  }

  function FourLimbs(x0: nat, x1: nat, x2: nat, x3: nat): nat {
    x0 + W32 * (x1 + W32 * (x2 + W32 * x3))
  }

  lemma TimesFourLimbs(x: nat, b0: nat, b1: nat, b2: nat, b3: nat)
    ensures x * FourLimbs(b0, b1, b2, b3) == x * b0 + W32 * (x * b1 + W32 * (x * b2 + W32 * (x * b3)))
  {
    var c3 := b2 + W32 * b3;
    var c2 := b1 + W32 * c3;
    assert x * (W32 * b3) == W32 * (x * b3);
    assert x * c3 == x * b2 + x * (W32 * b3);
    assert x * (W32 * c3) == W32 * (x * c3);
    assert x * c2 == x * b1 + x * (W32 * c3);
    assert x * (W32 * c2) == W32 * (x * c2);
    assert x * (b0 + W32 * c2) == x * b0 + x * (W32 * c2);
  }

  /** The limb products that are left out only matter from bit 128 on. */
  lemma LimbSumIsProduct(a0: nat, a1: nat, a2: nat, a3: nat, b0: nat, b1: nat, b2: nat, b3: nat)
    ensures FourLimbs(a0, a1, a2, a3) * FourLimbs(b0, b1, b2, b3)
         == LimbSum(a0, a1, a2, a3, b0, b1, b2, b3)
            + W128 * (a3 * b1 + a2 * b2 + a1 * b3 + W32 * (a3 * b2 + a2 * b3 + W32 * (a3 * b3)))
  {
    var b := FourLimbs(b0, b1, b2, b3);
    TimesFourLimbs(b, a0, a1, a2, a3);
    TimesFourLimbs(a0, b0, b1, b2, b3);
    TimesFourLimbs(a1, b0, b1, b2, b3);
    TimesFourLimbs(a2, b0, b1, b2, b3);
    TimesFourLimbs(a3, b0, b1, b2, b3);
    hide FourLimbs;
    Commutes(a0, b);
    Commutes(a1, b);
    Commutes(a2, b);
    Commutes(a3, b);
    Commutes(FourLimbs(a0, a1, a2, a3), b);
  }

  lemma Commutes(x: nat, y: nat)
    ensures x * y == y * x
  {
  }

  lemma ModPlus(x: nat, y: nat, m: nat)
    requires m > 0
    ensures (x % m + y) % m == (x + y) % m
  {
    DivMod(x, m);
    DivMod(x % m + y, m);
    var q := x / m + (x % m + y) / m;
    assert m * q == m * (x / m) + m * ((x % m + y) / m);
    RemainderUnique(m, q, (x % m + y) % m);
  }

  lemma Regroup(m: nat, q: nat, k: nat)
    ensures (m * q) * k == m * (q * k)
  {
  }

  lemma Distribute(x: nat, y: nat, k: nat)
    ensures (x + y) * k == x * k + y * k
  {
  }

  lemma ModTimes(x: nat, k: nat, m: nat)
    requires m > 0
    ensures (x % m * k) % m == (x * k) % m
  {
    var q, r := x / m, x % m;
    DivMod(x, m);
    Distribute(m * q, r, k);
    Regroup(m, q, k);
    SameRemainder(r * k, q * k, m);
  }

  lemma SameRemainder(x: nat, q: nat, m: nat)
    requires m > 0
    ensures (x + m * q) % m == x % m
  {
    DivMod(x, m);
    Distribute(q, x / m, m);
    Commutes(q, m);
    Commutes(x / m, m);
    Commutes(q + x / m, m);
    RemainderUnique(m, q + x / m, x % m);
  }

  class Uint128 {
    var hi: Word
    var lo: Word

    ghost function Value(): (v: nat)
      reads this
      ensures v < W128
    {
      Pair(hi, lo)
    }

    constructor (h: Word, l: Word)
      ensures hi == h && lo == l && Value() == Pair(h, l)
    {
      hi, lo := h, l;
    }

    predicate Equals(o: Uint128)
      reads this, o
      ensures Equals(o) <==> Value() == o.Value()
    {
      hi == o.hi && lo == o.lo
    }

    predicate Less(o: Uint128)
      reads this, o
      ensures Less(o) <==> Value() < o.Value()
    {
      if hi == o.hi then lo < o.lo else hi < o.hi
    }

    predicate AtLeast(o: Uint128)
      reads this, o
      ensures AtLeast(o) <==> Value() >= o.Value()
    {
      Equals(o) || o.Less(this)
    }

    predicate IsZero()
      reads this
      ensures IsZero() <==> Value() == 0
    {
      !(hi != 0 || lo != 0)
    }

    method Increment()
      modifies this
      ensures Value() == Wrap(old(Value()) + 1)
    {
      AddWithCarry(hi, lo, 0, 1);
      lo := (lo + 1) % W64;
      hi := (hi + if lo == 0 then 1 else 0) % W64;
    }

    /** The sum comes out right even when a number is added to itself. */
    method PlusAssign(u: Uint128)
      modifies this
      ensures Value() == Wrap(old(Value()) + old(u.Value()))
    {
      AddWithCarry(hi, lo, u.hi, u.lo);
      var before := lo;
      lo := (lo + u.lo) % W64;
      hi := (hi + u.hi + if lo < before then 1 else 0) % W64;
    }

    method Negated() returns (r: Uint128)
      ensures fresh(r) && r.Value() == Wrap(W128 - Value())
    {
      r := new Uint128(Not(hi), Not(lo));
      r.Increment();
    }

    method MinusAssign(u: Uint128)
      modifies this
      ensures Value() == Wrap(old(Value()) - old(u.Value()))
    {
      AddNegative(Value(), u.Value());
      var minus := u.Negated();
      PlusAssign(minus);
    }

    method OrAssign(u: Uint128)
      modifies this
      ensures Value() == Or(old(Value()), old(u.Value()))
    {
      PairOr(hi, lo, u.hi, u.lo);
      hi := Or(hi, u.hi);
      lo := Or(lo, u.lo);
    }
  
    /** A left shift by any 128-bit distance; all bits pushed out at the top are lost. */
    method ShiftLeftAssign(rhs: Uint128)
      modifies this
      ensures Value() == Below(Shl(old(Value()), old(rhs.Value())), 128)
    {
      hide Shl, Shr, Below, Pow2, ShiftLeft, ShiftRight, Not, And, Or;
      ghost var distance := rhs.Value();
      if rhs.hi != 0 || rhs.lo >= 128 {
        ShiftedOut(hi, lo, distance);
        hi, lo := 0, 0;
      } else {
        PairZero(rhs.lo);
        var n := rhs.lo;
        if n >= 64 {
          ShiftedByWord(hi, lo, n - 64);
          n := n - 64;
          hi := lo;
          lo := 0;
        }
        ShiftedByNothing(hi, lo);
        if n != 0 {
          HighShifted(hi, lo, n);
          PairShiftedLeft(hi, lo, n);
          hi := ShiftLeft(hi, n);
          var mask := Not(ShiftRight(W64 - 1, n));
          hi := Or(hi, ShiftRight(AndWords(lo, mask), 64 - n));
          lo := ShiftLeft(lo, n);
        }
      }
    }

    /** A right shift by any 128-bit distance. */
    method ShiftRightAssign(rhs: Uint128)
      modifies this
      ensures Value() == Shr(old(Value()), old(rhs.Value()))
    {
      hide Shl, Below, Pow2, ShiftLeft, ShiftRight, Not, And, Or;
      ghost var distance := rhs.Value();
      if rhs.hi != 0 || rhs.lo >= 128 {
        ShiftedOut(hi, lo, distance);
        hi, lo := 0, 0;
      } else {
        PairZero(rhs.lo);
        var n := rhs.lo;
        if n >= 64 {
          ShiftedByWordRight(hi, lo, n - 64);
          n := n - 64;
          lo := hi;
          hi := 0;
        }
        if n != 0 {
          LowShifted(hi, lo, n);
          PairShiftedRight(hi, lo, n);
          lo := ShiftRight(lo, n);
          var mask := Not(ShiftLeft(W64 - 1, n));
          lo := Or(lo, ShiftLeft(AndWords(hi, mask), 64 - n));
          hi := ShiftRight(hi, n);
        }
      }
    }
  
    /** Adds a word, converted to 128 bits; `exact` is the sum so far without wrap-around. */
    method PlusWord(x: Word, ghost exact: nat)
      requires Value() == Wrap(exact)
      modifies this
      ensures Value() == Wrap(exact + x)
    {
      hide Pair;
      PairZero(x);
      ModPlus(exact, x, W128);
      var u := new Uint128(0, x);
      PlusAssign(u);
    }

    method PlusThree(x: Word, y: Word, z: Word, ghost exact: nat)
      requires Value() == Wrap(exact)
      modifies this
      ensures Value() == Wrap(exact + x + y + z)
    {
      hide Pair, Wrap;
      PlusWord(x, exact);
      PlusWord(y, exact + x);
      PlusWord(z, exact + x + y);
    }

    method ShiftLimb(ghost exact: nat)
      requires Value() == Wrap(exact)
      modifies this
      ensures Value() == Wrap(W32 * exact)
    {
      hide Pair, Shl, Below;
      PowersHidden();
      PairZero(32);
      ShlTimes(Value(), 32);
      Remainder128(Shl(Value(), 32));
      ModTimes(exact, W32, W128);
      Commutes(W32, exact);
      Commutes(W32, exact % W128);
      var distance := new Uint128(0, 32);
      ShiftLeftAssign(distance);
    }

    /** Sums up the limb products, each at its place. */
    method SumLimbs(p: Products)
      modifies this
      ensures Value() == Wrap(p.Sum())
    {
      hide Pair, Wrap;
      PairZero(p.p30);
      WrapSmall(p.p30);
      hi := 0;
      lo := p.p30;
      ghost var s := p.p30;
      PlusThree(p.p21, p.p12, p.p03, s);
      s := s + p.p21 + p.p12 + p.p03;
      ShiftLimb(s);
      s := W32 * s;
      PlusThree(p.p20, p.p11, p.p02, s);
      s := s + p.p20 + p.p11 + p.p02;
      ShiftLimb(s);
      s := W32 * s;
      PlusWord(p.p10, s);
      PlusWord(p.p01, s + p.p10);
      s := s + p.p10 + p.p01;
      ShiftLimb(s);
      s := W32 * s;
      PlusWord(p.p00, s);
    }

    /** The product modulo 2^128, also of a number with itself. */
    method TimesAssign(b: Uint128)
      modifies this
      ensures Value() == Wrap(old(Value()) * old(b.Value()))
    {
      hide Pair, Limb, LimbSum, FourLimbs, LimbProducts, Products.Sum;
      var a0, a1, a2, a3 := Limb(lo, 0), Limb(lo, 1), Limb(hi, 0), Limb(hi, 1);
      var b0, b1, b2, b3 := Limb(b.lo, 0), Limb(b.lo, 1), Limb(b.hi, 0), Limb(b.hi, 1);
      FromLimbs(hi, lo);
      FromLimbs(b.hi, b.lo);
      ProductRemainder(a0, a1, a2, a3, b0, b1, b2, b3);
      LimbProductsSum(a0, a1, a2, a3, b0, b1, b2, b3);
      var p := LimbProducts(a0, a1, a2, a3, b0, b1, b2, b3);
      SumLimbs(p);
    }

    /** The exact 256-bit product. */
    static method FullProduct(a: Uint128, b: Uint128) returns (resultHi: Uint128, resultLo: Uint128)
      ensures fresh(resultHi) && fresh(resultLo)
      ensures resultHi.Value() * W128 + resultLo.Value() == a.Value() * b.Value()
    {
      hide Pair, Wrap, Times;
      var ah, al, bh, bl := a.hi, a.lo, b.hi, b.lo;
      var s := WordProduct(al, bl);
      var r := WordProduct(ah, bl);
      var q := WordProduct(al, bh);
      var p := WordProduct(ah, bh);
      var acc := SumOfThree(s.hi, q.lo, r.lo);
      var y1, acc1 := acc.lo, acc.hi;
      acc := SumOfThree(acc.hi, q.hi, r.hi);
      acc.PlusWord(p.lo, acc1 + q.hi + r.hi);
      WrapSmall(acc1 + q.hi + r.hi + p.lo);
      var y2 := acc.lo;
      NoLostCarry(ah, al, bh, bl, s.hi, s.lo, r.hi, r.lo, q.hi, q.lo, p.hi, p.lo, acc1, y1, acc.hi, y2);
      var y3 := (acc.hi + p.hi) % W64;
      SmallWord(acc.hi + p.hi);
      resultHi := new Uint128(y3, y2);
      resultLo := new Uint128(y1, s.lo);
    }

    static method SumOfThree(x: Word, y: Word, z: Word) returns (acc: Uint128)
      ensures fresh(acc) && acc.Value() == x + y + z == Wrap(x + y + z)
    {
      hide Pair, Wrap;
      acc := new Uint128(0, x);
      PairZero(x);
      WrapSmall(x);
      acc.PlusWord(y, x);
      acc.PlusWord(z, x + y);
      WrapSmall(x + y + z);
    }

    static method WordProduct(x: Word, y: Word) returns (r: Uint128)
      ensures fresh(r) && r.Value() == Times(x, y)
    {
      hide Pair, Wrap;
      r := new Uint128(0, x);
      var factor := new Uint128(0, y);
      PairZero(x);
      PairZero(y);
      WordProductFits(x, y);
      r.TimesAssign(factor);
    }
  }

  lemma WordProductFits(x: Word, y: Word)
    ensures Wrap(x * y) == Times(x, y)
  {
    ProductBelow(x, y, W64);
    Wrapped(x * y, W128);
  }

  lemma WrapSmall(x: nat)
    requires x < W128
    ensures Wrap(x) == x
  {
  }

  /** The carry of the middle words cannot push the top word over 2^64, since the whole product stays below 2^256. */
  lemma NoLostCarry(ah: Word, al: Word, bh: Word, bl: Word, sh: Word, sl: Word, rh: Word, rl: Word,
                    qh: Word, ql: Word, ph: Word, pl: Word, acc1: Word, y1: Word, acc2: Word, y2: Word)
    requires Pair(sh, sl) == Times(al, bl) && Pair(rh, rl) == Times(ah, bl)
    requires Pair(qh, ql) == Times(al, bh) && Pair(ph, pl) == Times(ah, bh)
    requires Pair(acc1, y1) == sh + ql + rl
    requires Pair(acc2, y2) == acc1 + qh + rh + pl
    ensures acc2 + ph < W64
    ensures Pair(acc2 + ph, y2) * W128 + Pair(y1, sl) == Pair(ah, al) * Pair(bh, bl)
  {
    var top := acc2 + ph;
    ProductOfPairs(ah, al, bh, bl);
    hide Times;
    var product := Pair(ah, al) * Pair(bh, bl);
    assert Pair(top, y2) * W128 + Pair(y1, sl) == product;
    ProductBelow(Pair(ah, al), Pair(bh, bl), W128);
    assert product < W128 * W128;
  }

  lemma SmallWord(x: Word)
    ensures x % W64 == x
  {
  }

  lemma ProductOfPairs(ah: nat, al: nat, bh: nat, bl: nat)
    ensures Pair(ah, al) * Pair(bh, bl)
         == W128 * Times(ah, bh) + W64 * (Times(ah, bl) + Times(al, bh)) + Times(al, bl)
  {
    var b := Pair(bh, bl);
    Distribute(ah * W64, al, b);
    Regroup(W64, ah, b);
    Distribute(bh * W64, bl, ah);
    Regroup(W64, bh, ah);
    Distribute(bh * W64, bl, al);
    Regroup(W64, bh, al);
    Commutes(ah, b);
    Commutes(al, b);
    Commutes(ah, bh);
    Commutes(ah, bl);
    Commutes(al, bh);
    Commutes(al, bl);
  }

  function LimbProducts(a0: nat, a1: nat, a2: nat, a3: nat, b0: nat, b1: nat, b2: nat, b3: nat): Products
    requires a0 < W32 && a1 < W32 && a2 < W32 && a3 < W32 && b0 < W32 && b1 < W32 && b2 < W32 && b3 < W32
  {
    Products(Product(a3, b0), Product(a2, b1), Product(a1, b2), Product(a0, b3),
             Product(a2, b0), Product(a1, b1), Product(a0, b2),
             Product(a1, b0), Product(a0, b1),
             Product(a0, b0))
  }

  lemma LimbProductsSum(a0: nat, a1: nat, a2: nat, a3: nat, b0: nat, b1: nat, b2: nat, b3: nat)
    requires a0 < W32 && a1 < W32 && a2 < W32 && a3 < W32 && b0 < W32 && b1 < W32 && b2 < W32 && b3 < W32
    ensures LimbProducts(a0, a1, a2, a3, b0, b1, b2, b3).Sum() == LimbSum(a0, a1, a2, a3, b0, b1, b2, b3)
  {
    hide Product, Times;
  }

  lemma PowersHidden()
    ensures Pow2(32) == W32
  {
    hide Pow2;
    PowersAre();
  }

  lemma FromLimbs(hi: Word, lo: Word)
    ensures Pair(hi, lo) == FourLimbs(Limb(lo, 0), Limb(lo, 1), Limb(hi, 0), Limb(hi, 1))
  {
    DivMod(hi, W32);
    DivMod(lo, W32);
  }

  lemma ProductRemainder(a0: nat, a1: nat, a2: nat, a3: nat, b0: nat, b1: nat, b2: nat, b3: nat)
    ensures (FourLimbs(a0, a1, a2, a3) * FourLimbs(b0, b1, b2, b3)) % W128
         == LimbSum(a0, a1, a2, a3, b0, b1, b2, b3) % W128
  {
    LimbSumIsProduct(a0, a1, a2, a3, b0, b1, b2, b3);
    hide FourLimbs;
    var s := LimbSum(a0, a1, a2, a3, b0, b1, b2, b3);
    var q := a3 * b1 + a2 * b2 + a1 * b3 + W32 * (a3 * b2 + a2 * b3 + W32 * (a3 * b3));
    hide LimbSum;
    DivMod(s, W128);
    RemainderUnique(W128, q + s / W128, s % W128);
  }
}
