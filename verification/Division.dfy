/** Shift-and-subtract division of 128-bit numbers. */
module Division {
  import opened BitStrings
  import opened Words
  import opened Uint128s

  /** `d` is the divisor shifted left `k` times, `x` the bit of the answer that stands for it. */
  predicate Shifted(divisor: nat, k: nat, d: nat, x: nat) {
    d == Shl(divisor, k) && x == Pow2(k)
  }

  lemma {:induction false} ShiftedAtLeast(divisor: nat, k: nat)
    requires divisor > 0
    ensures Pow2(k) <= Shl(divisor, k)
  {
    if k > 0 {
      ShiftedAtLeast(divisor, k - 1);
    }
  }

  lemma DoubledFits(v: nat)
    requires 2 * v < W128
    ensures Below(Shl(v, 1), 128) == 2 * v
  {
    hide Below, Pow2;
    PowersAre();
    assert Shl(v, 1) == 2 * Shl(v, 0);
    ShiftOut(2 * v, 128);
  }

  lemma Up(divisor: nat, k: nat, d: nat, x: nat)
    requires divisor > 0 && Shifted(divisor, k, d, x) && 2 * d < W128
    ensures Shifted(divisor, k + 1, 2 * d, 2 * x)
    ensures Below(Shl(d, 1), 128) == 2 * d && Below(Shl(x, 1), 128) == 2 * x
  {
    ShiftedAtLeast(divisor, k);
    DoubledFits(d);
    DoubledFits(x);
  }

  lemma Half(v: nat)
    ensures Shr(v, 1) == v / 2
  {
    assert Shr(v, 1) == Shr(v / 2, 0);
  }

  lemma TopBit(d: nat)
    requires d < W128
    ensures Shr(d, 127) % 2 == 0 <==> 2 * d < W128
  {
    hide Shr, Pow2, Below;
    PowersAre();
    SplitAt(d, 127);
    assert Pow2(128) == 2 * Pow2(127) by {
      TwiceHalf();
    }
    var q := Shr(d, 127);
    ShlTimes(q, 127);
    if q >= 2 {
      TimesMonotone(2, q, Pow2(127));
      Commutes(q, Pow2(127));
    }
  }

  lemma TwiceHalf()
    ensures Pow2(128) == 2 * Pow2(127)
  {
  }

  /** What the second loop keeps: `m` is the part of the answer above the bit `k`. */
  ghost predicate Progress(numerator: nat, divisor: nat, k: int, n: nat, d: nat, x: nat, answer: nat, m: nat) {
    && k >= -1
    && answer == Shl(m, k + 1) && answer * divisor + n == numerator
    && (if k == -1 then x == 0 && n < divisor else Shifted(divisor, k, d, x) && n < 2 * d)
  }

  /** One bit of the answer. */
  lemma OneBit(numerator: nat, divisor: nat, k: nat, n: nat, d: nat, x: nat, answer: nat, m: nat)
    requires divisor > 0 && Progress(numerator, divisor, k, n, d, x, answer, m)
    ensures n >= d ==> Progress(numerator, divisor, k - 1, n - d, d / 2, x / 2, Or(answer, x), 2 * m + 1)
    ensures n < d ==> Progress(numerator, divisor, k - 1, n, d / 2, x / 2, answer, 2 * m)
  {
    hide Or;
    var above := Shl(m, k + 1);
    ShlShl(m, 1, k);
    assert Shl(m, 1) == 2 * Shl(m, 0);
    ShlAdd(2 * m, 1, k);
    ShlOne(k);
    OrDisjoint(m, x, k + 1);
    ShlTimes(divisor, k);
    Distribute(above, x, divisor);
    if k == 0 {
      assert d == divisor && x == 1;
    }
  }

  lemma Started(numerator: nat, divisor: nat, k: nat, d: nat, x: nat)
    requires Shifted(divisor, k, d, x) && numerator < 2 * d
    ensures Progress(numerator, divisor, k, numerator, d, x, 0, 0)
  {
    ShlZero(k + 1);
  }

  /** Whether bit 127 is clear, so that doubling loses nothing. */
  predicate TopBitClear(d: Uint128)
    reads d
    ensures TopBitClear(d) <==> 2 * d.Value() < W128
  {
    TopBitOfPair(d.hi, d.lo);
    ShiftRight(d.hi, 63) % 2 == 0
  }

  lemma TopBitOfPair(hi: Word, lo: Word)
    ensures ShiftRight(hi, 63) % 2 == 0 <==> 2 * Pair(hi, lo) < W128
  {
    hide Shr, Pair, Pow2;
    PairBelow(hi, lo);
    TopBit(Pair(hi, lo));
    ShiftedByWordRight(hi, lo, 63);
    PairZero(hi);
    ShrIs(hi, 63);
  }

  /** Shifts the divisor and its bit up until the divisor is above half the numerator. */
  method ShiftUp(n: Uint128, d: Uint128, x: Uint128) returns (ghost k: nat)
    requires n != d && n != x && d != x && d.Value() > 0 && x.Value() == 1
    modifies d, x
    ensures Shifted(old(d.Value()), k, d.Value(), x.Value()) && n.Value() < 2 * d.Value()
  {
    hide Shl, Below, Pow2, Pair;
    ghost var divisor := d.Value();
    var one := new Uint128(0, 1);
    PairZero(1);
    k := 0;
    NotShifted(divisor);
    while n.AtLeast(d) && TopBitClear(d)
      invariant Shifted(divisor, k, d.Value(), x.Value()) && n.Value() == old(n.Value())
      invariant one.Value() == 1 && d.Value() > 0
      decreases W128 - d.Value()
    {
      Up(divisor, k, d.Value(), x.Value());
      x.ShiftLeftAssign(one);
      d.ShiftLeftAssign(one);
      k := k + 1;
    }
  }

  lemma NotShifted(divisor: nat)
    ensures Shifted(divisor, 0, divisor, 1)
  {
  }

  /** One bit of the way down: subtracts the divisor if it fits, then moves it down by one bit. */
  method NextBit(n: Uint128, d: Uint128, x: Uint128, answer: Uint128,
                 ghost numerator: nat, ghost divisor: nat, ghost k: nat, ghost m: nat) returns (ghost next: nat)
    requires n != d && n != x && n != answer && d != x && d != answer && x != answer && divisor > 0
    requires Progress(numerator, divisor, k, n.Value(), d.Value(), x.Value(), answer.Value(), m)
    modifies n, d, x, answer
    ensures Progress(numerator, divisor, k - 1, n.Value(), d.Value(), x.Value(), answer.Value(), next)
  {
    hide Shl, Shr, Pow2, Pair, Or, Progress, Wrap;
    OneBit(numerator, divisor, k, n.Value(), d.Value(), x.Value(), answer.Value(), m);
    Half(x.Value());
    Half(d.Value());
    if n.AtLeast(d) {
      Subtracted(n.Value(), d.Value());
      n.MinusAssign(d);
      answer.OrAssign(x);
      next := 2 * m + 1;
    } else {
      next := 2 * m;
    }
    var one := new Uint128(0, 1);
    PairZero(1);
    x.ShiftRightAssign(one);
    d.ShiftRightAssign(one);
  }

  /** Subtracts the divisor wherever it fits, on its way back down. */
  method ShiftDown(n: Uint128, d: Uint128, x: Uint128, answer: Uint128, ghost divisor: nat, ghost top: nat)
    requires n != d && n != x && n != answer && d != x && d != answer && x != answer && divisor > 0
    requires Progress(n.Value(), divisor, top, n.Value(), d.Value(), x.Value(), answer.Value(), 0)
    modifies n, d, x, answer
    ensures old(n.Value()) == answer.Value() * divisor + n.Value() && n.Value() < divisor
  {
    hide Pair, Progress;
    ghost var numerator := n.Value();
    ghost var k: int, m: nat := top, 0;
    Stops(numerator, divisor, k, n.Value(), d.Value(), x.Value(), answer.Value(), m);
    while !x.IsZero()
      invariant Progress(numerator, divisor, k, n.Value(), d.Value(), x.Value(), answer.Value(), m)
      invariant k >= -1 && (x.Value() == 0 <==> k == -1)
      decreases k
    {
      m := NextBit(n, d, x, answer, numerator, divisor, k, m);
      k := k - 1;
      Stops(numerator, divisor, k, n.Value(), d.Value(), x.Value(), answer.Value(), m);
    }
    Stops(numerator, divisor, k, n.Value(), d.Value(), x.Value(), answer.Value(), m);
  }

  lemma Stops(numerator: nat, divisor: nat, k: int, n: nat, d: nat, x: nat, answer: nat, m: nat)
    requires Progress(numerator, divisor, k, n, d, x, answer, m)
    ensures k >= -1 && (x == 0 <==> k == -1) && (k == -1 ==> n < divisor)
    ensures answer * divisor + n == numerator
  {
  }

  lemma Subtracted(n: nat, d: nat)
    requires d <= n < W128
    ensures Wrap(n - d) == n - d
  {
  }

  /** Divides without changing its arguments; fails only for the divisor zero. */
  method Divide(numerator: Uint128, denominator: Uint128) returns (ok: bool, quotient: Uint128, remainder: Uint128)
    ensures fresh(quotient) && fresh(remainder) && quotient != remainder
    ensures ok <==> denominator.Value() != 0
    ensures ok ==> numerator.Value() == quotient.Value() * denominator.Value() + remainder.Value()
                   && remainder.Value() < denominator.Value()
  {
    hide Pair, Progress, Shifted;
    var n := new Uint128(numerator.hi, numerator.lo);
    var d := new Uint128(denominator.hi, denominator.lo);
    var x := new Uint128(0, 1);
    var answer := new Uint128(0, 0);
    quotient, remainder := answer, n;
    if denominator.IsZero() {
      return false, answer, n;
    }
    PairZero(1);
    PairZero(0);
    ghost var divisor := d.Value();
    ghost var k := ShiftUp(n, d, x);
    Started(n.Value(), divisor, k, d.Value(), x.Value());
    ShiftDown(n, d, x, answer, divisor, k);
    ok := true;
  }

  /** Only the quotient and the remainder of division have these two properties. */
  lemma QuotientUnique(numerator: nat, divisor: nat, quotient: nat, remainder: nat)
    requires divisor > 0 && numerator == quotient * divisor + remainder && remainder < divisor
    ensures quotient == numerator / divisor && remainder == numerator % divisor
  {
    Commutes(quotient, divisor);
    RemainderUnique(divisor, quotient, remainder);
    DivMod(numerator, divisor);
    assert divisor * quotient == divisor * (numerator / divisor);
    SameFactor(divisor, quotient, numerator / divisor);
  }

  lemma SameFactor(d: nat, x: nat, y: nat)
    requires d > 0 && d * x == d * y
    ensures x == y
  {
    assert d * (x - y) == 0;
  }

  /** The operator `%=`; it fails for zero and then changes nothing. */
  method RemainderAssign(a: Uint128, b: Uint128) returns (ok: bool)
    modifies a
    ensures ok <==> old(b.Value()) != 0
    ensures a.Value() == if ok then old(a.Value()) % old(b.Value()) else old(a.Value())
  {
    hide Pair;
    var quotient, remainder;
    ok, quotient, remainder := Divide(a, b);
    if ok {
      QuotientUnique(a.Value(), b.Value(), quotient.Value(), remainder.Value());
      a.hi := remainder.hi;
      a.lo := remainder.lo;
    }
  }
}
