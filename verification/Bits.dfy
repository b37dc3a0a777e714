/** Numbers as bit strings, least significant bit first: the order in which DEFLATE sends Huffman codes. */
module BitStrings {

  function Pow2(n: nat): (p: nat)
    ensures p > 0
  {
    if n == 0 then 1 else 2 * Pow2(n - 1)
  }

  function BitAt(x: nat, i: nat): bool {
    if i == 0 then x % 2 == 1 else BitAt(x / 2, i - 1)
  }

  /** The low `n` bits of a number. */
  function Bits(x: nat, n: nat): (b: seq<bool>)
    ensures |b| == n
  {
    if n == 0 then [] else [x % 2 == 1] + Bits(x / 2, n - 1)
  }

  function BitValue(b: bool): nat { if b then 1 else 0 }

  /** The number whose low bits are the given ones. */
  function Value(b: seq<bool>): (x: nat)
    ensures x < Pow2(|b|)
  {
    if b == [] then 0 else BitValue(b[0]) + 2 * Value(b[1..])
  }

  lemma {:induction false} BitsAt(x: nat, n: nat, i: nat)
    requires i < n
    ensures Bits(x, n)[i] == BitAt(x, i)
  {
    if i > 0 {
      BitsAt(x / 2, n - 1, i - 1);
    }
  }

  lemma {:induction false} BitsPrefix(x: nat, n: nat, k: nat)
    requires k <= n
    ensures Bits(x, n)[..k] == Bits(x, k)
  {
    if k > 0 {
      BitsPrefix(x / 2, n - 1, k - 1);
    }
  }

  /** A number shifted left. */
  function Shl(x: nat, n: nat): nat {
    if n == 0 then x else 2 * Shl(x, n - 1)
  }

  /** A number shifted right. */
  function Shr(x: nat, n: nat): nat {
    if n == 0 then x else Shr(x / 2, n - 1)
  }

  lemma {:induction false} BitsDrop(x: nat, n: nat, k: nat)
    requires k <= n
    ensures Bits(x, n)[k..] == Bits(Shr(x, k), n - k)
  {
    if k > 0 {
      BitsDrop(x / 2, n - 1, k - 1);
      assert Bits(x, n)[k..] == Bits(x / 2, n - 1)[k - 1..];
    }
  }

  lemma {:induction false} ShrAtLeast(x: nat, a: nat, n: nat)
    ensures Shr(x, n) >= a <==> x >= Shl(a, n)
  {
    if n > 0 {
      ShrAtLeast(x / 2, a, n - 1);
    }
  }

  lemma {:induction false} ShrBelow(x: nat, d: nat, n: nat)
    requires x < Pow2(d + n)
    ensures Shr(x, n) < Pow2(d)
  {
    if n > 0 {
      ShrBelow(x / 2, d, n - 1);
    }
  }

  lemma {:induction false} ShlMonotone(a: nat, b: nat, n: nat)
    ensures a <= b <==> Shl(a, n) <= Shl(b, n)
  {
    if n > 0 {
      ShlMonotone(a, b, n - 1);
    }
  }

  lemma {:induction false} ShlShl(a: nat, m: nat, n: nat)
    ensures Shl(Shl(a, m), n) == Shl(a, m + n)
  {
    if n > 0 {
      ShlShl(a, m, n - 1);
    }
  }

  lemma {:induction false} ShlOne(n: nat)
    ensures Shl(1, n) == Pow2(n)
  {
    if n > 0 {
      ShlOne(n - 1);
    }
  }

  lemma {:induction false} ValueOfBits(x: nat, n: nat)
    requires x < Pow2(n)
    ensures Value(Bits(x, n)) == x
  {
    if n > 0 {
      ValueOfBits(x / 2, n - 1);
      assert Bits(x, n)[1..] == Bits(x / 2, n - 1);
    }
  }

  lemma {:induction false} BitsOfValue(b: seq<bool>)
    ensures Bits(Value(b), |b|) == b
  {
    if b != [] {
      BitsOfValue(b[1..]);
      assert Value(b) / 2 == Value(b[1..]);
    }
  }

  /** Bits above position `n` do not show in the low `n` bits. */
  lemma {:induction false} BitsOfSum(x: nat, n: nat, y: nat)
    ensures Bits(x + Shl(y, n), n) == Bits(x, n)
  {
    if n > 0 {
      var z := Shl(y, n - 1);
      assert (x + 2 * z) / 2 == x / 2 + z && (x + 2 * z) % 2 == x % 2;
      BitsOfSum(x / 2, n - 1, y);
    }
  }

  lemma BitsOfRemainder(x: nat, n: nat)
    ensures Bits(x % Pow2(n), n) == Bits(x, n)
  {
    hide Bits, Pow2;
    BitsOfSum(x % Pow2(n), n, x / Pow2(n));
    ShlTimes(x / Pow2(n), n);
    DivMod(x, Pow2(n));
  }

  lemma {:induction false} ShlTimes(x: nat, n: nat)
    ensures Shl(x, n) == Pow2(n) * x
  {
    if n > 0 {
      ShlTimes(x, n - 1);
    }
  }

  lemma DivMod(x: int, p: nat)
    requires p > 0
    ensures x % p + p * (x / p) == x && 0 <= x % p < p
  {
  }

  /** The low bits of a number determine its remainder. */
  lemma LowBits(x: nat, n: nat)
    ensures x % Pow2(n) == Value(Bits(x, n))
  {
    BitsOfRemainder(x, n);
    ValueOfBits(x % Pow2(n), n);
  }

  /** Two numbers have the same low bits exactly when they have the same remainder. */
  lemma SameBits(x: nat, y: nat, n: nat)
    ensures Bits(x, n) == Bits(y, n) <==> x % Pow2(n) == y % Pow2(n)
  {
    LowBits(x, n);
    LowBits(y, n);
    BitsOfRemainder(x, n);
    BitsOfRemainder(y, n);
  }

  /** Bitwise or. */
  function Or(x: nat, y: nat): nat
    decreases x + y
  {
    if x == 0 && y == 0 then 0
    else BitValue(x % 2 == 1 || y % 2 == 1) + 2 * Or(x / 2, y / 2)
  }

  lemma {:induction false} OrZero(x: nat)
    ensures Or(x, 0) == x
  {
    if x > 0 {
      OrZero(x / 2);
    }
  }

  /** The bitwise or of numbers without a common bit is their sum. */
  lemma {:induction false} OrDisjoint(x: nat, y: nat, n: nat)
    requires y < Pow2(n)
    ensures Or(Shl(x, n), y) == Shl(x, n) + y
  {
    if n == 0 {
      OrZero(x);
    } else {
      var z := Shl(x, n - 1);
      OrDisjoint(x, y / 2, n - 1);
      assert (2 * z) / 2 == z && (2 * z) % 2 == 0;
      if z == 0 && y == 0 {
        assert Or(2 * z, y) == 0;
      } else {
        assert Or(2 * z, y) == BitValue(y % 2 == 1) + 2 * Or(z, y / 2);
      }
    }
  }

  lemma {:induction false} ShlZero(n: nat)
    ensures Shl(0, n) == 0
  {
    if n > 0 {
      ShlZero(n - 1);
    }
  }

  lemma {:induction false} ShlAdd(x: nat, y: nat, n: nat)
    ensures Shl(x + y, n) == Shl(x, n) + Shl(y, n)
  {
    if n > 0 {
      ShlAdd(x, y, n - 1);
    }
  }

  lemma {:induction false} ShlBelow(x: nat, m: nat, n: nat)
    requires x < Pow2(m)
    ensures Shl(x, n) < Pow2(m + n)
  {
    if n > 0 {
      ShlBelow(x, m, n - 1);
    }
  }
}
