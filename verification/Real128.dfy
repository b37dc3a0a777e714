/** Fixed-point numbers with 18 decimal places, kept as a 128-bit multiple of 10^-18. */
module Real128s {
  import opened Words
  import opened Uint128s
  import opened CStrings
  import opened DecimalText
  import Division

  const PRECISION: nat := 1_000_000_000_000_000_000
  const MAX_INT64: nat := 0x7fff_ffff_ffff_ffff

  type Fixed = x: nat | x < W128

  datatype Outcome = Fails | Overflows | Value(fixed: Fixed)

  lemma PrecisionIs()
    ensures Pow10(18) == PRECISION && Pow10(19) == 10 * PRECISION
  {
    assert Pow10(4) == 10000;
    assert Pow10(8) == 1_0000_0000;
    assert Pow10(12) == 1_0000_0000_0000;
    assert Pow10(16) == 1_0000_0000_0000_0000;
  }

  /** The digits of a number, padded with zeros to the given length. */
  function Padded(m: nat, k: nat): (s: string)
    ensures |s| == k
  {
    if k == 0 then "" else Padded(m / 10, k - 1) + [DigitChar(m % 10)]
  }

  function StripZeros(s: string): (t: string)
    ensures |t| <= |s| && t == s[..|t|]
  {
    if s != "" && s[|s| - 1] == '0' then StripZeros(s[..|s| - 1]) else s
  }

  /** The printed number. */
  function Print(fixed: nat): string {
    StripZeros(Decimal(fixed / PRECISION) + "." + Decimal(fixed % PRECISION + PRECISION)[1..])
  }

  /** The whole part that a text starts with, in a 64-bit variable. */
  function Whole(s: string): nat { WholePart(Numeral(s[..DigitCount(s, 10)], 10)) }

  function WholePart(n: nat): (fixed: nat)
    ensures fixed <= W64 * PRECISION < W128
  {
    n % W64 * PRECISION
  }

  /** The digits after the point. */
  function Fraction(s: string): string { s[..DigitCount(s, 10)] }

  /** The digits after the point, as a multiple of 10^-18. */
  function Scaled(digits: string): (fixed: nat)
    requires AllDigits(digits, 10) && |digits| <= 18
    ensures fixed < PRECISION
  {
    FractionFits(digits);
    Numeral(digits, 10) * Pow10(18 - |digits|)
  }

  function WithFraction(whole: nat, s: string): Outcome
    requires whole <= W64 * PRECISION
  {
    var digits := Fraction(s);
    if |digits| > 18 then Overflows else Value(whole + Scaled(digits))
  }

  /** What a text is read as. */
  function Parse(s: string): Outcome {
    var c := CString(s);
    var n := DigitCount(c, 10);
    if n == 0 && (c == "" || c[0] != '.') then Fails
    else if n == |c| || c[n] != '.' then Value(Whole(c))
    else WithFraction(Whole(c), c[n + 1..])
  }

  lemma {:induction false} NumeralBelow(s: string)
    requires AllDigits(s, 10)
    ensures Numeral(s, 10) < Pow10(|s|)
  {
    hide ReadDigit;
    if s != "" {
      NumeralBelow(s[..|s| - 1]);
    }
  }

  lemma {:induction false} Pow10Split(m: nat, n: nat)
    ensures Pow10(m) * Pow10(n) == Pow10(m + n)
  {
    if m > 0 {
      Pow10Split(m - 1, n);
      Regroup(10, Pow10(m - 1), Pow10(n));
    }
  }

  lemma FractionFits(digits: string)
    requires AllDigits(digits, 10) && |digits| <= 18
    ensures Numeral(digits, 10) * Pow10(18 - |digits|) < PRECISION
  {
    hide Numeral, Pow10, AllDigits;
    var k := |digits|;
    PrecisionIs();
    NumeralBelow(digits);
    Pow10Split(k, 18 - k);
    TimesMonotone(Numeral(digits, 10) + 1, Pow10(k), Pow10(18 - k));
    Distribute(Numeral(digits, 10), 1, Pow10(18 - k));
    Pow10Positive(18 - k);
  }

  lemma {:induction false} Pow10Positive(k: nat)
    ensures Pow10(k) > 0
  {
    if k > 0 {
      Pow10Positive(k - 1);
    }
  }

  lemma {:induction false} PaddedDecimal(m: nat, k: nat)
    requires m < Pow10(k)
    ensures Decimal(Pow10(k) + m) == "1" + Padded(m, k)
  {
    hide DigitChar;
    if k == 0 {
      DigitCharIs(1);
    } else {
      PaddedDecimal(m / 10, k - 1);
      Pow10Positive(k - 1);
      DropDigit(Pow10(k - 1), m);
    }
  }

  lemma DropDigit(a: nat, m: nat)
    ensures (10 * a + m) / 10 == a + m / 10 && (10 * a + m) % 10 == m % 10
  {
  }

  lemma {:induction false} PaddedNumeral(m: nat, k: nat)
    requires m < Pow10(k)
    ensures AllDigits(Padded(m, k), 10) && Numeral(Padded(m, k), 10) == m
  {
    DigitCharIs(m % 10);
    hide DigitChar;
    if k > 0 {
      PaddedNumeral(m / 10, k - 1);
      var s := Padded(m, k);
      assert s[..|s| - 1] == Padded(m / 10, k - 1);
    }
  }

  /** Leaving out zeros at the end of a fraction divides its numeral by powers of ten. */
  lemma {:induction false} StrippedNumeral(s: string)
    requires AllDigits(s, 10)
    ensures var t := StripZeros(s);
            AllDigits(t, 10) && Numeral(s, 10) == Numeral(t, 10) * Pow10(|s| - |t|)
  {
    if s != "" && s[|s| - 1] == '0' {
      var front := s[..|s| - 1];
      StrippedNumeral(front);
      var t := StripZeros(front);
      Regroup(10, Pow10(|front| - |t|), Numeral(t, 10));
      Commutes(Numeral(t, 10), Pow10(|front| - |t|));
      Commutes(Numeral(t, 10), Pow10(|s| - |t|));
    }
  }

  lemma {:induction false} StripAfterPoint(s: string, f: string)
    ensures StripZeros(s + "." + f) == s + "." + StripZeros(f)
  {
    var t := s + "." + f;
    if f != "" && f[|f| - 1] == '0' {
      assert t[..|t| - 1] == s + "." + f[..|f| - 1];
      StripAfterPoint(s, f[..|f| - 1]);
    }
  }

  lemma PointIsNoDigit()
    ensures ReadDigit('.', 10).Invalid? && ReadDigit('\0', 10).Invalid?
  {
  }

  /** Reading a whole part, a point and at most 18 digits. */
  lemma ReadsPoint(d: string, t: string)
    requires AllDigits(d, 10) && AllDigits(t, 10) && d != "" && |t| <= 18
    ensures Parse(d + "." + t) == Value(WholePart(Numeral(d, 10)) + Scaled(t))
  {
    hide Numeral, ReadDigit, Pow10, CString, DigitCount, AllDigits, WholePart, Scaled;
    var s := d + "." + t;
    SplitsAtPoint(d, t);
    AllCounted(t, 10);
    assert t[..|t|] == t;
  }

  lemma SplitsAtPoint(d: string, t: string)
    requires AllDigits(d, 10) && AllDigits(t, 10)
    ensures var s := d + "." + t;
            && CString(s) == s && DigitCount(s, 10) == |d|
            && s[..|d|] == d && s[|d|] == '.' && s[|d| + 1..] == t
  {
    hide ReadDigit, CString, DigitCount;
    var s := d + "." + t;
    PointIsNoDigit();
    forall i | 0 <= i < |s| ensures s[i] != '\0' {
      assert i < |d| ==> s[i] == d[i];
      assert i > |d| ==> s[i] == t[i - |d| - 1];
    }
    WholeCString(s);
    assert s[..|d|] == d && s[|d| + 1..] == t && s[|d|] == '.';
    CountIs(s, |d|, 10);
  }

  lemma PrintIs(fixed: nat)
    ensures var d, t := Decimal(fixed / PRECISION), StripZeros(Padded(fixed % PRECISION, 18));
            && Print(fixed) == d + "." + t && |t| <= 18
            && AllDigits(d, 10) && Numeral(d, 10) == fixed / PRECISION
            && AllDigits(t, 10) && Scaled(t) == fixed % PRECISION
  {
    hide Decimal, Padded, StripZeros, Numeral, Pow10, ReadDigit;
    var m := fixed % PRECISION;
    PrecisionIs();
    DecimalDigits(fixed / PRECISION);
    PaddedDecimal(m, 18);
    PaddedNumeral(m, 18);
    StrippedNumeral(Padded(m, 18));
    StripAfterPoint(Decimal(fixed / PRECISION), Padded(m, 18));
  }

  lemma {:induction false} StrippedEnd(s: string)
    ensures var t := StripZeros(s); t != "" ==> t[|t| - 1] != '0'
  {
    if s != "" && s[|s| - 1] == '0' {
      StrippedEnd(s[..|s| - 1]);
    }
  }

  /** What is printed: the whole part without leading zeros, a point, and as few digits as give the fraction in units of
      10^-18. */
  lemma PrintsFewestDigits(fixed: nat)
    ensures var d, t := Decimal(fixed / 1_000_000_000_000_000_000), StripZeros(Padded(fixed % PRECISION, 18));
            && Print(fixed) == d + "." + t
            && AllDigits(d, 10) && Numeral(d, 10) == fixed / 1_000_000_000_000_000_000 && (d[0] == '0' ==> |d| == 1)
            && AllDigits(t, 10) && |t| <= 18 && (t != "" ==> t[|t| - 1] != '0')
            && Numeral(t, 10) * Pow10(18 - |t|) == fixed % 1_000_000_000_000_000_000
  {
    hide Padded, StripZeros, Numeral, Pow10, ReadDigit, Print, DigitChar;
    PrintIs(fixed);
    StrippedEnd(Padded(fixed % PRECISION, 18));
    DecimalDigits(fixed / PRECISION);
  }

  /** Printing and reading keeps the fraction, and the whole part modulo 2^64. */
  lemma PrintThenParse(fixed: Fixed)
    ensures var read := fixed / PRECISION % W64 * PRECISION + fixed % PRECISION;
            read < W128 && Parse(Print(fixed)) == Value(read)
  {
    hide Decimal, Padded, StripZeros, Numeral, Pow10, AllDigits, Parse, Print;
    PrintIs(fixed);
    var d := Decimal(fixed / PRECISION);
    ReadsPoint(d, StripZeros(Padded(fixed % PRECISION, 18)));
  }

  /** A number comes back exactly when its whole part fits into 64 bits. */
  lemma RoundTrip(fixed: Fixed)
    ensures Parse(Print(fixed)) == Value(fixed) <==> fixed / PRECISION < W64
  {
    hide Parse, Print;
    PrintThenParse(fixed);
    var n := fixed / PRECISION;
    assert n * PRECISION + fixed % PRECISION == fixed;
    if n >= W64 {
      assert n % W64 < W64;
    } else {
      SmallRemainders(n);
    }
  }

  lemma SmallRemainders(n: nat)
    requires n < W64
    ensures n % W64 == n
  {
  }

  class Real128 {
    var fixed: Fixed

    constructor (integer: Word)
      ensures fixed == integer * PRECISION
    {
      fixed := integer * PRECISION;
    }

    method PlusAssign(o: Real128)
      modifies this
      ensures fixed == Wrap(old(fixed) + old(o.fixed))
    {
      fixed := Wrap(fixed + o.fixed);
    }

    method MinusAssign(o: Real128)
      modifies this
      ensures fixed == Wrap(old(fixed) - old(o.fixed))
    {
      fixed := Wrap(fixed - o.fixed);
    }

    /** The exact product rounded down to 18 places; what does not fit into 128 bits is cut off. */
    method TimesAssign(o: Real128)
      modifies this
      ensures fixed == Wrap(old(fixed) * old(o.fixed) / PRECISION)
    {
      hide Parsed, Decimal, Wrap;
      var self := fixed * o.fixed / PRECISION;
      ReadsDecimal(self);
      fixed := Parsed(Decimal(self));
    }

    /** The exact quotient rounded down to 18 places; it fails for the divisor zero. */
    method DivideAssign(o: Real128) returns (ok: bool)
      modifies this
      ensures ok <==> old(o.fixed) > 0
      ensures fixed == if ok then Wrap(old(fixed) * PRECISION / old(o.fixed)) else old(fixed)
    {
      hide Parsed, Decimal, Wrap;
      if o.fixed == 0 {
        return false;
      }
      var self := fixed * PRECISION / o.fixed;
      ReadsDecimal(self);
      fixed := Parsed(Decimal(self));
      ok := true;
    }

    method ToString() returns (number: string)
      ensures number == Print(fixed)
    {
      hide Decimal;
      number := Decimal(fixed / PRECISION) + "." + Decimal(fixed % PRECISION + PRECISION)[1..];
      while number != "" && number[|number| - 1] == '0'
        invariant StripZeros(number) == Print(fixed)
        decreases |number|
      {
        number := number[..|number| - 1];
      }
    }
  }

  /** A decimal fraction of at most 18 digits is the quotient of two fixed-point numbers, without rounding. */
  lemma FractionQuotient(n: nat, k: nat)
    requires k <= 18
    ensures Pow10(k) > 0 && n * PRECISION * PRECISION / (Pow10(k) * PRECISION) == n * Pow10(18 - k)
  {
    hide Pow10;
    Pow10Positive(k);
    PrecisionIs();
    Pow10Split(k, 18 - k);
    var m, q := Pow10(k) * PRECISION, n * Pow10(18 - k);
    assert n * PRECISION * PRECISION == m * q by {
      Regroup(Pow10(k), PRECISION, q);
      Regroup(PRECISION, n, Pow10(18 - k));
      Product4(n, Pow10(k), Pow10(18 - k));
    }
    Division.QuotientUnique(m * q, m, q, 0);
  }

  lemma Product4(n: nat, a: nat, b: nat)
    requires a * b == PRECISION
    ensures n * PRECISION * PRECISION == (a * PRECISION) * (n * b)
  {
    assert n * PRECISION == n * (a * b) == a * (n * b);
    assert (a * PRECISION) * (n * b) == PRECISION * (a * (n * b));
  }

  lemma WrapsInStep(n: nat, d: nat)
    ensures (n % W64 * 10 + d) % W64 == (n * 10 + d) % W64
  {
    ModTimes(n, 10, W64);
    ModPlus(n % W64 * 10, d, W64);
    ModPlus(n * 10, d, W64);
  }

  lemma ReadAt(s: string, i: nat)
    requires i <= |CString(s)|
    ensures ReadDigit(At(s, i), 10).Digit? <==> i < |CString(s)| && ReadDigit(CString(s)[i], 10).Digit?
    ensures i < |CString(s)| ==> At(s, i) == CString(s)[i]
  {
    hide ReadDigit, CString;
    AtCString(s, i);
    PointIsNoDigit();
  }

  /** The whole part, in a 64-bit variable that wraps around. */
  method ReadWhole(s: string) returns (i: nat, intPart: Word)
    ensures i == DigitCount(CString(s), 10) && intPart == Numeral(CString(s)[..i], 10) % W64
  {
    hide ReadDigit, Numeral, CString;
    ghost var c := CString(s);
    NumeralEmpty(10);
    i, intPart := 0, 0;
    assert c[..0] == "";
    ReadAt(s, 0);
    while ReadDigit(At(s, i), 10).Digit?
      invariant i <= |c| && AllDigits(c[..i], 10) && intPart == Numeral(c[..i], 10) % W64
      invariant ReadDigit(At(s, i), 10).Digit? <==> i < |c| && ReadDigit(c[i], 10).Digit?
      decreases |c| - i
    {
      ReadAt(s, i);
      OneMoreDigit(c, i, 10);
      WrapsInStep(Numeral(c[..i], 10), ReadDigit(c[i], 10).value);
      intPart := (intPart * 10 + ReadDigit(At(s, i), 10).value) % W64;
      i := i + 1;
      ReadAt(s, i);
    }
    CountIs(c, i, 10);
  }

  lemma {:induction false} Pow10Monotone(m: nat, n: nat)
    requires m <= n
    ensures Pow10(m) <= Pow10(n)
  {
    if m < n {
      Pow10Monotone(m, n - 1);
    }
  }

  /** The accumulator and the magnitude of the fraction fit into 64 signed bits up to 18 digits, and not beyond. */
  lemma FractionBits(digits: string, k: nat)
    requires k <= |digits| && AllDigits(digits[..k], 10)
    ensures k <= 18 <==> Pow10(k) <= MAX_INT64
    ensures Numeral(digits[..k], 10) < Pow10(k)
  {
    hide Pow10, Numeral;
    PrecisionIs();
    NumeralBelow(digits[..k]);
    if k <= 18 {
      Pow10Monotone(k, 18);
    } else {
      Pow10Monotone(19, k);
    }
  }

  /** The digits after the point; a signed overflow is reported, since C leaves it undefined. */
  method ReadFraction(s: string, from: nat) returns (overflow: bool, fracPart: nat, fracMagnitude: nat)
    requires from <= |CString(s)|
    ensures var digits := Fraction(CString(s)[from..]);
            && (overflow <==> |digits| > 18)
            && (!overflow ==> fracPart == Numeral(digits, 10) <= MAX_INT64
                              && fracMagnitude == Pow10(|digits|) <= MAX_INT64)
  {
    hide ReadDigit, Numeral, CString, Pow10;
    ghost var c := CString(s)[from..];
    var i := from;
    NumeralEmpty(10);
    PowZero();
    overflow, fracPart, fracMagnitude := false, 0, 1;
    assert c[..0] == "";
    ReadAt(s, i);
    while ReadDigit(At(s, i), 10).Digit?
      invariant from <= i <= |CString(s)| && AllDigits(c[..i - from], 10) && i - from <= 18
      invariant fracPart == Numeral(c[..i - from], 10) && fracMagnitude == Pow10(i - from)
      invariant ReadDigit(At(s, i), 10).Digit? <==> i - from < |c| && ReadDigit(c[i - from], 10).Digit?
      decreases |CString(s)| - i
    {
      ReadAt(s, i);
      OneMoreDigit(c, i - from, 10);
      FractionBits(c, i - from + 1);
      PowNext(i - from);
      fracPart := fracPart * 10 + ReadDigit(At(s, i), 10).value;
      fracMagnitude := fracMagnitude * 10;
      i := i + 1;
      if fracPart > MAX_INT64 || fracMagnitude > MAX_INT64 {
        CountAtLeast(c, i - from);
        overflow := true;
        return;
      }
      ReadAt(s, i);
    }
    CountIs(c, i - from, 10);
    FractionBits(c, i - from);
  }

  lemma PowZero()
    ensures Pow10(0) == 1
  {
  }

  lemma PowNext(k: nat)
    ensures Pow10(k + 1) == Pow10(k) * 10
  {
  }

  lemma CountAtLeast(s: string, n: nat)
    requires n <= |s| && AllDigits(s[..n], 10)
    ensures DigitCount(s, 10) >= n
  {
    hide ReadDigit;
    DigitsBefore(s, n, 10);
  }

  /** The digits after the point as a number: nothing is lost in the division by their magnitude. */
  method ReadNumber(fracPart: nat, fracMagnitude: nat, ghost digits: string) returns (fraction: Real128)
    requires AllDigits(digits, 10) && |digits| <= 18
    requires fracPart == Numeral(digits, 10) <= MAX_INT64 && fracMagnitude == Pow10(|digits|) <= MAX_INT64
    ensures fresh(fraction) && fraction.fixed == Scaled(digits)
  {
    hide ReadDigit, Numeral, Pow10, DigitCount, Wrap;
    FractionQuotient(fracPart, |digits|);
    WrapSmall(Scaled(digits));
    fraction := new Real128(fracPart);
    var magnitude := new Real128(fracMagnitude);
    var ok := fraction.DivideAssign(magnitude);
  }

  method FromString(s: string) returns (o: Outcome)
    ensures o == Parse(s)
  {
    hide ReadDigit, Numeral, CString, Pow10, DigitCount, Wrap;
    ghost var c := CString(s);
    var i, intPart := ReadWhole(s);
    AtCString(s, i);
    if i == 0 && At(s, i) != '.' {
      return Fails;
    }
    var number := new Real128(intPart);
    ghost var whole := number.fixed;
    assert whole == Whole(c);
    if At(s, i) == '.' {
      var overflow, fracPart, fracMagnitude := ReadFraction(s, i + 1);
      if overflow {
        return Overflows;
      }
      ghost var digits := Fraction(c[i + 1..]);
      WrapSmall(whole + Scaled(digits));
      var fraction := ReadNumber(fracPart, fracMagnitude, digits);
      number.PlusAssign(fraction);
    }
    return Value(number.fixed);
  }
}
