/** 128-bit numbers written as decimal text and read back from decimal, octal or hexadecimal text. */
module DecimalText {
  import opened BitStrings
  import opened Words
  import opened Uint128s
  import opened CStrings
  import opened Division

  const DIGITS: string := "0123456789abcdefghijklmnopqrstuvwxyz"

  function DigitChar(d: nat): char
    requires d < 10
  {
    DIGITS[d]
  }

  lemma DigitCharIs(d: nat)
    requires d < 10
    ensures DigitChar(d) as int == '0' as int + d
  {
  }

  /** The decimal numeral of a number, without leading zeros. */
  function Decimal(v: nat): (s: string)
    ensures s != ""
  {
    if v < 10 then [DigitChar(v)] else Decimal(v / 10) + [DigitChar(v % 10)]
  }

  datatype Digit = Digit(value: nat) | Invalid

  /** The digit that a character stands for, if it is one in this radix. */
  function ReadDigit(c: char, radix: nat): (d: Digit)
    ensures d.Digit? ==> d.value < radix
  {
    var d := if 'A' <= c <= 'Z' then Digit(c as int - 'A' as int + 10)
             else if 'a' <= c <= 'z' then Digit(c as int - 'a' as int + 10)
             else if '0' <= c <= '9' then Digit(c as int - '0' as int)
             else Invalid;
    if d.Digit? && d.value < radix then d else Invalid
  }

  predicate AllDigits(s: string, radix: nat) {
    forall i :: 0 <= i < |s| ==> ReadDigit(s[i], radix).Digit?
  }

  /** The number that a text of digits stands for. */
  function Numeral(s: string, radix: nat): nat
    requires AllDigits(s, radix)
  {
    if s == "" then 0
    else Numeral(s[..|s| - 1], radix) * radix + ReadDigit(s[|s| - 1], radix).value
  }

  /** The length of the longest start of a text that has only digits. */
  function DigitCount(s: string, radix: nat): (n: nat)
    ensures n <= |s| && AllDigits(s[..n], radix)
    ensures n < |s| ==> ReadDigit(s[n], radix).Invalid?
  {
    if s == "" || ReadDigit(s[0], radix).Invalid? then 0
    else
      var n := DigitCount(s[1..], radix);
      assert forall i :: 0 < i < 1 + n ==> s[i] == s[1..][..n][i - 1];
      1 + n
  }

  predicate Negative(s: string) { s != "" && s[0] == '-' }

  function Unsigned(s: string): string { if Negative(s) then s[1..] else s }

  function Radix(s: string): nat {
    if s == "" || s[0] != '0' then 10 else if |s| > 1 && s[1] == 'x' then 16 else 8
  }

  function AfterPrefix(s: string): string {
    if s == "" || s[0] != '0' then s else if |s| > 1 && s[1] == 'x' then s[2..] else s[1..]
  }

  /** What a text is read as: the longest start that is a numeral, modulo 2^128; a minus sign takes the complement. */
  function Parsed(s: string): nat {
    var text := Unsigned(s);
    var digits := AfterPrefix(text);
    var n: int := Numeral(digits[..DigitCount(digits, Radix(text))], Radix(text));
    if Negative(s) then Wrap(-n) else Wrap(n)
  }

  lemma {:induction false} DecimalDigits(v: nat)
    ensures AllDigits(Decimal(v), 10) && Numeral(Decimal(v), 10) == v
    ensures Decimal(v)[0] == '0' <==> v == 0
    ensures Decimal(v)[0] != '-'
  {
    hide DigitChar;
    DigitCharIs(v % 10);
    if v < 10 {
      assert Numeral([DigitChar(v)][..0], 10) == 0;
    } else {
      DecimalDigits(v / 10);
      DigitAppended(Decimal(v / 10), v % 10);
    }
  }

  lemma DigitAppended(s: string, d: nat)
    requires AllDigits(s, 10) && d < 10
    ensures AllDigits(s + [DigitChar(d)], 10) && Numeral(s + [DigitChar(d)], 10) == Numeral(s, 10) * 10 + d
  {
    hide DigitChar;
    DigitCharIs(d);
    assert (s + [DigitChar(d)])[..|s|] == s;
  }

  lemma AllCounted(s: string, radix: nat)
    requires AllDigits(s, radix)
    ensures DigitCount(s, radix) == |s|
  {
  }

  /** The decimal text of any number is read as that number modulo 2^128. */
  lemma ReadsDecimal(v: nat)
    ensures Parsed(Decimal(v)) == Wrap(v)
  {
    hide Numeral, ReadDigit, Wrap;
    var s := Decimal(v);
    DecimalDigits(v);
    if v == 0 {
      DecimalZero();
      NumeralEmpty(8);
    } else {
      AllCounted(s, 10);
      assert s[..|s|] == s;
    }
  }

  /** Printing and reading gives every 128-bit number back, although a leading zero means octal. */
  lemma RoundTrip(v: nat)
    requires v < W128
    ensures Parsed(Decimal(v)) == v
  {
    hide *;
    ReadsDecimal(v);
    WrapSmall(v);
  }

  lemma DecimalZero()
    ensures Decimal(0) == "0"
  {
  }

  lemma NumeralEmpty(radix: nat)
    ensures Numeral("", radix) == 0
  {
  }

  // ----- other radices -----

  /** The character of a digit up to 35, with small or capital letters from 10 on. */
  function Letter(d: nat, capital: bool): char
    requires d < 36
  {
    if d < 10 then ('0' as int + d) as char else ((if capital then 'A' else 'a') as int + d - 10) as char
  }

  /** A character is a digit of a radix exactly if it is the character of a number below the radix. */
  lemma DigitsAre(c: char, radix: nat, value: nat)
    requires radix <= 36 && value < 36
    ensures ReadDigit(c, radix) == Digit(value) <==>
              value < radix && (c == Letter(value, false) || c == Letter(value, true))
  {
  }

  /** The numeral of a number to some base, without leading zeros. */
  function InRadix(v: nat, radix: nat, capital: bool): (s: string)
    requires 2 <= radix <= 36
    ensures s != ""
    decreases v
  {
    if v < radix then [Letter(v, capital)]
    else
      LastDigit(v, radix);
      InRadix(v / radix, radix, capital) + [Letter(v % radix, capital)]
  }

  lemma LastDigit(v: nat, radix: nat)
    requires v >= radix >= 2
    ensures 0 <= v / radix < v && 0 <= v % radix < radix && v / radix * radix + v % radix == v
  {
    DivMod(v, radix);
    QuotientSmaller(v, v / radix, v % radix, radix);
  }

  lemma QuotientSmaller(v: nat, q: nat, r: nat, radix: nat)
    requires v > 0 && radix >= 2 && r < radix && r + radix * q == v
    ensures q < v && q * radix + r == v
  {
    assert radix * q == 2 * q + (radix - 2) * q;
  }

  lemma {:induction false} NumeralInRadix(v: nat, radix: nat, capital: bool)
    requires 2 <= radix <= 36
    ensures var s := InRadix(v, radix, capital); AllDigits(s, radix) && Numeral(s, radix) == v
    decreases v
  {
    hide ReadDigit, Letter;
    if v < radix {
      DigitsAre(Letter(v, capital), radix, v);
      assert [Letter(v, capital)][..0] == "";
    } else {
      LastDigit(v, radix);
      NumeralInRadix(v / radix, radix, capital);
      DigitsAre(Letter(v % radix, capital), radix, v % radix);
      DigitAdded(InRadix(v / radix, radix, capital), Letter(v % radix, capital), radix);
    }
  }

  lemma DigitAdded(s: string, c: char, radix: nat)
    requires AllDigits(s, radix) && ReadDigit(c, radix).Digit?
    ensures AllDigits(s + [c], radix) && Numeral(s + [c], radix) == Numeral(s, radix) * radix + ReadDigit(c, radix).value
  {
    hide ReadDigit;
    assert (s + [c])[..|s|] == s;
  }

  /** A numeral to the base 8 behind a 0, or to the base 16 behind 0x, with small or capital letters, is read as its
      number modulo 2^128, and with a minus sign in front as the complement of that. */
  lemma ReadsPrefixed(v: nat, capital: bool)
    ensures Parsed("0" + InRadix(v, 8, capital)) == Wrap(v)
    ensures Parsed("-0" + InRadix(v, 8, capital)) == Wrap(-(v as int))
    ensures Parsed("0x" + InRadix(v, 16, capital)) == Wrap(v)
    ensures Parsed("-0x" + InRadix(v, 16, capital)) == Wrap(-(v as int))
  {
    hide ReadDigit, Numeral, Wrap, Parsed, InRadix, AllDigits;
    NumeralInRadix(v, 8, capital);
    NumeralInRadix(v, 16, capital);
    ParsedPrefix("0", InRadix(v, 8, capital), 8);
    ParsedPrefix("0x", InRadix(v, 16, capital), 16);
    assert "-" + "0" == "-0" && "-" + "0x" == "-0x";
  }

  lemma ParsedPrefix(prefix: string, digits: string, radix: nat)
    requires (prefix == "0" && radix == 8) || (prefix == "0x" && radix == 16)
    requires digits != "" && AllDigits(digits, radix)
    ensures Parsed(prefix + digits) == Wrap(Numeral(digits, radix))
    ensures Parsed("-" + prefix + digits) == Wrap(-(Numeral(digits, radix) as int))
  {
    hide ReadDigit, Numeral, Wrap, DigitCount;
    NotAnX(digits, radix);
    AllCounted(digits, radix);
    var s := prefix + digits;
    assert s[|prefix|..] == digits && digits[..|digits|] == digits;
    assert ("-" + prefix + digits)[1..] == s;
  }

  /** A digit of these radices is not the x of the prefix. */
  lemma NotAnX(s: string, radix: nat)
    requires s != "" && AllDigits(s, radix) && radix <= 16
    ensures s[0] != 'x'
  {
    assert ReadDigit(s[0], radix).Digit?;
  }

  function Pow10(k: nat): nat { if k == 0 then 1 else 10 * Pow10(k - 1) }

  lemma {:induction false} DecimalLength(v: nat, k: nat)
    requires v < Pow10(k) && k > 0
    ensures |Decimal(v)| <= k
  {
    if v >= 10 {
      DecimalLength(v / 10, k - 1);
    }
  }

  lemma AtMost39Digits(v: nat)
    requires v < W128
    ensures |Decimal(v)| <= 39
  {
    hide Decimal;
    assert Pow10(4) == 10000;
    assert Pow10(8) == 1_0000_0000;
    assert Pow10(12) == 1_0000_0000_0000;
    assert Pow10(16) == 1_0000_0000_0000_0000;
    assert Pow10(20) == 1_0000_0000_0000_0000_0000;
    assert Pow10(24) == 1_0000_0000_0000_0000_0000_0000;
    assert Pow10(28) == 1_0000_0000_0000_0000_0000_0000_0000;
    assert Pow10(32) == 1_0000_0000_0000_0000_0000_0000_0000_0000;
    assert Pow10(36) == 1_0000_0000_0000_0000_0000_0000_0000_0000_0000;
    DecimalLength(v, 39);
  }

  /** The digits that are still to come. */
  function Remaining(v: nat): string { if v == 0 then "" else Decimal(v) }

  lemma NextDigit(v: nat)
    requires v > 0
    ensures Decimal(v) == Remaining(v / 10) + [DigitChar(v % 10)]
  {
  }

  /** The buffer of the printer: a NUL at its end, the digits written so far before it. */
  predicate Written(buffer: seq<char>, i: nat, left: nat, v: nat) {
    && |buffer| == 129 && i <= 127 && buffer[127] == '\0'
    && Decimal(v) == Remaining(left) + buffer[i..127]
    && (forall k :: i <= k < 127 ==> buffer[k] != '\0')
  }

  lemma Writable(buffer: seq<char>, i: nat, left: nat, v: nat)
    requires v < W128 && Written(buffer, i, left, v)
    ensures i >= 88
  {
    AtMost39Digits(v);
  }

  lemma WriteDigit(buffer: seq<char>, i: nat, left: nat, v: nat)
    requires v < W128 && left > 0 && Written(buffer, i, left, v) && i > 0
    ensures Written(buffer[i - 1 := DigitChar(left % 10)], i - 1, left / 10, v)
  {
    hide DigitChar, Decimal;
    NextDigit(left);
    DigitCharIs(left % 10);
    var next := buffer[i - 1 := DigitChar(left % 10)];
    assert next[i - 1..127] == [DigitChar(left % 10)] + buffer[i..127];
    assert Remaining(left) == Remaining(left / 10) + [DigitChar(left % 10)];
  }

  lemma AllWritten(buffer: seq<char>, i: nat, v: nat)
    requires Written(buffer, i, 0, v)
    ensures CString(buffer[i..]) == Decimal(v)
  {
    hide Decimal;
    var s := CString(buffer[i..]);
    assert buffer[i..][127 - i] == '\0';
    assert forall k :: 0 <= k < 127 - i ==> buffer[i..][k] == buffer[i + k];
    assert |s| == 127 - i;
  }

  lemma NothingWritten(buffer: seq<char>, v: nat)
    requires |buffer| == 129 && (forall k :: 0 <= k < 129 ==> buffer[k] == '\0') && v > 0
    ensures Written(buffer, 127, v, v)
  {
    assert buffer[127..127] == "";
  }

  method DivideByTen(v: Uint128) returns (quotient: Uint128, digit: nat)
    ensures fresh(quotient) && quotient.Value() == v.Value() / 10 && digit == v.Value() % 10
  {
    hide Pair;
    var ten := new Uint128(0, 10);
    PairZero(10);
    var ok, q, r := Divide(v, ten);
    QuotientUnique(v.Value(), 10, q.Value(), r.Value());
    SmallPair(r.hi, r.lo);
    quotient, digit := q, r.lo;
  }

  lemma SmallPair(hi: Word, lo: Word)
    requires Pair(hi, lo) < 10
    ensures hi == 0 && Pair(hi, lo) == lo
  {
  }

  /** Prints into a buffer of 129 characters, from its end. */
  method ToString(v: Uint128) returns (s: string)
    ensures s == Decimal(v.Value())
  {
    if v.IsZero() {
      return "0";
    }
    hide Pair, Decimal, DigitChar, Written;
    ghost var value := v.Value();
    var sz := new char[129](_ => '\0');
    var ii := new Uint128(v.hi, v.lo);
    var i := 127;
    NothingWritten(sz[..], value);
    while !ii.IsZero() && i != 0
      invariant 0 <= i <= 127 && sz.Length == 129 && fresh(ii) && fresh(sz)
      invariant Written(sz[..], i, ii.Value(), value)
      decreases i
    {
      label Before:
      ghost var left := ii.Value();
      var digit;
      ii, digit := DivideByTen(ii);
      Writable(sz[..], i, left, value);
      WriteDigit(sz[..], i, left, value);
      i := i - 1;
      sz[i] := DigitChar(digit);
      assert sz[..] == old@Before(sz[..])[i := DigitChar(digit)];
    }
    Writable(sz[..], i, ii.Value(), value);
    AllWritten(sz[..], i, value);
    s := CString(sz[i..]);
    assert sz[..][i..] == sz[i..];
  }

  lemma DigitsBefore(s: string, n: nat, radix: nat)
    requires n <= |s| && AllDigits(s[..n], radix)
    ensures forall i :: 0 <= i < n ==> ReadDigit(s[i], radix).Digit?
  {
    hide ReadDigit;
    forall i | 0 <= i < n ensures ReadDigit(s[i], radix).Digit? {
      assert s[..n][i] == s[i];
    }
  }

  lemma {:induction false} CountIs(s: string, n: nat, radix: nat)
    requires n <= |s| && AllDigits(s[..n], radix) && (n < |s| ==> ReadDigit(s[n], radix).Invalid?)
    ensures DigitCount(s, radix) == n
  {
    hide ReadDigit;
    var m := DigitCount(s, radix);
    DigitsBefore(s, n, radix);
    DigitsBefore(s, m, radix);
  }

  lemma OneMoreDigit(s: string, n: nat, radix: nat)
    requires n < |s| && AllDigits(s[..n], radix) && ReadDigit(s[n], radix).Digit?
    ensures AllDigits(s[..n + 1], radix)
    ensures Numeral(s[..n + 1], radix) == Numeral(s[..n], radix) * radix + ReadDigit(s[n], radix).value
  {
    hide ReadDigit;
    assert s[..n + 1][..n] == s[..n];
  }

  lemma NegateWrapped(n: nat)
    ensures Wrap(W128 - Wrap(n)) == Wrap(0 - n)
  {
    var q, r := n / W128, n % W128;
    DivMod(n, W128);
    if r == 0 {
      RemainderUnique(W128, -q, 0);
      RemainderUnique(W128, 1, 0);
    } else {
      RemainderUnique(W128, -q - 1, W128 - r);
      RemainderUnique(W128, 0, W128 - r);
    }
  }

  /** Multiplies by the radix and adds a digit. */
  method AppendDigit(r: Uint128, radix: nat, digit: nat, ghost exact: nat)
    requires radix < 100 && digit < 100 && r.Value() == Wrap(exact)
    modifies r
    ensures r.Value() == Wrap(exact * radix + digit)
  {
    hide Pair;
    PairZero(radix);
    var factor := new Uint128(0, radix);
    ModTimes(exact, radix, W128);
    r.TimesAssign(factor);
    r.PlusWord(digit, exact * radix);
  }

  /** Reads a number; it stops at the first character that is no digit of the radix. */
  method FromString(s: string) returns (r: Uint128)
    ensures fresh(r) && r.Value() == Parsed(s)
  {
    hide Pair, ReadDigit, Wrap;
    PairZero(0);
    WrapSmall(0);
    r := new Uint128(0, 0);
    NumeralEmpty(10);
    var radix, minus, i := 10, false, 0;
    if s != "" && s[i] == '-' {
      i, minus := i + 1, true;
    }
    ghost var text := Unsigned(s);
    assert text == s[i..];
    if i < |s| && s[i] == '0' {
      radix, i := 8, i + 1;
      if i < |s| && s[i] == 'x' {
        radix, i := 16, i + 1;
      }
    }
    ghost var digits := AfterPrefix(text);
    ghost var start := i;
    assert digits == s[i..] && radix == Radix(text);
    assert digits[..0] == "";
    NumeralEmpty(radix);
    ReadDigits(s, i, radix, r, digits);
    if minus {
      NegateWrapped(Numeral(digits[..DigitCount(digits, radix)], radix));
      r := r.Negated();
    }
  }

  method ReadDigits(s: string, from: nat, radix: nat, r: Uint128, ghost digits: string)
    requires from <= |s| && digits == s[from..] && radix <= 16 && r.Value() == 0
    modifies r
    ensures r.Value() == Wrap(Numeral(digits[..DigitCount(digits, radix)], radix))
  {
    hide ReadDigit, Wrap, Numeral, Pair;
    NumeralEmpty(radix);
    WrapSmall(0);
    assert digits[..0] == "";
    var i := from;
    while i < |s| && ReadDigit(s[i], radix).Digit?
      invariant from <= i <= |s| && AllDigits(digits[..i - from], radix)
      invariant r.Value() == Wrap(Numeral(digits[..i - from], radix))
    {
      OneMoreDigit(digits, i - from, radix);
      AppendDigit(r, radix, ReadDigit(s[i], radix).value, Numeral(digits[..i - from], radix));
      i := i + 1;
    }
    CountIs(digits, i - from, radix);
  }
}
