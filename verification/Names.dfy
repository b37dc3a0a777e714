/** Names: 64-bit values written as up to thirteen characters, twelve of five bits and a last one of four. */
module Names {
  import opened BitStrings
  import opened CStrings

  const CHARMAP: string := ".12345abcdefghijklmnopqrstuvwxyz"

  const LIMIT: nat := 0x1_0000_0000_0000_0000

  predicate InMap(c: char) { c in CHARMAP }

  /** The last character has four bits only. */
  predicate InFirstHalf(c: char) { c in CHARMAP[..16] }

  function Symbol(c: char): (d: nat)
    ensures d < 32
  {
    if 'a' <= c <= 'z' then (c as int - 'a' as int) + 6
    else if '1' <= c <= '5' then (c as int - '1' as int) + 1
    else 0
  }

  function Letter(d: nat): char
    requires d < 32
  {
    CHARMAP[d]
  }

  lemma LetterIs(d: nat)
    requires d < 32
    ensures Letter(d) as int == if d == 0 then 46 else if d < 6 then 48 + d else 91 + d
  {
  }

  lemma SymbolOfLetter(d: nat)
    requires d < 32
    ensures Symbol(Letter(d)) == d && Letter(d) != '\0' && InMap(Letter(d))
    ensures Letter(d) == '.' <==> d == 0
  {
    LetterIs(d);
    hide Letter;
  }

  lemma LetterOfSymbol(c: char)
    ensures Letter(Symbol(c)) == c <==> InMap(c)
  {
    if InMap(c) {
      var d :| 0 <= d < |CHARMAP| && CHARMAP[d] == c;
      SymbolOfLetter(d);
    }
  }

  /** Any other character is read as a dot. */
  lemma OthersAreDots(c: char)
    ensures Symbol(c) == 0 <==> c == '.' || !InMap(c)
  {
    LetterOfSymbol(c);
    if InMap(c) {
      var d :| 0 <= d < |CHARMAP| && CHARMAP[d] == c;
      SymbolOfLetter(d);
    } else {
      LetterIs(Symbol(c));
    }
  }

  lemma LettersOrdered(d: nat, e: nat)
    requires d < 32 && e < 32
    ensures d < e <==> Letter(d) < Letter(e)
  {
    hide Letter;
    LetterIs(d);
    LetterIs(e);
  }

  /** The number that digits to the base 32 stand for. */
  function Num(ds: seq<nat>): nat {
    if ds == [] then 0 else 32 * Num(ds[..|ds| - 1]) + ds[|ds| - 1]
  }

  function Pow32(k: nat): nat {
    if k == 0 then 1 else 32 * Pow32(k - 1)
  }

  predicate Small(ds: seq<nat>) { forall i :: 0 <= i < |ds| ==> ds[i] < 32 }

  /** The digits of a name: twelve to the base 32 and one to the base 16. */
  predicate Digits(ds: seq<nat>) { |ds| == 13 && Small(ds) && ds[12] < 16 }

  function ValueOf(ds: seq<nat>): nat
    requires |ds| == 13
  {
    16 * Num(ds[..12]) + ds[12]
  }

  function DigitsOf(n: nat, k: nat): (ds: seq<nat>)
    ensures |ds| == k && Small(ds)
  {
    if k == 0 then [] else DigitsOf(n / 32, k - 1) + [n % 32]
  }

  function NameDigits(v: nat): (ds: seq<nat>)
    ensures Digits(ds)
  {
    DigitsOf(v / 16, 12) + [v % 16]
  }

  lemma {:induction false} NumOfDigits(n: nat, k: nat)
    requires n < Pow32(k)
    ensures Num(DigitsOf(n, k)) == n
  {
    if k > 0 {
      NumOfDigits(n / 32, k - 1);
    }
  }

  lemma TakeDigit(n: nat, digit: nat)
    requires digit < 32
    ensures (32 * n + digit) / 32 == n && (32 * n + digit) % 32 == digit
  {
  }

  lemma {:induction false} DigitsOfNum(ds: seq<nat>)
    requires Small(ds)
    ensures DigitsOf(Num(ds), |ds|) == ds && Num(ds) < Pow32(|ds|)
  {
    if ds != [] {
      var front, last := ds[..|ds| - 1], ds[|ds| - 1];
      DigitsOfNum(front);
      TakeDigit(Num(front), last);
      assert DigitsOf(Num(ds), |ds|) == DigitsOf(Num(front), |front|) + [last];
    }
  }

  lemma TwelveDigits()
    ensures 16 * Pow32(12) == LIMIT
  {
    assert Pow32(3) == 0x8000;
    assert Pow32(6) == 0x4000_0000;
    assert Pow32(9) == 0x2000_0000_0000;
  }

  lemma ValueOfDigits(v: nat)
    requires v < LIMIT
    ensures ValueOf(NameDigits(v)) == v
  {
    TwelveDigits();
    NumOfDigits(v / 16, 12);
    assert NameDigits(v)[..12] == DigitsOf(v / 16, 12);
  }

  lemma DigitsOfValue(ds: seq<nat>)
    requires Digits(ds)
    ensures ValueOf(ds) < LIMIT && NameDigits(ValueOf(ds)) == ds
  {
    TwelveDigits();
    hide Num, DigitsOf, Pow32;
    var n := Num(ds[..12]);
    DigitsOfNum(ds[..12]);
    assert (16 * n + ds[12]) / 16 == n && (16 * n + ds[12]) % 16 == ds[12];
    assert ds[..12] + [ds[12]] == ds;
  }

  function Text(ds: seq<nat>): string
    requires Small(ds)
  {
    seq(|ds|, i requires 0 <= i < |ds| => Letter(ds[i]))
  }

  /** The length without the dots at the end. */
  function TrimmedLength(s: string): (n: nat)
    ensures n <= |s| && (n > 0 ==> s[n - 1] != '.')
    ensures forall i :: n <= i < |s| ==> s[i] == '.'
  {
    if s != "" && s[|s| - 1] == '.' then TrimmedLength(s[..|s| - 1]) else |s|
  }

  function Trim(s: string): string { s[..TrimmedLength(s)] }

  /** The printed name. */
  function Print(v: nat): string { Trim(Text(NameDigits(v))) }

  function SymbolAt(s: string, i: nat): nat {
    if i >= |s| then 0 else if i == 12 then Symbol(s[i]) % 16 else Symbol(s[i])
  }

  /** The thirteen digits that a string is read as. */
  function Symbols(s: string): (ds: seq<nat>)
    ensures Digits(ds)
  {
    seq(13, i requires 0 <= i < 13 => SymbolAt(s, i))
  }

  function Encode(s: string): nat { ValueOf(Symbols(CString(s))) }

  /** `s` comes before `t` in the order of strings. */
  predicate Before(s: string, t: string, k: nat) {
    && k <= |s| && k < |t| && s[..k] == t[..k]
    && (k == |s| || s[k] < t[k])
  }

  ghost predicate Lex(s: string, t: string) { exists k :: Before(s, t, k) }

  /** What a name can look like. */
  predicate Normal(s: string) {
    && |s| <= 13
    && (forall i :: 0 <= i < |s| ==> InMap(s[i]))
    && (|s| > 0 ==> s[|s| - 1] != '.')
    && (|s| == 13 ==> InFirstHalf(s[12]))
  }

  lemma PrintIs(ds: seq<nat>)
    requires Digits(ds)
    ensures var s := Trim(Text(ds));
            && |s| <= 13 && (|s| > 0 ==> ds[|s| - 1] != 0)
            && (forall i :: 0 <= i < |s| ==> s[i] == Letter(ds[i]) && s[i] != '\0' && InMap(s[i]))
            && (forall i :: |s| <= i < 13 ==> ds[i] == 0)
  {
    hide Letter, CHARMAP;
    forall i | 0 <= i < 13 ensures Symbol(Letter(ds[i])) == ds[i] && Letter(ds[i]) != '\0' && InMap(Letter(ds[i]))
    ensures Letter(ds[i]) == '.' <==> ds[i] == 0
    {
      SymbolOfLetter(ds[i]);
    }
    var text := Text(ds);
    forall i | TrimmedLength(text) <= i < 13 ensures ds[i] == 0 {
      assert text[i] == '.';
    }
  }

  lemma SymbolsOfLetters(s: string, ds: seq<nat>)
    requires Digits(ds) && |s| <= 13
    requires forall i :: 0 <= i < |s| ==> s[i] == Letter(ds[i])
    requires forall i :: |s| <= i < 13 ==> ds[i] == 0
    ensures Symbols(s) == ds
  {
    hide Letter, Symbol;
    forall i | 0 <= i < 13 ensures SymbolAt(s, i) == ds[i] {
      if i < |s| {
        SymbolOfLetter(ds[i]);
      }
    }
  }

  lemma SymbolsOfPrint(ds: seq<nat>)
    requires Digits(ds)
    ensures Symbols(CString(Trim(Text(ds)))) == ds
  {
    hide Letter, Trim, Text, Symbols;
    var s := Trim(Text(ds));
    PrintIs(ds);
    WholeCString(s);
    SymbolsOfLetters(s, ds);
  }

  /** Every 64-bit value survives being printed and read again. */
  lemma RoundTrip(v: nat)
    requires v < LIMIT
    ensures Encode(Print(v)) == v
  {
    hide Trim, Text, Symbols, ValueOf, NameDigits;
    SymbolsOfPrint(NameDigits(v));
    ValueOfDigits(v);
  }

  lemma PrintIsNormal(v: nat)
    ensures Normal(Print(v))
  {
    hide Letter, Trim, Text, NameDigits, InMap, InFirstHalf;
    var ds := NameDigits(v);
    var s := Print(v);
    PrintIs(ds);
    if |s| > 0 {
      SymbolOfLetter(ds[|s| - 1]);
    }
    if |s| == 13 {
      FirstLetters(ds[12]);
    }
  }

  lemma FirstLetters(d: nat)
    requires d < 16
    ensures InFirstHalf(Letter(d))
  {
    assert CHARMAP[..16][d] == Letter(d);
  }

  lemma FirstSymbols(c: char)
    requires InFirstHalf(c)
    ensures Symbol(c) < 16
  {
    var d :| 0 <= d < 16 && CHARMAP[..16][d] == c;
    SymbolOfLetter(d);
  }

  lemma SymbolOfName(s: string, i: nat)
    requires Normal(s) && i < |s|
    ensures s[i] != '\0' && SymbolAt(s, i) == Symbol(s[i]) && s[i] == Letter(Symbol(s[i]))
    ensures s[i] == '.' <==> Symbol(s[i]) == 0
  {
    hide Letter, Symbol, InMap, InFirstHalf;
    if i == 12 {
      FirstSymbols(s[i]);
    }
    LetterOfSymbol(s[i]);
    SymbolOfLetter(Symbol(s[i]));
  }

  lemma SymbolsOfNormal(s: string)
    requires Normal(s)
    ensures CString(s) == s
    ensures forall i :: 0 <= i < |s| ==> s[i] == Letter(Symbols(s)[i])
    ensures |s| > 0 ==> Symbols(s)[|s| - 1] != 0
    ensures |s| <= 13 && forall i :: |s| <= i < 13 ==> Symbols(s)[i] == 0
  {
    hide Letter, Symbol, SymbolAt, Symbols, Normal, CString, InMap, InFirstHalf;
    NormalEnds(s);
    SymbolsAre(s);
    forall i | 0 <= i < |s| ensures s[i] != '\0' && s[i] == Letter(Symbols(s)[i]) {
      SymbolOfName(s, i);
    }
    WholeCString(s);
    if |s| > 0 {
      SymbolOfName(s, |s| - 1);
    }
  }

  lemma SymbolsAre(s: string)
    ensures forall i :: 0 <= i < 13 ==> Symbols(s)[i] == SymbolAt(s, i)
    ensures forall i :: |s| <= i < 13 ==> Symbols(s)[i] == 0
  {
    hide Symbol;
  }

  lemma NormalEnds(s: string)
    requires Normal(s)
    ensures |s| <= 13 && (|s| > 0 ==> s[|s| - 1] != '.')
  {
  }

  lemma SameTrim(s: string, t: string, ds: seq<nat>)
    requires Digits(ds) && |s| <= 13 && |t| <= 13
    requires forall i :: 0 <= i < |s| ==> s[i] == Letter(ds[i])
    requires forall i :: 0 <= i < |t| ==> t[i] == Letter(ds[i])
    requires forall i :: |s| <= i < 13 ==> ds[i] == 0
    requires forall i :: |t| <= i < 13 ==> ds[i] == 0
    requires (|s| > 0 ==> ds[|s| - 1] != 0) && (|t| > 0 ==> ds[|t| - 1] != 0)
    ensures s == t
  {
    hide Letter;
    assert |s| == |t|;
  }

  lemma NormalIsPrinted(s: string)
    requires Normal(s)
    ensures Print(Encode(s)) == s
  {
    hide Letter, Symbol, Symbols, Trim, Text, ValueOf, NameDigits;
    var ds := Symbols(s);
    SymbolsOfNormal(s);
    DigitsOfValue(ds);
    PrintIs(ds);
    SameTrim(s, Trim(Text(ds)), ds);
  }

  predicate Accepts(s: string) { |s| <= 13 && Print(Encode(s)) == s }

  /** The check of `set` passes exactly for what a name can look like, which is exactly what names print as. */
  lemma AcceptsExactlyNames(s: string)
    ensures Accepts(s) <==> Normal(s)
    ensures Accepts(s) <==> exists v :: 0 <= v < LIMIT && Print(v) == s
  {
    hide Print, Normal, Symbols, ValueOf;
    var v := Encode(s);
    if Normal(s) {
      NormalIsPrinted(s);
      NormalShort(s);
    }
    EncodeBounded(s);
    PrintIsNormal(v);
    if w :| 0 <= w < LIMIT && Print(w) == s {
      PrintIsNormal(w);
    }
  }

  lemma NormalShort(s: string)
    requires Normal(s)
    ensures |s| <= 13
  {
  }

  lemma EncodeBounded(s: string)
    ensures Encode(s) < LIMIT
  {
    hide Symbols, ValueOf;
    DigitsOfValue(Symbols(CString(s)));
  }

  /** The first digit that differs decides. */
  lemma {:induction false} FirstDifference(d: seq<nat>, e: seq<nat>, k: nat)
    requires Small(d) && Small(e) && |d| == |e| && k < |d| && d[..k] == e[..k] && d[k] < e[k]
    ensures Num(d) < Num(e)
  {
    var n := |d| - 1;
    if k < n {
      assert d[..n][..k] == d[..k] && e[..n][..k] == e[..k];
      FirstDifference(d[..n], e[..n], k);
    } else {
      assert d[..n] == e[..n];
    }
  }

  lemma ValueDifference(d: seq<nat>, e: seq<nat>, k: nat)
    requires Digits(d) && Digits(e) && k < 13 && d[..k] == e[..k] && d[k] < e[k]
    ensures ValueOf(d) < ValueOf(e)
  {
    hide Num;
    if k < 12 {
      assert d[..12][..k] == d[..k] && e[..12][..k] == e[..k];
      FirstDifference(d[..12], e[..12], k);
    }
  }

  lemma LexIsLess(v: nat, w: nat, k: nat)
    requires v < LIMIT && w < LIMIT && Before(Print(v), Print(w), k)
    ensures v < w
  {
    hide NameDigits, ValueOf, Trim, Text, Letter, InMap;
    var d, e := NameDigits(v), NameDigits(w);
    PrintIs(d);
    PrintIs(e);
    ValueOfDigits(v);
    ValueOfDigits(w);
    LexDigits(Print(v), Print(w), d, e, k);
  }

  lemma LexDigits(s: string, t: string, d: seq<nat>, e: seq<nat>, k: nat)
    requires Digits(d) && Digits(e) && |s| <= 13 && |t| <= 13 && Before(s, t, k)
    requires forall i :: 0 <= i < |s| ==> s[i] == Letter(d[i])
    requires forall i :: 0 <= i < |t| ==> t[i] == Letter(e[i])
    requires (forall i :: |s| <= i < 13 ==> d[i] == 0) && e[|t| - 1] != 0
    ensures ValueOf(d) < ValueOf(e)
  {
    hide ValueOf, Letter, InMap;
    forall i | 0 <= i < k ensures d[i] == e[i] {
      assert s[i] == s[..k][i] == t[..k][i] == t[i];
      SymbolOfLetter(d[i]);
      SymbolOfLetter(e[i]);
    }
    if k < |s| {
      LettersOrdered(d[k], e[k]);
      ValueDifference(d, e, k);
    } else {
      var m := FirstNonzero(e, k, |t| - 1);
      ValueDifference(d, e, m);
    }
  }

  lemma {:induction false} FirstNonzero(ds: seq<nat>, from: nat, at: nat) returns (m: nat)
    requires from <= at < |ds| && ds[at] != 0
    ensures from <= m <= at && ds[m] != 0 && forall i :: from <= i < m ==> ds[i] == 0
    decreases at - from
  {
    if ds[from] != 0 {
      m := from;
    } else {
      m := FirstNonzero(ds, from + 1, at);
    }
  }

  lemma {:induction false} LexTotal(s: string, t: string, k: nat)
    requires k <= |s| && k <= |t| && s[..k] == t[..k]
    ensures s == t || Lex(s, t) || Lex(t, s)
    decreases |s| - k
  {
    if k == |s| || k == |t| {
      assert s == t || Before(s, t, k) || Before(t, s, k);
    } else if s[k] == t[k] {
      assert s[..k + 1] == s[..k] + [s[k]] && t[..k + 1] == t[..k] + [t[k]];
      LexTotal(s, t, k + 1);
    } else {
      assert Before(s, t, k) || Before(t, s, k);
    }
  }

  /** The order of the values is the order of the printed names. */
  lemma OrderIsomorphism(v: nat, w: nat)
    requires v < LIMIT && w < LIMIT
    ensures v < w <==> Lex(Print(v), Print(w))
  {
    hide Print, Before, Encode;
    if k :| Before(Print(v), Print(w), k) {
      LexIsLess(v, w, k);
    }
    if k :| Before(Print(w), Print(v), k) {
      LexIsLess(w, v, k);
    }
    LexTotal(Print(v), Print(w), 0);
    RoundTrip(v);
    RoundTrip(w);
  }

  /** One more symbol shifted into its place. */
  lemma OneSymbol(head: nat, x: nat, i: nat)
    requires x < 32 && i < 12
    ensures Or(Shl(head, 64 - 5 * i), Shl(x, 64 - 5 * (i + 1))) == Shl(32 * head + x, 64 - 5 * (i + 1))
  {
    hide Or, Shl, Pow2;
    var at := 64 - 5 * (i + 1);
    FiveBits(head);
    ShlShl(head, 5, at);
    ShlBelow(x, 5, at);
    OrDisjoint(head, Shl(x, at), 64 - 5 * i);
    ShlAdd(32 * head, x, at);
  }

  lemma FiveBits(x: nat)
    ensures Shl(x, 5) == 32 * x && Shl(x, 4) == 16 * x && Pow2(5) == 32 && Pow2(4) == 16
  {
    assert Shl(x, 1) == 2 * Shl(x, 0);
    assert Shl(x, 2) == 2 * Shl(x, 1);
    assert Shl(x, 3) == 2 * Shl(x, 2);
    assert Shl(x, 4) == 2 * Shl(x, 3);
    assert Pow2(2) == 4;
  }

  lemma {:induction false} ZerosAfter(ds: seq<nat>, i: nat, j: nat)
    requires i <= j <= |ds| && forall k :: i <= k < j ==> ds[k] == 0
    ensures Num(ds[..j]) == Shl(Num(ds[..i]), 5 * (j - i))
  {
    if i < j {
      ZerosAfter(ds, i, j - 1);
      assert ds[..j][..j - 1] == ds[..j - 1];
      hide Num;
      FiveBits(Num(ds[..j - 1]));
      ShlShl(Num(ds[..i]), 5 * (j - 1 - i), 5);
    }
  }

  /** The name eosio as a number. */
  lemma EncodeExample()
    ensures Encode("eosio") == 0x5530_ea00_0000_0000
  {
    WholeCString("eosio");
    EosioSymbols();
    hide Symbol, CString, Symbols;
    EosioDigits();
  }

  lemma EosioSymbols()
    ensures Symbols("eosio") == [10, 20, 24, 14, 20, 0, 0, 0, 0, 0, 0, 0, 0]
  {
  }

  lemma EosioDigits()
    ensures ValueOf([10, 20, 24, 14, 20, 0, 0, 0, 0, 0, 0, 0, 0]) == 0x5530_ea00_0000_0000
  {
    var ds: seq<nat> := [10, 20, 24, 14, 20, 0, 0, 0, 0, 0, 0, 0, 0];
    assert ds[..0] == [];
    assert Num(ds[..0]) == 0;
    hide Num;
    NumNext(ds, 0);
    NumNext(ds, 1);
    NumNext(ds, 2);
    NumNext(ds, 3);
    NumNext(ds, 4);
    NumNext(ds, 5);
    NumNext(ds, 6);
    NumNext(ds, 7);
    NumNext(ds, 8);
    NumNext(ds, 9);
    NumNext(ds, 10);
    NumNext(ds, 11);
  }

  lemma NumNext(ds: seq<nat>, i: nat)
    requires i < |ds|
    ensures Num(ds[..i + 1]) == 32 * Num(ds[..i]) + ds[i]
  {
    assert ds[..i + 1][..i] == ds[..i];
  }

  method StringToUint64(s: string) returns (n: nat)
    ensures n == Encode(s)
  {
    hide Num, Shl, Or, CString, Symbol, Pow2;
    ghost var c := CString(s);
    ghost var ds := Symbols(c);
    n := 0;
    var i := 0;
    ShlZero(64);
    NumNone(ds[..0]);
    while At(s, i) != '\0' && i < 12
      invariant i <= 12 && i <= |c| && n == Shl(Num(ds[..i]), 64 - 5 * i)
      decreases 12 - i
    {
      OneSymbol(Num(ds[..i]), Symbol(s[i]), i);
      NextDigit(ds, i);
      n := Or(n, Shl(Symbol(s[i]) % 32, 64 - 5 * (i + 1)));
      i := i + 1;
    }
    AllShifted(ds, i);
    if i == 12 {
      var last := Symbol(At(s, 12)) % 16;
      OrDisjoint(Num(ds[..12]), last, 4);
      SymbolOfNul();
      n := Or(n, last);
    }
  }

  lemma AllShifted(ds: seq<nat>, i: nat)
    requires i <= 12 <= |ds| && forall k :: i <= k < 12 ==> ds[k] == 0
    ensures Shl(Num(ds[..i]), 64 - 5 * i) == Shl(Num(ds[..12]), 4) == 16 * Num(ds[..12]) && Pow2(4) == 16
  {
    hide Num, Shl;
    ZerosAfter(ds, i, 12);
    ShlShl(Num(ds[..i]), 5 * (12 - i), 4);
    FiveBits(Num(ds[..12]));
  }

  lemma SymbolOfNul()
    ensures Symbol('\0') == 0
  {
  }

  lemma NumNone(ds: seq<nat>)
    requires ds == []
    ensures Num(ds) == 0
  {
  }

  lemma NextDigit(ds: seq<nat>, i: nat)
    requires i < |ds|
    ensures Num(ds[..i + 1]) == 32 * Num(ds[..i]) + ds[i]
  {
    assert ds[..i + 1][..i] == ds[..i];
  }

  class Name {
    var value: nat

    ghost predicate Valid()
      reads this
    {
      value < LIMIT
    }

    /** Stops the program unless the string looks like a name. */
    method Set(s: string) returns (ok: bool)
      modifies this
      ensures ok <==> Normal(s)
      ensures ok ==> Valid() && Print(value) == s
    {
      hide Print, Encode, Normal;
      AcceptsExactlyNames(s);
      EncodeBounded(s);
      if |s| > 13 {
        return false;
      }
      value := StringToUint64(s);
      var printed := ToString();
      return printed == s;
    }

    method ToString() returns (s: string)
      requires Valid()
      ensures s == Print(value)
    {
      ghost var ds := NameDigits(value);
      hide Letter, Num, Pow32, ValueOf, NameDigits;
      s := seq(13, _ => '.');
      var tmp := value;
      for i := 0 to 13
        invariant |s| == 13
        invariant forall k :: 13 - i <= k < 13 ==> s[k] == Letter(ds[k])
        invariant i == 0 ==> tmp == value
        invariant i > 0 ==> DigitsOf(tmp, 13 - i) == ds[..13 - i]
      {
        NextLetter(value, tmp, i);
        var d := if i == 0 then tmp % 16 else tmp % 32;
        s := s[12 - i := Letter(d)];
        tmp := if i == 0 then tmp / 16 else tmp / 32;
      }
      assert s == Text(ds);
      while s != "" && s[|s| - 1] == '.'
        invariant Trim(s) == Trim(Text(ds))
        decreases |s|
      {
        assert TrimmedLength(s) == TrimmedLength(s[..|s| - 1]);
        s := s[..|s| - 1];
      }
    }
  }

  lemma NextLetter(v: nat, tmp: nat, i: nat)
    requires i < 13 && (if i == 0 then tmp == v else DigitsOf(tmp, 13 - i) == NameDigits(v)[..13 - i])
    ensures var ds := NameDigits(v);
            if i == 0 then ds[12] == tmp % 16 && ds[..12] == DigitsOf(tmp / 16, 12)
            else ds[12 - i] == tmp % 32 && ds[..12 - i] == DigitsOf(tmp / 32, 12 - i)
  {
    var ds := NameDigits(v);
    if i > 0 {
      assert ds[..13 - i][..12 - i] == ds[..12 - i];
    }
  }
}
