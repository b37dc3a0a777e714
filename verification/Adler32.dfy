/** The Adler-32 checksum of miniz: the remainders are taken once for each block of 5552 bytes.

The definition in section 2.2 of RFC 1950 takes them after every byte.  All sums of the program are taken modulo
2^32, as its 32-bit variables do.
 */
module Adler32 {

  const BASE: nat := 65521
  const WORD: nat := 0x1_0000_0000
  const HALF: nat := 0x1_0000
  const BLOCK: nat := 5552
  const INIT: nat := 1

  type Byte = b: nat | b < 256

  datatype Sums = Sums(s1: nat, s2: nat)

  function Unpack(adler: nat): Sums { Sums(adler % HALF, adler / HALF) }

  function Pack(s: Sums): nat { s.s2 * HALF + s.s1 }

  /** The checksum as RFC 1950 defines it, one byte at a time. */
  function PerByte(s: Sums, data: seq<Byte>): Sums {
    if data == [] then s
    else
      var before := PerByte(s, data[..|data| - 1]);
      var s1 := (before.s1 + data[|data| - 1]) % BASE;
      Sums(s1, (before.s2 + s1) % BASE)
  }

  function Checksum(adler: nat, data: seq<Byte>): nat {
    Pack(PerByte(Unpack(adler), data))
  }

  /** The sums without any remainder. */
  function Raw(s: Sums, data: seq<Byte>): Sums {
    if data == [] then s
    else
      var before := Raw(s, data[..|data| - 1]);
      var s1 := before.s1 + data[|data| - 1];
      Sums(s1, before.s2 + s1)
  }

  /** Bounds that the sums over `n` bytes cannot exceed. */
  function Limit(n: nat): (nat, nat) {
    if n == 0 then (65535, 65535) else var (a, b) := Limit(n - 1); (a + 255, b + a + 255)
  }

  lemma {:induction false} LimitIs(n: nat)
    ensures Limit(n).0 == 65535 + 255 * n
    ensures 2 * Limit(n).1 == 2 * 65535 + 2 * 65535 * n + 255 * (n * (n + 1))
  {
    if n > 0 {
      LimitIs(n - 1);
      assert n * (n + 1) == (n - 1) * n + 2 * n;
    }
  }

  lemma {:induction false} LimitMonotone(m: nat, n: nat)
    requires m <= n
    ensures Limit(m).0 <= Limit(n).0 && Limit(m).1 <= Limit(n).1
  {
    if m < n {
      LimitMonotone(m, n - 1);
    }
  }

  lemma {:induction false} RawBounded(s: Sums, data: seq<Byte>)
    requires s.s1 < HALF && s.s2 < HALF
    ensures Raw(s, data).s1 <= Limit(|data|).0 && Raw(s, data).s2 <= Limit(|data|).1
  {
    if data != [] {
      RawBounded(s, data[..|data| - 1]);
    }
  }

  /** Within a block no 32-bit sum overflows, even from a start that is not reduced. */
  lemma NoOverflow(s: Sums, data: seq<Byte>)
    requires s.s1 < HALF && s.s2 < HALF && |data| <= BLOCK
    ensures Raw(s, data).s1 < WORD && Raw(s, data).s2 < WORD
  {
    RawBounded(s, data);
    LimitMonotone(|data|, BLOCK);
    LimitIs(BLOCK);
  }

  /** One more byte would make a block too long: from the largest start, 5553 bytes of 255 overflow. */
  lemma BlockIsLongest(s: Sums, data: seq<Byte>)
    requires s == Sums(BASE - 1, BASE - 1) && |data| == BLOCK + 1 && forall i | 0 <= i < |data| :: data[i] == 255
    ensures Raw(s, data).s2 >= WORD
  {
    AllHigh(s, data);
  }

  lemma {:induction false} AllHigh(s: Sums, data: seq<Byte>)
    requires forall i | 0 <= i < |data| :: data[i] == 255
    ensures var n := |data|;
            && Raw(s, data).s1 == s.s1 + 255 * n
            && 2 * Raw(s, data).s2 == 2 * s.s2 + 2 * (s.s1 * n) + 255 * (n * (n + 1))
  {
    var n := |data|;
    if n > 0 {
      AllHigh(s, data[..n - 1]);
      OneHigher(s.s1, n - 1);
    }
  }

  lemma OneHigher(x: nat, n: nat)
    ensures (n + 1) * (n + 2) == n * (n + 1) + 2 * (n + 1) && x * (n + 1) == x * n + x
  {
  }

  lemma ModAdd(a: nat, b: nat)
    ensures (a % BASE + b) % BASE == (a + b) % BASE
  {
  }

  /** Delaying the remainders does not change them. */
  lemma {:induction false} DelayedRemainder(s: Sums, data: seq<Byte>)
    requires data != []
    ensures var raw := Raw(s, data); PerByte(s, data) == Sums(raw.s1 % BASE, raw.s2 % BASE)
  {
    var n := |data|;
    var front, b := data[..n - 1], data[n - 1];
    if front != [] {
      DelayedRemainder(s, front);
    }
    RemainderStep(Raw(s, front), b);
  }

  /** One more byte on reduced sums, and on sums that are not. */
  lemma RemainderStep(raw: Sums, b: nat)
    ensures var s1 := (raw.s1 + b) % BASE;
            && (raw.s1 % BASE + b) % BASE == s1
            && (raw.s2 % BASE + s1) % BASE == (raw.s2 + s1) % BASE == (raw.s2 + raw.s1 + b) % BASE
  {
    ModAdd(raw.s1, b);
    ModAdd(raw.s2, (raw.s1 + b) % BASE);
    ModAdd(raw.s1 + b, raw.s2);
  }

  lemma {:induction false} PerByteConcat(s: Sums, a: seq<Byte>, b: seq<Byte>)
    ensures PerByte(s, a + b) == PerByte(PerByte(s, a), b)
  {
    if b == [] {
      assert a + b == a;
    } else {
      PerByteConcat(s, a, b[..|b| - 1]);
      assert (a + b)[..|a + b| - 1] == a + b[..|b| - 1];
    }
  }

  lemma PerByteSmall(s: Sums, data: seq<Byte>)
    requires s.s1 < HALF && s.s2 < HALF
    ensures PerByte(s, data).s1 < HALF && PerByte(s, data).s2 < HALF
  {
  }

  lemma UnpackPack(s: Sums)
    requires s.s1 < HALF
    ensures Unpack(Pack(s)) == s
  {
  }

  /** Checksumming in pieces is checksumming the whole. */
  lemma ChecksumConcat(adler: nat, a: seq<Byte>, b: seq<Byte>)
    requires adler < WORD
    ensures Checksum(Checksum(adler, a), b) == Checksum(adler, a + b)
  {
    PerByteSmall(Unpack(adler), a);
    UnpackPack(PerByte(Unpack(adler), a));
    PerByteConcat(Unpack(adler), a, b);
  }

  /** The checksum of 23 bytes of 255, whose second sum is reduced once: no other modulus above the first sum gives
      it. */
  lemma CheckHighBytes(data: seq<Byte>)
    requires |data| == 23 && forall i | 0 <= i < |data| :: data[i] == 255
    ensures Checksum(1, data) == 0x1312_16ea
  {
    hide Raw, PerByte;
    AllHigh(Sums(1, 0), data);
    DelayedRemainder(Sums(1, 0), data);
    assert Unpack(1) == Sums(1, 0);
  }

  datatype Buffer = Null | Data(bytes: seq<Byte>)

  /** Adds one byte to the 32-bit sums. */
  method AddByte(s1: nat, s2: nat, b: Byte) returns (t1: nat, t2: nat)
    ensures t1 == (s1 + b) % WORD && t2 == (s2 + t1) % WORD
  {
    t1 := (s1 + b) % WORD;
    t2 := (s2 + t1) % WORD;
  }

  lemma RawNone(s: Sums, data: seq<Byte>)
    requires data == []
    ensures Raw(s, data) == s
  {
  }

  /** What 32-bit variables hold of the sums. */
  function Wrapped(s: Sums): Sums { Sums(s.s1 % WORD, s.s2 % WORD) }

  /** The next eight bytes of a block. */
  method AddEight(ghost s: Sums, data: seq<Byte>, i: nat, s1: nat, s2: nat) returns (t1: nat, t2: nat)
    requires i + 8 <= |data| && Sums(s1, s2) == Wrapped(Raw(s, data[..i]))
    ensures Sums(t1, t2) == Wrapped(Raw(s, data[..i + 8]))
  {
    hide Raw, Wrapped;
    t1, t2 := s1, s2;
    for k := 0 to 8
      invariant Sums(t1, t2) == Wrapped(Raw(s, data[..i + k]))
    {
      OneMore(s, data, i + k);
      t1, t2 := AddByte(t1, t2, data[i + k]);
    }
  }

  /** The sums over one block, eight bytes at a time as long as there are eight, then byte by byte. */
  method AddBlock(s1: nat, s2: nat, data: seq<Byte>) returns (t1: nat, t2: nat)
    requires s1 < WORD && s2 < WORD
    ensures Sums(t1, t2) == Wrapped(Raw(Sums(s1, s2), data))
  {
    hide Raw, Wrapped;
    ghost var s := Sums(s1, s2);
    NothingWrapped(s);
    t1, t2 := s1, s2;
    var i := 0;
    RawNone(s, data[..0]);
    while i + 7 < |data|
      invariant 0 <= i <= |data| && Sums(t1, t2) == Wrapped(Raw(s, data[..i]))
    {
      t1, t2 := AddEight(s, data, i, t1, t2);
      i := i + 8;
    }
    while i < |data|
      invariant 0 <= i <= |data| && Sums(t1, t2) == Wrapped(Raw(s, data[..i]))
    {
      OneMore(s, data, i);
      t1, t2 := AddByte(t1, t2, data[i]);
      i := i + 1;
    }
    assert data[..i] == data;
  }

  lemma WrapAdd(a: nat, b: nat)
    ensures (a % WORD + b) % WORD == (a + b) % WORD
  {
  }

  lemma OneMore(s: Sums, data: seq<Byte>, i: nat)
    requires i < |data|
    ensures var now, next := Wrapped(Raw(s, data[..i])), Wrapped(Raw(s, data[..i + 1]));
            next.s1 == (now.s1 + data[i]) % WORD && next.s2 == (now.s2 + next.s1) % WORD
  {
    assert data[..i + 1][..i] == data[..i];
    var raw := Raw(s, data[..i]);
    assert Raw(s, data[..i + 1]) == Sums(raw.s1 + data[i], raw.s2 + (raw.s1 + data[i]));
    hide Raw;
    WrapAdd(raw.s1, data[i]);
    WrapAdd(raw.s2, (raw.s1 + data[i]) % WORD);
    WrapAdd(raw.s1 + data[i], raw.s2);
  }

  /** The first block takes what is left over after cutting the data into blocks of 5552 bytes.  The result is the
      checksum for every start that is one, that is, below 2^32. */
  method MzAdler32(adler: nat, buffer: Buffer) returns (result: nat)
    ensures buffer.Null? ==> result == 1
    ensures buffer.Data? && adler < 0x1_0000_0000 ==> result == Checksum(adler, buffer.bytes)
    ensures result < 0x1_0000_0000
  {
    hide PerByte, Raw, Reduced;
    var s1: nat, s2: nat := adler % HALF, (adler / HALF) % WORD;
    if buffer.Null? { return INIT; }
    var data := buffer.bytes;
    var done, left := 0, |data|;
    var blockLength := left % BLOCK;
    ghost var blocks := left / BLOCK;
    ghost var goal := PerByte(Unpack(adler), data);
    assert data[0..] == data;
    assert adler < WORD ==> adler / HALF < HALF;
    Blocks(left);
    while left > 0
      invariant 0 <= done && 0 <= left && done + left == |data| && s1 < WORD && s2 < WORD
      invariant left > 0 ==> 0 <= blockLength <= BLOCK && left == blockLength + BLOCK * blocks
      invariant adler < WORD ==> s1 < HALF && s2 < HALF && PerByte(Sums(s1, s2), data[done..]) == goal
      decreases left, if blockLength == 0 then 1 else 0
    {
      NextBlock(Sums(s1, s2), data, done, blockLength);
      s1, s2 := ReducedBlock(s1, s2, data[done..done + blockLength]);
      left, done := left - blockLength, done + blockLength;
      blockLength, blocks := BLOCK, if blocks > 0 then blocks - 1 else 0;
    }
    PerByteNone(Sums(s1, s2), data[done..]);
    if adler < WORD {
      Packed(adler, data, s1, s2);
    }
    result := (s2 * HALF + s1) % WORD;
  }

  lemma Blocks(n: nat)
    ensures n == n % BLOCK + BLOCK * (n / BLOCK) && n % BLOCK <= BLOCK
  {
  }

  lemma Packed(adler: nat, data: seq<Byte>, s1: nat, s2: nat)
    requires adler < WORD && s1 < HALF && s2 < HALF && Sums(s1, s2) == PerByte(Unpack(adler), data)
    ensures s2 * HALF + s1 == Checksum(adler, data) < WORD
  {
    hide PerByte;
  }

  lemma NextBlock(s: Sums, data: seq<Byte>, done: nat, length: nat)
    requires done + length <= |data| && done < |data|
    ensures PerByte(Reduced(Raw(s, data[done..done + length])), data[done + length..]) == PerByte(s, data[done..])
  {
    hide PerByte, Raw, Reduced;
    var block, rest := data[done..done + length], data[done + length..];
    BlockDone(s, block, rest);
    assert data[done..] == block + rest;
  }

  /** The sums over one block, reduced once at its end. */
  method ReducedBlock(s1: nat, s2: nat, data: seq<Byte>) returns (t1: nat, t2: nat)
    requires s1 < WORD && s2 < WORD && |data| <= BLOCK
    ensures s1 < HALF && s2 < HALF ==> Sums(t1, t2) == Reduced(Raw(Sums(s1, s2), data))
    ensures t1 < BASE && t2 < BASE
  {
    hide Raw, Wrapped;
    t1, t2 := AddBlock(s1, s2, data);
    if s1 < HALF && s2 < HALF {
      NoOverflow(Sums(s1, s2), data);
      NothingWrapped(Raw(Sums(s1, s2), data));
    }
    t1, t2 := t1 % BASE, t2 % BASE;
  }

  lemma NothingWrapped(s: Sums)
    requires s.s1 < WORD && s.s2 < WORD
    ensures Wrapped(s) == s
  {
  }

  function Reduced(s: Sums): Sums { Sums(s.s1 % BASE, s.s2 % BASE) }

  lemma PerByteNone(s: Sums, data: seq<Byte>)
    requires data == []
    ensures PerByte(s, data) == s
  {
  }

  /** Reducing the sums after a block leads to the same checksum of all that follows. */
  lemma BlockDone(s: Sums, block: seq<Byte>, rest: seq<Byte>)
    requires block != [] || rest != []
    ensures PerByte(Reduced(Raw(s, block)), rest) == PerByte(s, block + rest)
  {
    if block != [] {
      DelayedRemainder(s, block);
      PerByteConcat(s, block, rest);
    } else {
      ReducedStart(s, rest);
      assert block + rest == rest;
    }
  }

  /** It does not matter whether the start of a checksum over some bytes is reduced. */
  lemma {:induction false} ReducedStart(s: Sums, data: seq<Byte>)
    requires data != []
    ensures PerByte(Sums(s.s1 % BASE, s.s2 % BASE), data) == PerByte(s, data)
  {
    var n := |data|;
    if n > 1 {
      ReducedStart(s, data[..n - 1]);
    } else {
      var b := data[0];
      assert data[..0] == [];
      ModAdd(s.s1, b);
      ModAdd(s.s2, (s.s1 + b) % BASE);
    }
  }
}
