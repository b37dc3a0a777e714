/** The CRC-32C of the repository: eight tables, eight bytes at a time.

The reference is the shift register itself, one bit at a time (appendix B of RFC 4960, reflected).  Words are loaded
in little-endian order.
 */
module Crc32c {

  const POLY: bv32 := 0x82f63b78

  function Xor(x: bv32, y: bv32): bv32 { x ^ y }

  function Half(x: bv32): bv32 { x >> 1 }

  predicate Odd(x: bv32) { x & 1 == 1 }

  function Feedback(x: bv32): bv32 { POLY & (0 - (x & 1)) }

  /** One bit of the shift register. */
  function Step(x: bv32): bv32 { Xor(Half(x), Feedback(x)) }

  /** One byte: eight bits. */
  function Byte(x: bv32): bv32 {
    Step(Step(Step(Step(Step(Step(Step(Step(x))))))))
  }

  /** `n` bytes of zeros. */
  function Bytes(x: bv32, n: nat): bv32 {
    if n == 0 then x else Byte(Bytes(x, n - 1))
  }

  function Wide(b: bv8): bv32 { b as bv32 }

  /** The checksum as it is defined: a byte is added to the register, which then takes eight steps. */
  function Crc(crc: bv32, data: seq<bv8>): bv32 {
    if data == [] then crc else Byte(Xor(Crc(crc, data[..|data| - 1]), Wide(data[|data| - 1])))
  }

  lemma StepCases(x: bv32)
    ensures Step(x) == if Odd(x) then Xor(Half(x), POLY) else Half(x)
  {
    hide Half, Odd, Feedback, Xor;
    FeedbackIs(x);
    XorZero(Half(x));
  }

  lemma FeedbackIs(x: bv32)
    ensures Feedback(x) == if Odd(x) then POLY else 0
  {
    OneBit(x);
  }

  lemma OneBit(x: bv32)
    ensures x & 1 == 0 || x & 1 == 1
  {
  }

  lemma XorZero(x: bv32)
    ensures Xor(x, 0) == x
  {
  }

  lemma HalfXor(x: bv32, y: bv32)
    ensures Half(Xor(x, y)) == Xor(Half(x), Half(y)) && (Odd(Xor(x, y)) <==> Odd(x) != Odd(y))
  {
  }

  lemma XorAssoc(x: bv32, y: bv32, z: bv32)
    ensures Xor(Xor(x, y), z) == Xor(x, Xor(y, z))
  {
  }

  lemma XorTwice(x: bv32, y: bv32)
    ensures Xor(x, y) == Xor(y, x) && Xor(Xor(x, y), y) == x
  {
  }

  lemma XorPoly(x: bv32, y: bv32, p: bv32)
    ensures Xor(Xor(x, p), y) == Xor(Xor(x, y), p)
    ensures Xor(x, Xor(y, p)) == Xor(Xor(x, y), p)
    ensures Xor(Xor(x, p), Xor(y, p)) == Xor(x, y)
  {
    hide Xor;
    XorAssoc(x, y, p);
    XorAssoc(x, p, y);
    XorTwice(y, p);
    XorAssoc(Xor(x, p), y, p);
    XorTwice(Xor(x, y), p);
  }

  lemma StepXor(x: bv32, y: bv32)
    ensures Step(Xor(x, y)) == Xor(Step(x), Step(y))
  {
    hide *;
    StepCases(x);
    StepCases(y);
    StepCases(Xor(x, y));
    HalfXor(x, y);
    XorPoly(Half(x), Half(y), POLY);
  }

  lemma ByteXor(x: bv32, y: bv32)
    ensures Byte(Xor(x, y)) == Xor(Byte(x), Byte(y))
  {
    hide Step, Xor;
    var x1, y1 := Step(x), Step(y);
    var x2, y2 := Step(x1), Step(y1);
    var x3, y3 := Step(x2), Step(y2);
    var x4, y4 := Step(x3), Step(y3);
    var x5, y5 := Step(x4), Step(y4);
    var x6, y6 := Step(x5), Step(y5);
    var x7, y7 := Step(x6), Step(y6);
    StepXor(x, y);
    StepXor(x1, y1);
    StepXor(x2, y2);
    StepXor(x3, y3);
    StepXor(x4, y4);
    StepXor(x5, y5);
    StepXor(x6, y6);
    StepXor(x7, y7);
  }

  lemma {:induction false} BytesXor(x: bv32, y: bv32, n: nat)
    ensures Bytes(Xor(x, y), n) == Xor(Bytes(x, n), Bytes(y, n))
  {
    hide Byte, Xor;
    if n > 0 {
      BytesXor(x, y, n - 1);
      ByteXor(Bytes(x, n - 1), Bytes(y, n - 1));
    }
  }

  lemma {:induction false} BytesBytes(x: bv32, m: nat, n: nat)
    ensures Bytes(Bytes(x, m), n) == Bytes(x, m + n)
  {
    hide Byte;
    if n > 0 {
      BytesBytes(x, m, n - 1);
    }
  }

  predicate LowByteClear(x: bv32) { x & 0xFF == 0 }

  function ByteDown(x: bv32): bv32 { x >> 8 }

  function Halves(x: bv32, n: nat): bv32 {
    if n == 0 then x else Half(Halves(x, n - 1))
  }

  lemma LowBitsClear(x: bv32)
    requires LowByteClear(x)
    ensures !Odd(x) && !Odd(x >> 1) && !Odd(x >> 2) && !Odd(x >> 3)
    ensures !Odd(x >> 4) && !Odd(x >> 5) && !Odd(x >> 6) && !Odd(x >> 7)
  {
  }

  lemma HalvesAre(x: bv32)
    ensures Half(x) == x >> 1 && Half(x >> 1) == x >> 2 && Half(x >> 2) == x >> 3 && Half(x >> 3) == x >> 4
    ensures Half(x >> 4) == x >> 5 && Half(x >> 5) == x >> 6 && Half(x >> 6) == x >> 7
    ensures Half(x >> 7) == ByteDown(x)
  {
  }

  /** Eight zero bits at the bottom fall out unnoticed. */
  lemma ByteOfShifted(x: bv32)
    requires LowByteClear(x)
    ensures Byte(x) == ByteDown(x)
  {
    hide Step, Half, Odd, ByteDown, LowByteClear;
    var x1, x2, x3, x4, x5, x6, x7 := x >> 1, x >> 2, x >> 3, x >> 4, x >> 5, x >> 6, x >> 7;
    LowBitsClear(x);
    HalvesAre(x);
    StepCases(x);
    StepCases(x1);
    StepCases(x2);
    StepCases(x3);
    StepCases(x4);
    StepCases(x5);
    StepCases(x6);
    StepCases(x7);
  }

  function At8(x: bv32): bv32 { x << 8 }
  function At16(x: bv32): bv32 { x << 16 }
  function At24(x: bv32): bv32 { x << 24 }

  lemma Shifted(b: bv8)
    ensures Byte(At8(Wide(b))) == Wide(b)
    ensures Byte(At16(Wide(b))) == At8(Wide(b))
    ensures Byte(At24(Wide(b))) == At16(Wide(b))
  {
    ByteOfShifted(At8(Wide(b)));
    ByteOfShifted(At16(Wide(b)));
    ByteOfShifted(At24(Wide(b)));
    hide Byte;
  }

  function Low(x: bv32): bv8 { (x & 0xFF) as bv8 }

  function High(x: bv32): bv32 { x & 0xFFFFFF00 }

  /** A byte as a signed `char`, widened to 32 bits. */
  function Signed(b: bv8): bv32 { if b & 0x80 == 0 then Wide(b) else 0xFFFFFF00 | Wide(b) }

  lemma SplitLow(x: bv32)
    ensures Xor(Wide(Low(x)), High(x)) == x && LowByteClear(High(x)) && ByteDown(High(x)) == ByteDown(x)
  {
  }

  lemma SignIsMasked(crc: bv32, b: bv8)
    ensures Low(Xor(crc, Signed(b))) == Low(Xor(crc, Wide(b)))
    ensures ByteDown(Xor(crc, Wide(b))) == ByteDown(crc)
  {
  }

  /** A register moves on by one byte with one look into the first table. */
  lemma ByTable(x: bv32)
    ensures Byte(x) == Xor(Byte(Wide(Low(x))), ByteDown(x))
  {
    hide *;
    SplitLow(x);
    ByteXor(Wide(Low(x)), High(x));
    ByteOfShifted(High(x));
  }

  lemma AddByTable(crc: bv32, b: bv8)
    ensures Byte(Xor(crc, Wide(b))) == Xor(Byte(Wide(Low(Xor(crc, Signed(b))))), ByteDown(crc))
  {
    hide *;
    SignIsMasked(crc, b);
    ByTable(Xor(crc, Wide(b)));
  }

  /** Four bytes loaded as one little-endian word. */
  function Load(b0: bv8, b1: bv8, b2: bv8, b3: bv8): bv32 {
    Xor(Xor(Xor(Wide(b0), At8(Wide(b1))), At16(Wide(b2))), At24(Wide(b3)))
  }

  lemma LoadIs(b0: bv8, b1: bv8, b2: bv8, b3: bv8)
    ensures Load(b0, b1, b2, b3) == Xor(Xor(Xor(Wide(b0), At8(Wide(b1))), At16(Wide(b2))), At24(Wide(b3)))
  {
  }

  lemma OneByte(x: bv32)
    ensures Bytes(x, 1) == Byte(x)
  {
    hide Byte;
    assert Bytes(x, 0) == x;
  }

  lemma ShiftedBytes(b: bv8)
    ensures Bytes(At8(Wide(b)), 1) == Wide(b)
    ensures Bytes(At16(Wide(b)), 2) == Wide(b)
    ensures Bytes(At24(Wide(b)), 3) == Wide(b)
  {
    hide *;
    var x := Wide(b);
    Shifted(b);
    OneByte(At8(x));
    OneByte(At16(x));
    OneByte(At24(x));
    BytesBytes(At16(x), 1, 1);
    BytesBytes(At24(x), 1, 2);
  }

  /** One byte more: what is added later can as well be added to the register at the start, shifted. */
  lemma AddLater(x: bv32, late: bv32, b: bv32, n: nat)
    requires Bytes(late, n) == b
    ensures Byte(Xor(Bytes(x, n), b)) == Bytes(Xor(x, late), n + 1)
  {
    hide Byte, Xor;
    BytesXor(x, late, n);
  }

  /** Four bytes are one word added to the register, and four bytes of zeros. */
  lemma FourBytes(crc: bv32, b0: bv8, b1: bv8, b2: bv8, b3: bv8)
    ensures Byte(Xor(Byte(Xor(Byte(Xor(Byte(Xor(crc, Wide(b0))), Wide(b1))), Wide(b2))), Wide(b3)))
         == Bytes(Xor(crc, Load(b0, b1, b2, b3)), 4)
  {
    hide *;
    var x0 := Xor(crc, Wide(b0));
    OneByte(x0);
    ShiftedBytes(b1);
    ShiftedBytes(b2);
    ShiftedBytes(b3);
    AddLater(x0, At8(Wide(b1)), Wide(b1), 1);
    var x1 := Xor(x0, At8(Wide(b1)));
    AddLater(x1, At16(Wide(b2)), Wide(b2), 2);
    var x2 := Xor(x1, At16(Wide(b2)));
    AddLater(x2, At24(Wide(b3)), Wide(b3), 3);
    LoadIs(b0, b1, b2, b3);
    XorAssoc(crc, Wide(b0), At8(Wide(b1)));
    XorAssoc(crc, Xor(Wide(b0), At8(Wide(b1))), At16(Wide(b2)));
    XorAssoc(crc, Xor(Xor(Wide(b0), At8(Wide(b1))), At16(Wide(b2))), At24(Wide(b3)));
  }

  function Down16(x: bv32): bv32 { x >> 16 }

  function Part(x: bv32, k: nat): bv8
    requires k < 4
  {
    if k == 0 then Low(x)
    else if k == 1 then Low(ByteDown(x))
    else if k == 2 then Low(Down16(x))
    else Low(ByteDown(Down16(x)))
  }

  lemma PartsAre(x: bv32)
    ensures Part(x, 0) == Low(x) && Part(x, 1) == Low(ByteDown(x))
    ensures Part(x, 2) == Low(Down16(x)) && Part(x, 3) == Low(ByteDown(Down16(x)))
  {
    hide Low, ByteDown, Down16;
  }

  /** A word has the loaded bytes as its parts, and it is the only one. */
  lemma LoadedParts(b0: bv8, b1: bv8, b2: bv8, b3: bv8)
    ensures var x := Load(b0, b1, b2, b3); Part(x, 0) == b0 && Part(x, 1) == b1 && Part(x, 2) == b2 && Part(x, 3) == b3
  {
  }

  lemma PartsOf(x: bv32)
    ensures x == Load(Part(x, 0), Part(x, 1), Part(x, 2), Part(x, 3))
  {
  }

  /** The four look-ups of one word, in tables that are `n` bytes apart from the first ones. */
  lemma Slices(x: bv32, n: nat)
    ensures Bytes(x, n + 4)
         == Xor(Xor(Xor(Bytes(Wide(Part(x, 0)), n + 4), Bytes(Wide(Part(x, 1)), n + 3)),
                    Bytes(Wide(Part(x, 2)), n + 2)),
                Bytes(Wide(Part(x, 3)), n + 1))
  {
    hide *;
    var b0, b1, b2, b3 := Part(x, 0), Part(x, 1), Part(x, 2), Part(x, 3);
    PartsOf(x);
    LoadIs(b0, b1, b2, b3);
    ShiftedBytes(b1);
    ShiftedBytes(b2);
    ShiftedBytes(b3);
    var x1 := Xor(Wide(b0), At8(Wide(b1)));
    var x2 := Xor(x1, At16(Wide(b2)));
    BytesXor(x2, At24(Wide(b3)), n + 4);
    BytesXor(x1, At16(Wide(b2)), n + 4);
    BytesXor(Wide(b0), At8(Wide(b1)), n + 4);
    BytesBytes(At8(Wide(b1)), 1, n + 3);
    BytesBytes(At16(Wide(b2)), 2, n + 2);
    BytesBytes(At24(Wide(b3)), 3, n + 1);
  }

  /** Eight bytes at once. */
  lemma EightBytes(crc: bv32, data: seq<bv8>)
    requires |data| == 8
    ensures Crc(crc, data)
         == Xor(Bytes(Xor(crc, Load(data[0], data[1], data[2], data[3])), 8),
                Bytes(Load(data[4], data[5], data[6], data[7]), 4))
  {
    var c4 := Crc(crc, data[..4]);
    var w0, w1 := Load(data[0], data[1], data[2], data[3]), Load(data[4], data[5], data[6], data[7]);
    CrcFour(crc, data[..4]);
    CrcConcat(crc, data[..4], data[4..]);
    CrcFour(c4, data[4..]);
    assert data[..4] + data[4..] == data;
    hide *;
    BytesXor(Bytes(Xor(crc, w0), 4), w1, 4);
    BytesBytes(Xor(crc, w0), 4, 4);
  }

  lemma CrcFour(crc: bv32, data: seq<bv8>)
    requires |data| == 4
    ensures Crc(crc, data) == Bytes(Xor(crc, Load(data[0], data[1], data[2], data[3])), 4)
  {
    hide Byte, Xor, Load, Bytes, Wide;
    assert data[..3][..2] == data[..2] && data[..2][..1] == data[..1] && data[..1][..0] == [];
    assert Crc(crc, []) == crc;
    assert Crc(crc, data[..1]) == Byte(Xor(Crc(crc, data[..1][..0]), Wide(data[0])));
    assert Crc(crc, data[..2]) == Byte(Xor(Crc(crc, data[..1]), Wide(data[1])));
    assert Crc(crc, data[..3]) == Byte(Xor(Crc(crc, data[..2]), Wide(data[2])));
    FourBytes(crc, data[0], data[1], data[2], data[3]);
  }

  /** A checksum in pieces is the checksum of the whole. */
  lemma {:induction false} CrcConcat(crc: bv32, a: seq<bv8>, b: seq<bv8>)
    ensures Crc(crc, a + b) == Crc(Crc(crc, a), b)
  {
    hide Byte, Xor, Wide;
    if b == [] {
      assert a + b == a;
    } else {
      CrcConcat(crc, a, b[..|b| - 1]);
      assert (a + b)[..|a + b| - 1] == a + b[..|b| - 1];
    }
  }

  function Index(b: bv8): (i: nat)
    ensures i < 256
  {
    b as int
  }

  /** The entry of table `j` follows from the same entry of the table before it. */
  predicate Next(first: seq<bv32>, before: bv32, entry: bv32)
    requires |first| == 256
  {
    entry == Xor(first[Index(Low(before))], ByteDown(before))
  }

  /** The tables as the comment above them generates them. */
  ghost predicate Generated(tables: seq<seq<bv32>>) {
    && |tables| == 8 && (forall j :: 0 <= j < 8 ==> |tables[j]| == 256)
    && FirstTable(tables[0])
    && (forall j: nat, b: bv8 :: 1 <= j < 8 ==> Next(tables[0], tables[j - 1][Index(b)], tables[j][Index(b)]))
  }

  ghost predicate FirstTable(table: seq<bv32>)
    requires |table| == 256
  {
    forall b: bv8 :: table[Index(b)] == Byte(Wide(b))
  }

  lemma {:induction false} TableEntry(tables: seq<seq<bv32>>, j: nat, b: bv8)
    requires Generated(tables) && j < 8
    ensures tables[j][Index(b)] == Bytes(Wide(b), j + 1)
  {
    hide Byte, Xor, ByteDown, Low, Wide, Index;
    if j == 0 {
      OneByte(Wide(b));
    } else {
      TableEntry(tables, j - 1, b);
      var before := tables[j - 1][Index(b)];
      assert Next(tables[0], before, tables[j][Index(b)]);
      ByTable(before);
    }
  }

  function Steps(x: bv32, n: nat): bv32 {
    if n == 0 then x else Step(Steps(x, n - 1))
  }

  lemma EightSteps(x: bv32)
    ensures Steps(x, 8) == Byte(x)
  {
    hide Step;
    assert Steps(x, 1) == Step(Steps(x, 0));
    assert Steps(x, 3) == Step(Step(Steps(x, 1)));
    assert Steps(x, 5) == Step(Step(Steps(x, 3)));
    assert Steps(x, 7) == Step(Step(Steps(x, 5)));
  }

  /** The table index that a 32-bit loop counter below 256 stands for. */
  function Counter(i: bv32): bv8
    requires i <= 0xFF
  {
    i as bv8
  }

  predicate Before(b: bv8, i: bv32) { Wide(b) < i }

  lemma CountUp(i: bv32)
    requires i <= 0xFF
    ensures Wide(Counter(i)) == i
    ensures forall b :: Before(b, i + 1) <==> Before(b, i) || b == Counter(i)
  {
  }

  lemma CountEnds()
    ensures forall b :: !Before(b, 0) && Before(b, 0x100)
  {
  }

  lemma IndexInjective(a: bv8, b: bv8)
    requires Index(a) == Index(b)
    ensures a == b
  {
  }

  function Row(t: array2<bv32>, j: nat): (r: seq<bv32>)
    requires j < t.Length0
    reads t
  {
    seq(t.Length1, i requires 0 <= i < t.Length1 reads t => t[j, i])
  }

  function Rows(t: array2<bv32>): (r: seq<seq<bv32>>)
    reads t
  {
    seq(t.Length0, j requires 0 <= j < t.Length0 reads t => Row(t, j))
  }

  /** One entry of the first table. */
  method EightBits(i: bv32) returns (x: bv32)
    ensures x == Byte(i)
  {
    x := i;
    for j := 0 to 8
      invariant x == Steps(i, j)
    {
      x := (x >> 1) ^ (POLY & (0 - (x & 1)));
    }
    EightSteps(i);
  }

  method FirstRow(t: array2<bv32>)
    requires t.Length0 == 8 && t.Length1 == 256
    modifies t
    ensures forall b: bv8 :: t[0, Index(b)] == Byte(Wide(b))
  {
    hide Byte, Wide, Index, Before, Counter;
    CountEnds();
    var i: bv32 := 0;
    while i <= 0xFF
      invariant i <= 0x100
      invariant forall b: bv8 :: Before(b, i) ==> t[0, Index(b)] == Byte(Wide(b))
      decreases 0x100 - i
    {
      var x := EightBits(i);
      CountUp(i);
      forall b | Index(b) == Index(Counter(i)) ensures b == Counter(i) {
        IndexInjective(b, Counter(i));
      }
      t[0, Index(Counter(i))] := x;
      i := i + 1;
    }
    assert i == 0x100;
  }

  /** The entries of one byte in the other seven tables. */
  method OneColumn(t: array2<bv32>, b: bv8)
    requires t.Length0 == 8 && t.Length1 == 256
    modifies t
    ensures Row(t, 0) == old(Row(t, 0))
    ensures forall j: nat :: 1 <= j < 8 ==> Next(Row(t, 0), t[j - 1, Index(b)], t[j, Index(b)])
    ensures forall j: nat, other: bv8 :: j < 8 && other != b ==> t[j, Index(other)] == old(t[j, Index(other)])
  {
    hide Xor, ByteDown, Low, Index;
    ghost var first := Row(t, 0);
    var c := t[0, Index(b)];
    forall other | Index(other) == Index(b) ensures other == b {
      IndexInjective(other, b);
    }
    for j := 1 to 8
      invariant Row(t, 0) == first && c == t[j - 1, Index(b)]
      invariant forall k: nat :: 1 <= k < j ==> Next(first, t[k - 1, Index(b)], t[k, Index(b)])
      invariant forall k: nat, other: bv8 :: k < 8 && other != b ==> t[k, Index(other)] == old(t[k, Index(other)])
    {
      assert first[Index(Low(c))] == t[0, Index(Low(c))];
      c := Xor(t[0, Index(Low(c))], ByteDown(c));
      t[j, Index(b)] := c;
    }
  }

  // ----- the entries of the tables -----

  /** The entries of table `j` for the bytes 1, 2, 4, ..., 128. */
  function BitRow(j: nat): (row: seq<bv32>)
    requires j < 8
    ensures |row| == 8
  {
    match j
    case 0 => [0xf26b8303, 0xe13b70f7, 0xc79a971f, 0x8ad958cf, 0x105ec76f, 0x20bd8ede, 0x417b1dbc, 0x82f63b78]
    case 1 => [0x13a29877, 0x274530ee, 0x4e8a61dc, 0x9d14c3b8, 0x3fc5f181, 0x7f8be302, 0xff17c604, 0xfbc3faf9]
    case 2 => [0xa541927e, 0x4f6f520d, 0x9edea41a, 0x38513ec5, 0x70a27d8a, 0xe144fb14, 0xc76580d9, 0x8b277743]
    case 3 => [0xdd45aab8, 0xbf672381, 0x7b2231f3, 0xf64463e6, 0xe964b13d, 0xd725148b, 0xaba65fe7, 0x52a0c93f]
    case 4 => [0x38116fac, 0x7022df58, 0xe045beb0, 0xc5670b91, 0x8f2261d3, 0x1ba8b557, 0x37516aae, 0x6ea2d55c]
    case 5 => [0xef306b19, 0xdb8ca0c3, 0xb2f53777, 0x6006181f, 0xc00c303e, 0x85f4168d, 0x0e045beb, 0x1c08b7d6]
    case 6 => [0x68032cc8, 0xd0065990, 0xa5e0c5d1, 0x4e2dfd53, 0x9c5bfaa6, 0x3d5b83bd, 0x7ab7077a, 0xf56e0ef4]
    case _ => [0x493c7d27, 0x9278fa4e, 0x211d826d, 0x423b04da, 0x847609b4, 0x0d006599, 0x1a00cb32, 0x34019664]
  }

  /** Eight registers, each moved on by a byte. */
  predicate Moves(before: seq<bv32>, after: seq<bv32>)
    requires |before| == |after| == 8
  {
    && Byte(before[0]) == after[0] && Byte(before[1]) == after[1]
    && Byte(before[2]) == after[2] && Byte(before[3]) == after[3]
    && Byte(before[4]) == after[4] && Byte(before[5]) == after[5]
    && Byte(before[6]) == after[6] && Byte(before[7]) == after[7]
  }

  /** What row `j` is reached from: the bytes themselves, or the row before it. */
  function RowBefore(j: nat): (row: seq<bv32>)
    requires j < 8
    ensures |row| == 8
  {
    if j == 0 then [0x01, 0x02, 0x04, 0x08, 0x10, 0x20, 0x40, 0x80] else BitRow(j - 1)
  }

  lemma BitsMove0()
    ensures Moves([0x01, 0x02, 0x04, 0x08, 0x10, 0x20, 0x40, 0x80], BitRow(0))
  {
  }

  lemma BitsMove1()
    ensures Moves([0xf26b8303, 0xe13b70f7, 0xc79a971f, 0x8ad958cf, 0x105ec76f, 0x20bd8ede, 0x417b1dbc, 0x82f63b78], BitRow(1))
  {
  }

  lemma BitsMove2()
    ensures Moves([0x13a29877, 0x274530ee, 0x4e8a61dc, 0x9d14c3b8, 0x3fc5f181, 0x7f8be302, 0xff17c604, 0xfbc3faf9], BitRow(2))
  {
  }

  lemma BitsMove3()
    ensures Moves([0xa541927e, 0x4f6f520d, 0x9edea41a, 0x38513ec5, 0x70a27d8a, 0xe144fb14, 0xc76580d9, 0x8b277743], BitRow(3))
  {
  }

  lemma BitsMove4()
    ensures Moves([0xdd45aab8, 0xbf672381, 0x7b2231f3, 0xf64463e6, 0xe964b13d, 0xd725148b, 0xaba65fe7, 0x52a0c93f], BitRow(4))
  {
  }

  lemma BitsMove5()
    ensures Moves([0x38116fac, 0x7022df58, 0xe045beb0, 0xc5670b91, 0x8f2261d3, 0x1ba8b557, 0x37516aae, 0x6ea2d55c], BitRow(5))
  {
  }

  lemma BitsMove6()
    ensures Moves([0xef306b19, 0xdb8ca0c3, 0xb2f53777, 0x6006181f, 0xc00c303e, 0x85f4168d, 0x0e045beb, 0x1c08b7d6], BitRow(6))
  {
  }

  lemma BitsMove7()
    ensures Moves([0x68032cc8, 0xd0065990, 0xa5e0c5d1, 0x4e2dfd53, 0x9c5bfaa6, 0x3d5b83bd, 0x7ab7077a, 0xf56e0ef4], BitRow(7))
  {
  }

  lemma BitsMove(j: nat)
    requires j < 8
    ensures Moves(RowBefore(j), BitRow(j))
  {
    hide Moves;
    match j
    case 0 => BitsMove0();
    case 1 => BitsMove1();
    case 2 => BitsMove2();
    case 3 => BitsMove3();
    case 4 => BitsMove4();
    case 5 => BitsMove5();
    case 6 => BitsMove6();
    case _ => BitsMove7();
  }

  /** The entries of one table for the bytes 1, 2, 4, ..., 128. */
  predicate HasBitEntries(table: seq<bv32>, entries: seq<bv32>)
    requires |table| == 256 && |entries| == 8
  {
    && table[1] == entries[0] && table[2] == entries[1] && table[4] == entries[2] && table[8] == entries[3]
    && table[16] == entries[4] && table[32] == entries[5] && table[64] == entries[6] && table[128] == entries[7]
  }

  lemma BitIndices()
    ensures Index(1) == 1 && Index(2) == 2 && Index(4) == 4 && Index(8) == 8
    ensures Index(16) == 16 && Index(32) == 32 && Index(64) == 64 && Index(128) == 128
    ensures Wide(1) == 1 && Wide(2) == 2 && Wide(4) == 4 && Wide(8) == 8
    ensures Wide(16) == 16 && Wide(32) == 32 && Wide(64) == 64 && Wide(128) == 128
  {
  }

  /** An entry is the entry of the table before it, moved on by a byte. */
  lemma EntryMoves(tables: seq<seq<bv32>>, j: nat, b: bv8)
    requires Generated(tables) && j < 8
    ensures tables[j][Index(b)] == Byte(if j == 0 then Wide(b) else tables[j - 1][Index(b)])
  {
    hide Generated, Byte, Wide, Index;
    TableEntry(tables, j, b);
    if j > 0 {
      TableEntry(tables, j - 1, b);
    } else {
      OneByte(Wide(b));
    }
  }

  /** The tables hold the numbers that are written out in them, for the bytes with a single bit. */
  lemma {:induction false} BitEntries(tables: seq<seq<bv32>>, j: nat)
    requires Generated(tables) && j < 8
    ensures HasBitEntries(tables[j], BitRow(j))
  {
    hide Byte, Wide, Index, BitRow, Generated;
    BitsMove(j);
    BitIndices();
    if j > 0 {
      BitEntries(tables, j - 1);
    }
    EntryMoves(tables, j, 1);
    EntryMoves(tables, j, 2);
    EntryMoves(tables, j, 4);
    EntryMoves(tables, j, 8);
    EntryMoves(tables, j, 16);
    EntryMoves(tables, j, 32);
    EntryMoves(tables, j, 64);
    EntryMoves(tables, j, 128);
  }

  lemma WideXor(a: bv8, b: bv8)
    ensures Wide(a ^ b) == Xor(Wide(a), Wide(b))
  {
  }

  /** All other entries are sums of these. */
  lemma EntryXor(tables: seq<seq<bv32>>, j: nat, a: bv8, b: bv8)
    requires Generated(tables) && j < 8
    ensures tables[j][Index(a ^ b)] == Xor(tables[j][Index(a)], tables[j][Index(b)])
  {
    hide Generated, Byte, Wide, Index, Xor;
    TableEntry(tables, j, a);
    TableEntry(tables, j, b);
    TableEntry(tables, j, a ^ b);
    WideXor(a, b);
    BytesXor(Wide(a), Wide(b), j + 1);
  }

  lemma NextRegister(before: bv32, b: bv8, after: bv32, data: seq<bv8>, k: nat)
    requires k < |data| && data[k] == b && Crc(0xffffffff, data[..k]) == before && Byte(Xor(before, Wide(b))) == after
    ensures Crc(0xffffffff, data[..k + 1]) == after
  {
    hide Byte, Xor, Wide;
    assert data[..k + 1][..k] == data[..k];
  }

  lemma DigitRegisters()
    ensures Byte(Xor(0xffffffff, Wide(0x31))) == 0x6f0a661c
    ensures Byte(Xor(0x6f0a661c, Wide(0x32))) == 0x8caa3b9f
    ensures Byte(Xor(0x8caa3b9f, Wide(0x33))) == 0xef84d04d
    ensures Byte(Xor(0xef84d04d, Wide(0x34))) == 0x09c50b11
    ensures Byte(Xor(0x09c50b11, Wide(0x35))) == 0xe72edcca
    ensures Byte(Xor(0xe72edcca, Wide(0x36))) == 0xbeca8e79
    ensures Byte(Xor(0xbeca8e79, Wide(0x37))) == 0xedbd6815
    ensures Byte(Xor(0xedbd6815, Wide(0x38))) == 0x9f787f65
    ensures Byte(Xor(0x9f787f65, Wide(0x39))) == 0x1cf96d7c
  {
  }

  /** The check value of CRC-32C: the digits 1 to 9, from a register of ones, give 0xe3069283 complemented. */
  lemma CheckValue()
    ensures Crc(0xffffffff, [0x31, 0x32, 0x33, 0x34, 0x35, 0x36, 0x37, 0x38, 0x39]) == 0xffffffff ^ 0xe3069283
  {
    var d: seq<bv8> := [0x31, 0x32, 0x33, 0x34, 0x35, 0x36, 0x37, 0x38, 0x39];
    assert Crc(0xffffffff, d[..0]) == 0xffffffff;
    hide Byte, Xor, Wide, Crc;
    DigitRegisters();
    NextRegister(0xffffffff, 0x31, 0x6f0a661c, d, 0);
    NextRegister(0x6f0a661c, 0x32, 0x8caa3b9f, d, 1);
    NextRegister(0x8caa3b9f, 0x33, 0xef84d04d, d, 2);
    NextRegister(0xef84d04d, 0x34, 0x09c50b11, d, 3);
    NextRegister(0x09c50b11, 0x35, 0xe72edcca, d, 4);
    NextRegister(0xe72edcca, 0x36, 0xbeca8e79, d, 5);
    NextRegister(0xbeca8e79, 0x37, 0xedbd6815, d, 6);
    NextRegister(0xedbd6815, 0x38, 0x9f787f65, d, 7);
    NextRegister(0x9f787f65, 0x39, 0x1cf96d7c, d, 8);
    assert d[..9] == d;
  }

  method GenerateTables() returns (t: array2<bv32>)
    ensures Generated(Rows(t))
    ensures forall j: nat | j < 8 :: HasBitEntries(Rows(t)[j], BitRow(j))
  {
    t := new bv32[8, 256];
    FirstRow(t);
    hide Byte, Wide, Xor, ByteDown, Low, Index, Before, Counter, Next;
    ghost var first := Row(t, 0);
    assert FirstTable(first);
    CountEnds();
    var i: bv32 := 0;
    while i <= 0xFF
      invariant i <= 0x100 && Row(t, 0) == first
      invariant forall j: nat, b: bv8 :: 1 <= j < 8 && Before(b, i) ==>
                  Next(first, t[j - 1, Index(b)], t[j, Index(b)])
      decreases 0x100 - i
    {
      CountUp(i);
      OneColumn(t, Counter(i));
      i := i + 1;
    }
    assert i == 0x100;
    RowsGenerated(t);
    forall j: nat | j < 8 ensures HasBitEntries(Rows(t)[j], BitRow(j)) {
      BitEntries(Rows(t), j);
    }
  }

  lemma RowsGenerated(t: array2<bv32>)
    requires t.Length0 == 8 && t.Length1 == 256 && FirstTable(Row(t, 0))
    requires forall j: nat, b: bv8 :: 1 <= j < 8 && Before(b, 0x100) ==>
               Next(Row(t, 0), t[j - 1, Index(b)], t[j, Index(b)])
    ensures Generated(Rows(t))
  {
    hide FirstTable, Next, Index, Before;
    CountEnds();
    forall j: nat, b: bv8 | 1 <= j < 8
      ensures Next(Rows(t)[0], Rows(t)[j - 1][Index(b)], Rows(t)[j][Index(b)])
    {
      assert Before(b, 0x100);
    }
  }

  /** One byte, as the loops before and after the blocks take it. */
  function OneLookUp(table: seq<bv32>, crc: bv32, b: bv8): bv32
    requires |table| == 256
  {
    Xor(table[Index(Low(Xor(crc, Signed(b))))], ByteDown(crc))
  }

  lemma LookUpIsByte(tables: seq<seq<bv32>>, crc: bv32, data: seq<bv8>, k: nat)
    requires Generated(tables) && k < |data|
    ensures OneLookUp(tables[0], Crc(crc, data[..k]), data[k]) == Crc(crc, data[..k + 1])
  {
    var now := Crc(crc, data[..k]);
    AddByTable(now, data[k]);
    TableEntry(tables, 0, Low(Xor(now, Signed(data[k]))));
    OneByte(Wide(Low(Xor(now, Signed(data[k])))));
    assert data[..k + 1][..k] == data[..k];
    hide Byte, Xor, Wide, Low, Signed, ByteDown, Index, Generated, Bytes;
  }

  lemma BlockEntries(tables: seq<seq<bv32>>, b0: bv8, b1: bv8, b2: bv8, b3: bv8, n: nat)
    requires Generated(tables) && n <= 4 && |tables| == 8 && (forall j :: 0 <= j < 8 ==> |tables[j]| == 256)
    ensures tables[n + 3][Index(b0)] == Bytes(Wide(b0), n + 4)
    ensures tables[n + 2][Index(b1)] == Bytes(Wide(b1), n + 3)
    ensures tables[n + 1][Index(b2)] == Bytes(Wide(b2), n + 2)
    ensures tables[n][Index(b3)] == Bytes(Wide(b3), n + 1)
  {
    hide Index, Bytes, Wide, Generated;
    TableEntry(tables, n + 3, b0);
    TableEntry(tables, n + 2, b1);
    TableEntry(tables, n + 1, b2);
    TableEntry(tables, n, b3);
  }

  /** The look-ups of one block of eight bytes. */
  method OneBlock(tables: seq<seq<bv32>>, before: bv32, w0: bv32, w1: bv32) returns (crc: bv32)
    requires Generated(tables)
    ensures crc == Xor(Bytes(Xor(before, w0), 8), Bytes(w1, 4))
  {
    hide *;
    Shape(tables);
    Slices(Xor(before, w0), 4);
    Slices(w1, 0);
    crc := Xor(before, w0);
    BlockEntries(tables, Part(crc, 0), Part(crc, 1), Part(crc, 2), Part(crc, 3), 4);
    BlockEntries(tables, Part(w1, 0), Part(w1, 1), Part(w1, 2), Part(w1, 3), 0);
    PartsAre(crc);
    PartsAre(w1);
    var term1 := Xor(tables[7][Index(Low(crc))], tables[6][Index(Low(ByteDown(crc)))]);
    var term2 := Down16(crc);
    crc := Xor(Xor(term1, tables[5][Index(Low(term2))]), tables[4][Index(Low(ByteDown(term2)))]);
    ghost var high := crc;
    term1 := Xor(tables[3][Index(Low(w1))], tables[2][Index(Low(ByteDown(w1)))]);
    term2 := Down16(w1);
    crc := Xor(Xor(Xor(crc, term1), tables[1][Index(Low(term2))]), tables[0][Index(Low(ByteDown(term2)))]);
    XorAssoc(high, term1, tables[1][Index(Low(term2))]);
    XorAssoc(high, Xor(term1, tables[1][Index(Low(term2))]), tables[0][Index(Low(ByteDown(term2)))]);
  }

  lemma BlockIs(crc: bv32, data: seq<bv8>, p: nat)
    requires p + 8 <= |data|
    ensures var w0, w1 := Load(data[p], data[p + 1], data[p + 2], data[p + 3]),
                          Load(data[p + 4], data[p + 5], data[p + 6], data[p + 7]);
            Crc(crc, data[..p + 8]) == Xor(Bytes(Xor(Crc(crc, data[..p]), w0), 8), Bytes(w1, 4))
  {
    hide *;
    var block := data[p..p + 8];
    EightBytes(Crc(crc, data[..p]), block);
    CrcConcat(crc, data[..p], block);
    assert data[..p] + block == data[..p + 8];
  }

  lemma CrcNone(crc: bv32, data: seq<bv8>)
    requires data == []
    ensures Crc(crc, data) == crc
  {
  }

  lemma Shape(tables: seq<seq<bv32>>)
    requires Generated(tables)
    ensures |tables| == 8 && forall j :: 0 <= j < 8 ==> |tables[j]| == 256
  {
  }

  /** The block of eight bytes at `p`. */
  method BlockAt(tables: seq<seq<bv32>>, before: bv32, data: array<bv8>, p: nat, ghost start: bv32) returns (crc: bv32)
    requires Generated(tables) && p + 8 <= data.Length && before == Crc(start, data[..][..p])
    ensures crc == Crc(start, data[..][..p + 8])
  {
    hide *;
    BlockIs(start, data[..], p);
    crc := OneBlock(tables, before, Load(data[p], data[p + 1], data[p + 2], data[p + 3]),
                    Load(data[p + 4], data[p + 5], data[p + 6], data[p + 7]));
  }

  method OneByOne(tables: seq<seq<bv32>>, before: bv32, data: array<bv8>, from: nat, count: nat) returns (crc: bv32)
    requires Generated(tables) && from + count <= data.Length
    ensures crc == Crc(before, data[from..from + count])
  {
    hide *;
    ghost var d := data[from..from + count];
    CrcNone(before, d[..0]);
    Shape(tables);
    crc := before;
    for li := 0 to count
      invariant crc == Crc(before, d[..li])
    {
      LookUpIsByte(tables, before, d, li);
      crc := OneLookUp(tables[0], crc, data[from + li]);
    }
    assert d[..count] == d;
  }

  /** The checksum of a buffer that starts at the given address, whatever its length and alignment. */
  method Crc32cSlicingBy8(tables: seq<seq<bv32>>, crc: bv32, data: array<bv8>, address: nat) returns (result: bv32)
    requires Generated(tables)
    ensures result == Crc(crc, data[..])
  {
    hide *;
    ghost var d := data[..];
    var initialBytes := (4 - address) % 4;
    if data.Length < initialBytes {
      initialBytes := data.Length;
    }
    result := OneByOne(tables, crc, data, 0, initialBytes);
    var p := initialBytes;
    var length := data.Length - initialBytes;
    var runningLength := length - length % 8;
    var endBytes := length - runningLength;
    assert data[0..p] == d[..p];
    for li := 0 to runningLength / 8
      invariant p == initialBytes + 8 * li && result == Crc(crc, d[..p])
    {
      result := BlockAt(tables, result, data, p, crc);
      p := p + 8;
    }
    result := OneByOne(tables, result, data, p, endBytes);
    CrcConcat(crc, d[..p], d[p..]);
    assert d[..p] + d[p..] == d && d[p..] == data[p..p + endBytes];
  }
}
