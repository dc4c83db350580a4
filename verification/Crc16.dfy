/**
 The table-driven CRC-16 of bertos/algo/crc.c (the XMODEM polynomial, most significant bit
 first): it is bit-at-a-time division, it is linear, and it detects every error confined to
 two adjacent bytes.
 */
module Crc16 {
  import opened ByteTable
  import opened ShiftRegister
  import opened Words

  type Word = bv16

  const INIT_VAL: Word := 0

  /** `crc16tab`, sixteen entries to a row. */
  const TABLE: seq<seq<Word>> := [
    [0x0000, 0x1021, 0x2042, 0x3063, 0x4084, 0x50a5, 0x60c6, 0x70e7, 0x8108, 0x9129, 0xa14a, 0xb16b, 0xc18c, 0xd1ad, 0xe1ce, 0xf1ef],
    [0x1231, 0x0210, 0x3273, 0x2252, 0x52b5, 0x4294, 0x72f7, 0x62d6, 0x9339, 0x8318, 0xb37b, 0xa35a, 0xd3bd, 0xc39c, 0xf3ff, 0xe3de],
    [0x2462, 0x3443, 0x0420, 0x1401, 0x64e6, 0x74c7, 0x44a4, 0x5485, 0xa56a, 0xb54b, 0x8528, 0x9509, 0xe5ee, 0xf5cf, 0xc5ac, 0xd58d],
    [0x3653, 0x2672, 0x1611, 0x0630, 0x76d7, 0x66f6, 0x5695, 0x46b4, 0xb75b, 0xa77a, 0x9719, 0x8738, 0xf7df, 0xe7fe, 0xd79d, 0xc7bc],
    [0x48c4, 0x58e5, 0x6886, 0x78a7, 0x0840, 0x1861, 0x2802, 0x3823, 0xc9cc, 0xd9ed, 0xe98e, 0xf9af, 0x8948, 0x9969, 0xa90a, 0xb92b],
    [0x5af5, 0x4ad4, 0x7ab7, 0x6a96, 0x1a71, 0x0a50, 0x3a33, 0x2a12, 0xdbfd, 0xcbdc, 0xfbbf, 0xeb9e, 0x9b79, 0x8b58, 0xbb3b, 0xab1a],
    [0x6ca6, 0x7c87, 0x4ce4, 0x5cc5, 0x2c22, 0x3c03, 0x0c60, 0x1c41, 0xedae, 0xfd8f, 0xcdec, 0xddcd, 0xad2a, 0xbd0b, 0x8d68, 0x9d49],
    [0x7e97, 0x6eb6, 0x5ed5, 0x4ef4, 0x3e13, 0x2e32, 0x1e51, 0x0e70, 0xff9f, 0xefbe, 0xdfdd, 0xcffc, 0xbf1b, 0xaf3a, 0x9f59, 0x8f78],
    [0x9188, 0x81a9, 0xb1ca, 0xa1eb, 0xd10c, 0xc12d, 0xf14e, 0xe16f, 0x1080, 0x00a1, 0x30c2, 0x20e3, 0x5004, 0x4025, 0x7046, 0x6067],
    [0x83b9, 0x9398, 0xa3fb, 0xb3da, 0xc33d, 0xd31c, 0xe37f, 0xf35e, 0x02b1, 0x1290, 0x22f3, 0x32d2, 0x4235, 0x5214, 0x6277, 0x7256],
    [0xb5ea, 0xa5cb, 0x95a8, 0x8589, 0xf56e, 0xe54f, 0xd52c, 0xc50d, 0x34e2, 0x24c3, 0x14a0, 0x0481, 0x7466, 0x6447, 0x5424, 0x4405],
    [0xa7db, 0xb7fa, 0x8799, 0x97b8, 0xe75f, 0xf77e, 0xc71d, 0xd73c, 0x26d3, 0x36f2, 0x0691, 0x16b0, 0x6657, 0x7676, 0x4615, 0x5634],
    [0xd94c, 0xc96d, 0xf90e, 0xe92f, 0x99c8, 0x89e9, 0xb98a, 0xa9ab, 0x5844, 0x4865, 0x7806, 0x6827, 0x18c0, 0x08e1, 0x3882, 0x28a3],
    [0xcb7d, 0xdb5c, 0xeb3f, 0xfb1e, 0x8bf9, 0x9bd8, 0xabbb, 0xbb9a, 0x4a75, 0x5a54, 0x6a37, 0x7a16, 0x0af1, 0x1ad0, 0x2ab3, 0x3a92],
    [0xfd2e, 0xed0f, 0xdd6c, 0xcd4d, 0xbdaa, 0xad8b, 0x9de8, 0x8dc9, 0x7c26, 0x6c07, 0x5c64, 0x4c45, 0x3ca2, 0x2c83, 0x1ce0, 0x0cc1],
    [0xef1f, 0xff3e, 0xcf5d, 0xdf7c, 0xaf9b, 0xbfba, 0x8fd9, 0x9ff8, 0x6e17, 0x7e36, 0x4e55, 0x5e74, 0x2e93, 0x3eb2, 0x0ed1, 0x1ef0]
  ]

  function Entry(i: Byte): Word {
    TABLE[(i >> 4) as int][(i & 15) as int]
  }

  /** `UPDCRC16`: one byte through the table. */
  function Step(entry: Byte -> Word, c: Word, b: Byte): Word {
    entry(((c >> 8) as Byte) ^ b) ^ (c << 8)
  }

  function Update(c: Word, b: Byte): Word {
    Step(Entry, c, b)
  }

  /** `crc16` of a buffer continuing from `c`. */
  function Value(c: Word, buf: seq<Byte>): Word {
    Steps(Update, c, buf)
  }

  method Compute(c: Word, buf: array<Byte>, len: nat) returns (r: Word)
    requires len <= buf.Length
    ensures r == Value(c, buf[..len])
  {
    r := Feed(Update, c, buf, len);
    assert len == 0 ==> buf[..len] == [];
  }

  // ----- The reference: one message bit per step -----

  function Xor(x: Word, y: Word): Word { x ^ y }
  function Shift(c: Word): Word { c << 1 }
  predicate TopBit(c: Word) { c & 0x8000 != 0 }

  const DIVISION: Register<Word> := Register(Xor, Shift, TopBit, 0x1021)

  /** The bits of a byte, the most significant first. */
  function ByteBits(b: Byte): seq<bool> {
    [b & 128 != 0, b & 64 != 0, b & 32 != 0, b & 16 != 0,
     b & 8 != 0, b & 4 != 0, b & 2 != 0, b & 1 != 0]
  }

  // ----- Exclusive or and left shift are lawful -----

  lemma XorLaws(x: Word, y: Word, z: Word)
    ensures x ^ y == y ^ x && x ^ (x ^ y) == y && (x ^ y) ^ z == x ^ (y ^ z)
  {
  }

  lemma XorShifts(x: Word, y: Word)
    ensures (x ^ y) << 1 == (x << 1) ^ (y << 1)
    ensures ((x ^ y) & 0x8000 != 0) == ((x & 0x8000 != 0) != (y & 0x8000 != 0))
  {
  }

  lemma AddIs(d: Register<Word>, x: Word, y: Word)
    requires d.add == Xor
    ensures d.add(x, y) == x ^ y
  {
  }

  lemma ShiftIs(d: Register<Word>, c: Word)
    requires d.shift == Shift && d.out == TopBit
    ensures d.shift(c) == c << 1 && d.out(c) == (c & 0x8000 != 0)
  {
  }

  lemma DivisionShifts(d: Register<Word>, x: Word, y: Word)
    requires d.add == Xor && d.shift == Shift && d.out == TopBit
    ensures ShiftAdds(d, x, y) && OutAdds(d, x, y)
  {
    AddIs(d, x, y); AddIs(d, x << 1, y << 1);
    ShiftIs(d, x); ShiftIs(d, y); ShiftIs(d, x ^ y);
    XorShifts(x, y);
  }

  lemma DivisionAdds(d: Register<Word>, x: Word, y: Word, z: Word)
    requires d.add == Xor
    ensures AddCommutes(d, x, y) && AddCancels(d, x, y) && AddAssociates(d, x, y, z)
  {
    AddIs(d, x, y); AddIs(d, y, x); AddIs(d, x, x ^ y);
    AddIs(d, x ^ y, z); AddIs(d, y, z); AddIs(d, x, y ^ z);
    XorLaws(x, y, z);
  }

  lemma DivisionIsLawful()
    ensures Lawful(DIVISION)
  {
    var d := DIVISION;
    forall x, y ensures ShiftAdds(d, x, y) && OutAdds(d, x, y) { DivisionShifts(d, x, y); }
    forall x, y, z ensures AddCommutes(d, x, y) && AddCancels(d, x, y) && AddAssociates(d, x, y, z) {
      DivisionAdds(d, x, y, z);
    }
  }

  // ----- The table -----

  /** The index of an entry, at the top of the register. */
  function Index(i: Byte): Word {
    (i as Word) << 8
  }

  /** One zero bit, on the register itself. */
  function Up(c: Word): Word {
    if c & 0x8000 != 0 then (c << 1) ^ 0x1021 else c << 1
  }

  function Eight(c: Word): Word {
    Up(Up(Up(Up(Up(Up(Up(Up(c))))))))
  }

  lemma UpIs(c: Word)
    ensures DIVISION.Step(c, false) == Up(c)
  {
  }

  lemma RunIsEight(c: Word)
    ensures DIVISION.Run(c, Zeros(8)) == Eight(c)
  {
    RunOfEight(DIVISION, c, Zeros(8));
    var c1 := Up(c); var c2 := Up(c1); var c3 := Up(c2); var c4 := Up(c3);
    var c5 := Up(c4); var c6 := Up(c5); var c7 := Up(c6);
    UpIs(c); UpIs(c1); UpIs(c2); UpIs(c3); UpIs(c4); UpIs(c5); UpIs(c6); UpIs(c7);
  }

  /** The remainder of an index, computed on the register itself. */
  function Remainder(i: Byte): Word {
    Eight(Index(i))
  }

  lemma FirstRow()
    ensures TABLE[0] == LowIndexes(Remainder)
  {
  }

  lemma FirstColumn()
    ensures Column(TABLE) == HighIndexes(Remainder)
  {
  }

  lemma LowNibble(i: Byte)
    requires i & 0xF0 == 0
    ensures IsRemainder(DIVISION, Index, Entry, i)
  {
    assert Entry(i) == Remainder(i) by {
      assert i >> 4 == 0;
      FirstRow();
      LowIndexAt(Remainder, i);
    }
    RunIsEight(Index(i));
  }

  lemma HighNibble(i: Byte)
    requires i & 0x0F == 0
    ensures IsRemainder(DIVISION, Index, Entry, i)
  {
    assert Entry(i) == Remainder(i) by {
      assert i & 15 == 0;
      FirstColumn();
      HighIndexAt(Remainder, i);
    }
    RunIsEight(Index(i));
  }

  lemma Rows0()
    ensures FourRows(Xor, TABLE, 0)
  {
  }

  lemma Rows4()
    ensures FourRows(Xor, TABLE, 4)
  {
  }

  lemma Rows8()
    ensures FourRows(Xor, TABLE, 8)
  {
  }

  lemma Rows12()
    ensures FourRows(Xor, TABLE, 12)
  {
  }

  /** Every row is its first entry added to the first row. */
  lemma Rows()
    ensures FourRows(Xor, TABLE, 0) && FourRows(Xor, TABLE, 4) && FourRows(Xor, TABLE, 8) && FourRows(Xor, TABLE, 12)
  {
    assert FourRows(Xor, TABLE, 0) by { Rows0(); }
    assert FourRows(Xor, TABLE, 4) by { Rows4(); }
    assert FourRows(Xor, TABLE, 8) by { Rows8(); }
    assert FourRows(Xor, TABLE, 12) by { Rows12(); }
  }

  lemma EntrySplits(i: Byte)
    ensures Entry(i) == Xor(Entry(i & 0xF0), Entry(i & 0x0F))
  {
    Nibbles(i);
    Rows();
    EntryAdds(Xor, TABLE, (i >> 4) as int, (i & 15) as int);
  }

  lemma SplitIndex(i: Byte)
    ensures Index(i) == Xor(Index(i & 0xF0), Index(i & 0x0F))
  {
  }

  /** Every literal of the table is the remainder of its own index. */
  lemma TableHoldsRemainders(i: Byte)
    ensures IsRemainder(DIVISION, Index, Entry, i)
  {
    LowNibble(i & 0x0F);
    HighNibble(i & 0xF0);
    EntrySplits(i);
    SplitIndex(i);
    DivisionIsLawful();
    EntryFromNibbles(DIVISION, Index, Entry, i, i & 0xF0, i & 0x0F);
  }

  // ----- One byte through the table is eight divisions -----

  /** The register with its top byte replaced by the message byte. */
  function Loaded(c: Word, b: Byte): Word {
    (c & 0x00FF) ^ Index(b)
  }

  lemma SplitRegister(d: Register<Word>, c: Word, b: Byte)
    requires d.add == Xor
    ensures c == d.add(Index(((c >> 8) as Byte) ^ b), Loaded(c, b))
  {
  }

  lemma StepIsSum(d: Register<Word>, entry: Byte -> Word, c: Word, b: Byte)
    requires d.add == Xor
    ensures Step(entry, c, b) == d.add(entry(((c >> 8) as Byte) ^ b), c << 8)
  {
  }

  ghost predicate LeavesAs(r: Word, bits: seq<bool>, out: Word)
    requires |bits| == 8
  {
    var r1 := r << 1; var r2 := r1 << 1; var r3 := r2 << 1; var r4 := r3 << 1;
    var r5 := r4 << 1; var r6 := r5 << 1; var r7 := r6 << 1;
    && (r & 0x8000 != 0) == bits[0] && (r1 & 0x8000 != 0) == bits[1]
    && (r2 & 0x8000 != 0) == bits[2] && (r3 & 0x8000 != 0) == bits[3]
    && (r4 & 0x8000 != 0) == bits[4] && (r5 & 0x8000 != 0) == bits[5]
    && (r6 & 0x8000 != 0) == bits[6] && (r7 & 0x8000 != 0) == bits[7]
    && r7 << 1 == out
  }

  lemma LoadedLeaves(c: Word, b: Byte)
    ensures LeavesAs(Loaded(c, b), ByteBits(b), c << 8)
  {
  }

  lemma ShiftsOut(d: Register<Word>, r: Word, bits: seq<bool>, out: Word)
    requires d.shift == Shift && d.out == TopBit
    requires |bits| == 8 && LeavesAs(r, bits, out)
    ensures d.Run(r, bits) == out
  {
    var r1 := r << 1; var r2 := r1 << 1; var r3 := r2 << 1; var r4 := r3 << 1;
    var r5 := r4 << 1; var r6 := r5 << 1; var r7 := r6 << 1;
    ShiftIs(d, r); ShiftIs(d, r1); ShiftIs(d, r2); ShiftIs(d, r3);
    ShiftIs(d, r4); ShiftIs(d, r5); ShiftIs(d, r6); ShiftIs(d, r7);
    RunOut(d, r, bits, out);
  }

  lemma StepIsEightDivisions(entry: Byte -> Word, c: Word, b: Byte)
    requires forall i :: IsRemainder(DIVISION, Index, entry, i)
    ensures Step(entry, c, b) == DIVISION.Run(c, ByteBits(b))
  {
    var i := ((c >> 8) as Byte) ^ b;
    SplitRegister(DIVISION, c, b);
    StepIsSum(DIVISION, entry, c, b);
    LoadedLeaves(c, b);
    ShiftsOut(DIVISION, Loaded(c, b), ByteBits(b), c << 8);
    assert IsRemainder(DIVISION, Index, entry, i);
    DivisionIsLawful();
    RunSplits(DIVISION, c, Index(i), Loaded(c, b), ByteBits(b), entry(i), c << 8);
  }

  lemma UpdateDivides(c: Word, b: Byte)
    ensures Divides(DIVISION, Update, ByteBits, c, b)
  {
    forall i ensures IsRemainder(DIVISION, Index, Entry, i) { TableHoldsRemainders(i); }
    StepIsEightDivisions(Entry, c, b);
  }

  // ----- Main results -----

  /** The table-driven value is bit-at-a-time division, from every seed. */
  lemma ValueIsDivision(c: Word, buf: seq<Byte>)
    ensures Value(c, buf) == DIVISION.Run(c, MessageBits(ByteBits, buf))
  {
    forall x, b ensures Divides(DIVISION, Update, ByteBits, x, b) { UpdateDivides(x, b); }
    StepsDivide(DIVISION, Update, ByteBits, c, buf);
  }

  /** Feeding a message in pieces is feeding it whole. */
  lemma ValueChains(c: Word, a: seq<Byte>, b: seq<Byte>)
    ensures Value(Value(c, a), b) == Value(c, a + b)
  {
    StepsAppend(Update, c, a, b);
  }

  // ----- Errors confined to two adjacent bytes -----

  /** No two entries share their low byte. */
  ghost predicate LowByteTells(entry: Byte -> Word, i: Byte, j: Byte) {
    (entry(i) ^ entry(j)) & 0x00FF == 0 ==> i == j
  }

  lemma StepShift(x: Word, y: Word, c: Word, d: Word)
    requires x ^ (c << 8) == y ^ (d << 8)
    ensures (x ^ y) & 0x00FF == 0
    ensures x == y ==> (c ^ d) & 0x00FF == 0
  {
  }

  lemma SameTop(c: Word, d: Word, a: Byte)
    requires ((c >> 8) as Byte) ^ a == ((d >> 8) as Byte) ^ a && (c ^ d) & 0x00FF == 0
    ensures c == d
  {
  }

  lemma SameByte(c: Word, a: Byte, b: Byte)
    requires ((c >> 8) as Byte) ^ a == ((c >> 8) as Byte) ^ b
    ensures a == b
  {
  }

  lemma StepTellsIndex(entry: Byte -> Word, x: Word, y: Word, i: Byte, j: Byte)
    requires forall k, l :: LowByteTells(entry, k, l)
    requires entry(i) ^ (x << 8) == entry(j) ^ (y << 8)
    ensures i == j && (x ^ y) & 0x00FF == 0
  {
    StepShift(entry(i), entry(j), x, y);
    assert LowByteTells(entry, i, j);
  }

  /** With the byte fixed, the step is injective in the register. */
  lemma StepKeepsDifference(entry: Byte -> Word, c: Word, d: Word, b: Byte)
    requires forall i, j :: LowByteTells(entry, i, j)
    requires Step(entry, c, b) == Step(entry, d, b)
    ensures c == d
  {
    StepTellsIndex(entry, c, d, ((c >> 8) as Byte) ^ b, ((d >> 8) as Byte) ^ b);
    SameTop(c, d, b);
  }

  lemma XorDrops(x: Word, y: Word, p: Word)
    ensures (x ^ p) ^ (y ^ p) == x ^ y
  {
  }

  lemma LowByteTellsByte(entry: Byte -> Word, c: Word, a: Byte, b: Byte)
    requires forall i, j :: LowByteTells(entry, i, j)
    requires (Step(entry, c, a) ^ Step(entry, c, b)) & 0x00FF == 0
    ensures a == b
  {
    var i, j := ((c >> 8) as Byte) ^ a, ((c >> 8) as Byte) ^ b;
    XorDrops(entry(i), entry(j), c << 8);
    assert LowByteTells(entry, i, j);
    SameByte(c, a, b);
  }

  lemma StepTells(entry: Byte -> Word, x: Word, y: Word, a: Byte, b: Byte)
    requires forall i, j :: LowByteTells(entry, i, j)
    requires Step(entry, x, a) == Step(entry, y, b)
    ensures (x ^ y) & 0x00FF == 0
    ensures x == y ==> a == b
  {
    StepTellsIndex(entry, x, y, ((x >> 8) as Byte) ^ a, ((y >> 8) as Byte) ^ b);
    if x == y {
      SameByte(x, a, b);
    }
  }

  /** From one register, two bytes are determined by the register they lead to. */
  lemma TwoStepsTell(entry: Byte -> Word, c: Word, a0: Byte, a1: Byte, b0: Byte, b1: Byte)
    requires forall i, j :: LowByteTells(entry, i, j)
    requires Step(entry, Step(entry, c, a0), a1) == Step(entry, Step(entry, c, b0), b1)
    ensures a0 == b0 && a1 == b1
  {
    StepTells(entry, Step(entry, c, a0), Step(entry, c, b0), a1, b1);
    LowByteTellsByte(entry, c, a0, b0);
  }

  /** The table in closed form. */
  function Folded(i: Byte): Word {
    Spread(Fold(i) as Word)
  }

  function Fold(i: Byte): Byte { i ^ (i >> 4) }

  function Spread(s: Word): Word { s ^ (s << 5) ^ (s << 12) }

  lemma EntryIsFolded(i: Byte)
    ensures Entry(i) == Folded(i)
  {
  }

  lemma FoldedLowByteTells(i: Byte, j: Byte)
    requires (Folded(i) ^ Folded(j)) & 0x00FF == 0
    ensures i == j
  {
  }

  lemma EntryLowByteTells(i: Byte, j: Byte)
    ensures LowByteTells(Entry, i, j)
  {
    EntryIsFolded(i);
    EntryIsFolded(j);
    if (Folded(i) ^ Folded(j)) & 0x00FF == 0 {
      FoldedLowByteTells(i, j);
    }
  }

  lemma UpdateTells(x: Word, y: Word, b: Byte)
    ensures KeepsDifference(Update, x, y, b)
  {
    forall i, j ensures LowByteTells(Entry, i, j) { EntryLowByteTells(i, j); }
    if Update(x, b) == Update(y, b) {
      StepKeepsDifference(Entry, x, y, b);
    }
  }

  lemma UpdateTellsPair(c: Word, a: seq<Byte>, b: seq<Byte>)
    requires |a| == |b| == 2 && Steps(Update, c, a) == Steps(Update, c, b)
    ensures a == b
  {
    forall i, j ensures LowByteTells(Entry, i, j) { EntryLowByteTells(i, j); }
    StepsOfTwo(Update, c, a);
    StepsOfTwo(Update, c, b);
    TwoStepsTell(Entry, c, a[0], a[1], b[0], b[1]);
  }

  /** Any two equally long buffers that differ only inside two adjacent bytes have different CRCs. */
  lemma BurstIsDetected(c: Word, before: seq<Byte>, a: seq<Byte>, b: seq<Byte>, after: seq<Byte>)
    requires |a| == |b| == 2 && a != b
    ensures Value(c, before + a + after) != Value(c, before + b + after)
  {
    if Value(c, before + a + after) == Value(c, before + b + after) {
      forall x, y, e ensures KeepsDifference(Update, x, y, e) { UpdateTells(x, y, e); }
      MiddlesMeet(Update, c, before, a, b, after);
      UpdateTellsPair(Steps(Update, c, before), a, b);
    }
  }

  // ----- Forms for callers -----

  ghost predicate Agree(e: Byte -> Word, f: Byte -> Word, i: Byte) {
    e(i) == f(i)
  }

  lemma StepAgrees(e: Byte -> Word, f: Byte -> Word, c: Word, b: Byte)
    requires forall i :: Agree(e, f, i)
    ensures Step(e, c, b) == Step(f, c, b)
  {
    assert Agree(e, f, ((c >> 8) as Byte) ^ b);
  }

  /** A single byte, without the table. */
  lemma ValueOfOne(c: Word, b: Byte)
    ensures Value(c, [b]) == Step(Folded, c, b)
  {
    forall i ensures Agree(Entry, Folded, i) { EntryIsFolded(i); }
    StepsOfOne(Update, c, b);
    StepAgrees(Entry, Folded, c, b);
  }

  /** Equal trailing bytes cannot make different registers meet. */
  lemma ValueKeepsDifference(c: Word, d: Word, buf: seq<Byte>)
    requires c != d
    ensures Value(c, buf) != Value(d, buf)
  {
    if Value(c, buf) == Value(d, buf) {
      forall x, y, b ensures KeepsDifference(Update, x, y, b) { UpdateTells(x, y, b); }
      StepsKeepDifference(Update, c, d, buf);
    }
  }
}
