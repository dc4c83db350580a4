/**
 Byte-at-a-time division by a reflected polynomial through a table of 256 remainders, the
 form shared by boot/crc32.c and bertos/algo/crc_ccitt.c, against bit-at-a-time division.

 Registers of 16 and of 32 bits are both 32-bit words here: a reflected register only ever
 shifts right, so a 16-bit one never leaves its low half.
 */
module Reflected {
  import opened ByteTable
  import opened ShiftRegister
  import opened Words

  type Word = bv32

  function Xor(x: Word, y: Word): Word { x ^ y }
  function Shift(c: Word): Word { c >> 1 }
  predicate LowBit(c: Word) { c & 1 != 0 }

  /** Bit-at-a-time division by `poly`, low bits first. */
  function Division(poly: Word): Register<Word> {
    Register(Xor, Shift, LowBit, poly)
  }

  /** The bits of a byte, the least significant first. */
  function ByteBits(b: Byte): seq<bool> {
    [b & 1 != 0, b & 2 != 0, b & 4 != 0, b & 8 != 0,
     b & 16 != 0, b & 32 != 0, b & 64 != 0, b & 128 != 0]
  }

  /** One byte through the table. */
  function Step(entry: Byte -> Word, c: Word, b: Byte): Word {
    (c >> 8) ^ entry(((c ^ (b as Word)) & 0xFF) as Byte)
  }

  /** The index of an entry, at the bottom of the register. */
  function Index(i: Byte): Word {
    i as Word
  }

  // ----- Exclusive or and right shift are lawful -----

  lemma XorLaws(x: Word, y: Word, z: Word)
    ensures x ^ y == y ^ x && x ^ (x ^ y) == y && (x ^ y) ^ z == x ^ (y ^ z)
  {
  }

  lemma XorShifts(x: Word, y: Word)
    ensures (x ^ y) >> 1 == (x >> 1) ^ (y >> 1)
    ensures ((x ^ y) & 1 != 0) == ((x & 1 != 0) != (y & 1 != 0))
  {
  }

  lemma AddIs(d: Register<Word>, x: Word, y: Word)
    requires d.add == Xor
    ensures d.add(x, y) == x ^ y
  {
  }

  lemma ShiftIs(d: Register<Word>, c: Word)
    requires d.shift == Shift && d.out == LowBit
    ensures d.shift(c) == c >> 1 && d.out(c) == (c & 1 != 0)
  {
  }

  lemma DivisionShifts(d: Register<Word>, x: Word, y: Word)
    requires d.add == Xor && d.shift == Shift && d.out == LowBit
    ensures ShiftAdds(d, x, y) && OutAdds(d, x, y)
  {
    AddIs(d, x, y); AddIs(d, x >> 1, y >> 1);
    ShiftIs(d, x); ShiftIs(d, y); ShiftIs(d, x ^ y);
    XorShifts(x, y);
  }

  lemma DivisionAdds(d: Register<Word>, x: Word, y: Word, z: Word)
    requires d.add == Xor
    ensures AddCommutes(d, x, y) && AddCancels(d, x, y) && AddAssociates(d, x, y, z)
  {
    AddIs(d, x, y); AddIs(d, y, x); AddIs(d, x, x ^ y);
    AddIs(d, x ^ y, z); AddIs(d, y, z); AddIs(d, x, y ^ z);
    XorLaws(x, y, z);
  }

  lemma DivisionIsLawful(poly: Word)
    ensures Lawful(Division(poly))
  {
    var d := Division(poly);
    forall x, y ensures ShiftAdds(d, x, y) && OutAdds(d, x, y) { DivisionShifts(d, x, y); }
    forall x, y, z ensures AddCommutes(d, x, y) && AddCancels(d, x, y) && AddAssociates(d, x, y, z) {
      DivisionAdds(d, x, y, z);
    }
  }

  // ----- One byte through the table is eight divisions -----

  /** The register with its low byte replaced by the message byte. */
  function Loaded(c: Word, b: Byte): Word {
    (c & 0xFFFF_FF00) ^ (b as Word)
  }

  lemma SplitRegister(d: Register<Word>, c: Word, b: Byte)
    requires d.add == Xor
    ensures c == d.add((c ^ (b as Word)) & 0xFF, Loaded(c, b))
  {
  }

  lemma StepIsSum(d: Register<Word>, entry: Byte -> Word, c: Word, b: Byte)
    requires d.add == Xor
    ensures Step(entry, c, b) == d.add(entry(((c ^ (b as Word)) & 0xFF) as Byte), c >> 8)
  {
  }

  ghost predicate LeavesAs(r: Word, bits: seq<bool>, out: Word)
    requires |bits| == 8
  {
    var r1 := r >> 1; var r2 := r1 >> 1; var r3 := r2 >> 1; var r4 := r3 >> 1;
    var r5 := r4 >> 1; var r6 := r5 >> 1; var r7 := r6 >> 1;
    && (r & 1 != 0) == bits[0] && (r1 & 1 != 0) == bits[1] && (r2 & 1 != 0) == bits[2] && (r3 & 1 != 0) == bits[3]
    && (r4 & 1 != 0) == bits[4] && (r5 & 1 != 0) == bits[5] && (r6 & 1 != 0) == bits[6] && (r7 & 1 != 0) == bits[7]
    && r7 >> 1 == out
  }

  lemma LoadedLeaves(c: Word, b: Byte)
    ensures LeavesAs(Loaded(c, b), ByteBits(b), c >> 8)
  {
  }

  lemma ShiftsOut(d: Register<Word>, r: Word, bits: seq<bool>, out: Word)
    requires d.shift == Shift && d.out == LowBit
    requires |bits| == 8 && LeavesAs(r, bits, out)
    ensures d.Run(r, bits) == out
  {
    var r1 := r >> 1; var r2 := r1 >> 1; var r3 := r2 >> 1; var r4 := r3 >> 1;
    var r5 := r4 >> 1; var r6 := r5 >> 1; var r7 := r6 >> 1;
    ShiftIs(d, r); ShiftIs(d, r1); ShiftIs(d, r2); ShiftIs(d, r3);
    ShiftIs(d, r4); ShiftIs(d, r5); ShiftIs(d, r6); ShiftIs(d, r7);
    RunOut(d, r, bits, out);
  }

  lemma StepIsEightDivisions(poly: Word, entry: Byte -> Word, c: Word, b: Byte)
    requires forall i :: IsRemainder(Division(poly), Index, entry, i)
    ensures Step(entry, c, b) == Division(poly).Run(c, ByteBits(b))
  {
    var d := Division(poly);
    var x := (c ^ (b as Word)) & 0xFF;
    SplitRegister(d, c, b);
    StepIsSum(d, entry, c, b);
    LoadedLeaves(c, b);
    ShiftsOut(d, Loaded(c, b), ByteBits(b), c >> 8);
    assert IsRemainder(d, Index, entry, x as Byte);
    DivisionIsLawful(poly);
    RunSplits(d, c, x, Loaded(c, b), ByteBits(b), entry(x as Byte), c >> 8);
  }

  // ----- Complemented registers -----

  function Complement(c: Word): Word { !c }
  function Uncomplement(c: Word): Word { c ^ 0xFFFF_FFFF }

  /** The result of a call is complemented on the way out and on the way back in. */
  function Complemented(step: (Word, Byte) -> Word, buf: seq<Byte>, before: Word): Word {
    Guarded(Uncomplement, Complement, step, before, buf)
  }

  lemma ComplementedIs(step: (Word, Byte) -> Word, buf: seq<Byte>, before: Word)
    ensures Complemented(step, buf, before) == Steps(step, before ^ 0xFFFF_FFFF, buf) ^ 0xFFFF_FFFF
  {
    ComplementIs(Steps(step, before ^ 0xFFFF_FFFF, buf));
  }

  lemma ComplementIs(c: Word)
    ensures Complement(c) == c ^ 0xFFFF_FFFF
  {
  }

  lemma ComplementTwice(c: Word)
    ensures Uncomplement(Complement(c)) == c
  {
  }

  /** A second call given the result of the first continues where that one stopped. */
  lemma ComplementedChains(step: (Word, Byte) -> Word, a: seq<Byte>, b: seq<Byte>, before: Word)
    ensures Complemented(step, b, Complemented(step, a, before)) == Complemented(step, a + b, before)
  {
    forall c ensures Uncomplement(Complement(c)) == c { ComplementTwice(c); }
    GuardedChains(Uncomplement, Complement, step, before, a, b);
  }

  // ----- Tables -----

  /** One zero bit, on the register itself. */
  function Down(poly: Word, c: Word): Word {
    if c & 1 != 0 then (c >> 1) ^ poly else c >> 1
  }

  function Eight(poly: Word, c: Word): Word {
    Down(poly, Down(poly, Down(poly, Down(poly, Down(poly, Down(poly, Down(poly, Down(poly, c))))))))
  }

  lemma DownIs(poly: Word, c: Word)
    ensures Division(poly).Step(c, false) == Down(poly, c)
  {
  }

  lemma RunIsEight(poly: Word, c: Word)
    ensures Division(poly).Run(c, Zeros(8)) == Eight(poly, c)
  {
    RunOfEight(Division(poly), c, Zeros(8));
    var c1 := Down(poly, c); var c2 := Down(poly, c1); var c3 := Down(poly, c2); var c4 := Down(poly, c3);
    var c5 := Down(poly, c4); var c6 := Down(poly, c5); var c7 := Down(poly, c6);
    DownIs(poly, c); DownIs(poly, c1); DownIs(poly, c2); DownIs(poly, c3);
    DownIs(poly, c4); DownIs(poly, c5); DownIs(poly, c6); DownIs(poly, c7);
  }

  lemma SplitIndex(i: Byte)
    ensures Index(i) == Xor(Index(i & 0xF0), Index(i & 0x0F))
  {
  }

  /** A table is one of remainders as soon as its first row and first column are. */
  lemma EntryIsRemainder(poly: Word, entry: Byte -> Word, i: Byte)
    requires IsRemainder(Division(poly), Index, entry, i & 0xF0)
    requires IsRemainder(Division(poly), Index, entry, i & 0x0F)
    requires entry(i) == Xor(entry(i & 0xF0), entry(i & 0x0F))
    ensures IsRemainder(Division(poly), Index, entry, i)
  {
    SplitIndex(i);
    DivisionIsLawful(poly);
    EntryFromNibbles(Division(poly), Index, entry, i, i & 0xF0, i & 0x0F);
  }
}
