/**
 The table-driven CRC-CCITT of bertos/algo/crc_ccitt.c: it divides by the reflected polynomial
 of appendix C.2 of RFC 1662, and a message may be fed to it in pieces.
 */
module CrcCcitt {
  import opened ByteTable
  import opened Reflected
  import opened ShiftRegister
  import opened Words

  const POLY: Word := 0x8408

  /** `crc_ccitt_tab`, sixteen entries to a row. */
  const TABLE: seq<seq<Word>> := [
    [0x0000, 0x1189, 0x2312, 0x329b, 0x4624, 0x57ad, 0x6536, 0x74bf, 0x8c48, 0x9dc1, 0xaf5a, 0xbed3, 0xca6c, 0xdbe5, 0xe97e, 0xf8f7],
    [0x1081, 0x0108, 0x3393, 0x221a, 0x56a5, 0x472c, 0x75b7, 0x643e, 0x9cc9, 0x8d40, 0xbfdb, 0xae52, 0xdaed, 0xcb64, 0xf9ff, 0xe876],
    [0x2102, 0x308b, 0x0210, 0x1399, 0x6726, 0x76af, 0x4434, 0x55bd, 0xad4a, 0xbcc3, 0x8e58, 0x9fd1, 0xeb6e, 0xfae7, 0xc87c, 0xd9f5],
    [0x3183, 0x200a, 0x1291, 0x0318, 0x77a7, 0x662e, 0x54b5, 0x453c, 0xbdcb, 0xac42, 0x9ed9, 0x8f50, 0xfbef, 0xea66, 0xd8fd, 0xc974],
    [0x4204, 0x538d, 0x6116, 0x709f, 0x0420, 0x15a9, 0x2732, 0x36bb, 0xce4c, 0xdfc5, 0xed5e, 0xfcd7, 0x8868, 0x99e1, 0xab7a, 0xbaf3],
    [0x5285, 0x430c, 0x7197, 0x601e, 0x14a1, 0x0528, 0x37b3, 0x263a, 0xdecd, 0xcf44, 0xfddf, 0xec56, 0x98e9, 0x8960, 0xbbfb, 0xaa72],
    [0x6306, 0x728f, 0x4014, 0x519d, 0x2522, 0x34ab, 0x0630, 0x17b9, 0xef4e, 0xfec7, 0xcc5c, 0xddd5, 0xa96a, 0xb8e3, 0x8a78, 0x9bf1],
    [0x7387, 0x620e, 0x5095, 0x411c, 0x35a3, 0x242a, 0x16b1, 0x0738, 0xffcf, 0xee46, 0xdcdd, 0xcd54, 0xb9eb, 0xa862, 0x9af9, 0x8b70],
    [0x8408, 0x9581, 0xa71a, 0xb693, 0xc22c, 0xd3a5, 0xe13e, 0xf0b7, 0x0840, 0x19c9, 0x2b52, 0x3adb, 0x4e64, 0x5fed, 0x6d76, 0x7cff],
    [0x9489, 0x8500, 0xb79b, 0xa612, 0xd2ad, 0xc324, 0xf1bf, 0xe036, 0x18c1, 0x0948, 0x3bd3, 0x2a5a, 0x5ee5, 0x4f6c, 0x7df7, 0x6c7e],
    [0xa50a, 0xb483, 0x8618, 0x9791, 0xe32e, 0xf2a7, 0xc03c, 0xd1b5, 0x2942, 0x38cb, 0x0a50, 0x1bd9, 0x6f66, 0x7eef, 0x4c74, 0x5dfd],
    [0xb58b, 0xa402, 0x9699, 0x8710, 0xf3af, 0xe226, 0xd0bd, 0xc134, 0x39c3, 0x284a, 0x1ad1, 0x0b58, 0x7fe7, 0x6e6e, 0x5cf5, 0x4d7c],
    [0xc60c, 0xd785, 0xe51e, 0xf497, 0x8028, 0x91a1, 0xa33a, 0xb2b3, 0x4a44, 0x5bcd, 0x6956, 0x78df, 0x0c60, 0x1de9, 0x2f72, 0x3efb],
    [0xd68d, 0xc704, 0xf59f, 0xe416, 0x90a9, 0x8120, 0xb3bb, 0xa232, 0x5ac5, 0x4b4c, 0x79d7, 0x685e, 0x1ce1, 0x0d68, 0x3ff3, 0x2e7a],
    [0xe70e, 0xf687, 0xc41c, 0xd595, 0xa12a, 0xb0a3, 0x8238, 0x93b1, 0x6b46, 0x7acf, 0x4854, 0x59dd, 0x2d62, 0x3ceb, 0x0e70, 0x1ff9],
    [0xf78f, 0xe606, 0xd49d, 0xc514, 0xb1ab, 0xa022, 0x92b9, 0x8330, 0x7bc7, 0x6a4e, 0x58d5, 0x495c, 0x3de3, 0x2c6a, 0x1ef1, 0x0f78]
  ]

  function Entry(i: Byte): Word {
    TABLE[(i >> 4) as int][(i & 15) as int]
  }

  /** One byte of the loop. */
  function Update(c: Word, b: Byte): Word {
    Step(Entry, c, b)
  }

  method Compute(oldCrc: Word, buffer: array<Byte>, len: nat) returns (crc: Word)
    requires len <= buffer.Length
    ensures crc == Steps(Update, oldCrc, buffer[..len])
  {
    crc := Feed(Update, oldCrc, buffer, len);
    assert len == 0 ==> buffer[..len] == [];
  }

  // ----- The table -----

  /** The remainder of an index, computed on the register itself. */
  function Remainder(i: Byte): Word {
    Eight(POLY, Index(i))
  }

  lemma FirstRow()
    ensures TABLE[0] == LowIndexes(Remainder)
  {
  }

  lemma FirstColumn()
    ensures Column(TABLE) == HighIndexes(Remainder)
  {
  }

  lemma LowNibble(i: Byte)
    requires i & 0xF0 == 0
    ensures IsRemainder(Division(POLY), Index, Entry, i)
  {
    assert Entry(i) == Remainder(i) by {
      assert i >> 4 == 0;
      FirstRow();
      LowIndexAt(Remainder, i);
    }
    RunIsEight(POLY, Index(i));
  }

  lemma HighNibble(i: Byte)
    requires i & 0x0F == 0
    ensures IsRemainder(Division(POLY), Index, Entry, i)
  {
    assert Entry(i) == Remainder(i) by {
      assert i & 15 == 0;
      FirstColumn();
      HighIndexAt(Remainder, i);
    }
    RunIsEight(POLY, Index(i));
  }

  lemma Rows0()
    ensures FourRows(Xor, TABLE, 0)
  {
  }

  lemma Rows4()
    ensures FourRows(Xor, TABLE, 4)
  {
  }

  lemma Rows8()
    ensures FourRows(Xor, TABLE, 8)
  {
  }

  lemma Rows12()
    ensures FourRows(Xor, TABLE, 12)
  {
  }

  /** Every row is its first entry added to the first row. */
  lemma Rows()
    ensures FourRows(Xor, TABLE, 0) && FourRows(Xor, TABLE, 4) && FourRows(Xor, TABLE, 8) && FourRows(Xor, TABLE, 12)
  {
    assert FourRows(Xor, TABLE, 0) by { Rows0(); }
    assert FourRows(Xor, TABLE, 4) by { Rows4(); }
    assert FourRows(Xor, TABLE, 8) by { Rows8(); }
    assert FourRows(Xor, TABLE, 12) by { Rows12(); }
  }

  lemma EntrySplits(i: Byte)
    ensures Entry(i) == Xor(Entry(i & 0xF0), Entry(i & 0x0F))
  {
    Nibbles(i);
    Rows();
    EntryAdds(Xor, TABLE, (i >> 4) as int, (i & 15) as int);
  }

  /** Every literal of the table is the remainder of its own index. */
  lemma TableHoldsRemainders(i: Byte)
    ensures IsRemainder(Division(POLY), Index, Entry, i)
  {
    LowNibble(i & 0x0F);
    HighNibble(i & 0xF0);
    EntrySplits(i);
    EntryIsRemainder(POLY, Entry, i);
  }

  lemma UpdateDivides(c: Word, b: Byte)
    ensures Divides(Division(POLY), Update, ByteBits, c, b)
  {
    forall i ensures IsRemainder(Division(POLY), Index, Entry, i) { TableHoldsRemainders(i); }
    StepIsEightDivisions(POLY, Entry, c, b);
  }

  // ----- Main results -----

  /** The table-driven value is bit-at-a-time division, from every seed. */
  lemma ValueIsDivision(oldCrc: Word, buf: seq<Byte>)
    ensures Steps(Update, oldCrc, buf) == Division(POLY).Run(oldCrc, MessageBits(ByteBits, buf))
  {
    forall c, b ensures Divides(Division(POLY), Update, ByteBits, c, b) { UpdateDivides(c, b); }
    StepsDivide(Division(POLY), Update, ByteBits, oldCrc, buf);
  }

  lemma StepFits(c: Word, bit: bool)
    requires c & 0xFFFF_0000 == 0
    ensures Division(POLY).Step(c, bit) & 0xFFFF_0000 == 0
  {
  }

  lemma {:induction false} DivisionFits(c: Word, bits: seq<bool>)
    requires c & 0xFFFF_0000 == 0
    ensures Division(POLY).Run(c, bits) & 0xFFFF_0000 == 0
    decreases |bits|
  {
    if bits != [] {
      var n := |bits| - 1;
      DivisionFits(c, bits[..n]);
      StepFits(Division(POLY).Run(c, bits[..n]), bits[n]);
    }
  }

  /** A register that starts in 16 bits stays there. */
  lemma ValueFits(oldCrc: Word, buf: seq<Byte>)
    requires oldCrc & 0xFFFF_0000 == 0
    ensures Steps(Update, oldCrc, buf) & 0xFFFF_0000 == 0
  {
    ValueIsDivision(oldCrc, buf);
    DivisionFits(oldCrc, MessageBits(ByteBits, buf));
  }
}
