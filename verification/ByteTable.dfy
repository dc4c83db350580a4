/**
 A register that takes its message a byte at a time, through a table of 256 remainders kept
 as sixteen rows of sixteen.
 */
module ByteTable {
  import opened ShiftRegister
  import opened Words

  // ----- Messages -----

  function Steps<W>(step: (W, Byte) -> W, c: W, buf: seq<Byte>): W
    decreases |buf|
  {
    if buf == [] then c else step(Steps(step, c, buf[..|buf| - 1]), buf[|buf| - 1])
  }

  function MessageBits(bits: Byte -> seq<bool>, buf: seq<Byte>): seq<bool>
    decreases |buf|
  {
    if buf == [] then [] else MessageBits(bits, buf[..|buf| - 1]) + bits(buf[|buf| - 1])
  }

  /** The loop over a buffer that the three CRCs share. */
  method Feed<W>(step: (W, Byte) -> W, c: W, buf: array<Byte>, len: int) returns (r: W)
    requires len <= buf.Length
    ensures r == Steps(step, c, if len <= 0 then [] else buf[..len])
  {
    r := c;
    var p, left := 0, len;
    while left > 0
      invariant 0 <= p <= buf.Length && left == len - p
      invariant left >= 0 || p == 0
      invariant r == Steps(step, c, buf[..p])
    {
      assert buf[..p + 1][..p] == buf[..p];
      r := step(r, buf[p]);
      p, left := p + 1, left - 1;
    }
  }

  /** Feeding a message in pieces is feeding it whole. */
  lemma {:induction false} StepsAppend<W>(step: (W, Byte) -> W, c: W, a: seq<Byte>, b: seq<Byte>)
    ensures Steps(step, c, a + b) == Steps(step, Steps(step, c, a), b)
    decreases |b|
  {
    if b == [] {
      assert a + b == a;
    } else {
      StepsAppend(step, c, a, b[..|b| - 1]);
      assert (a + b)[..|a + b| - 1] == a + b[..|b| - 1];
    }
  }

  /** A register that is kept in another form between calls. */
  function Guarded<W>(enter: W -> W, leave: W -> W, step: (W, Byte) -> W, c: W, buf: seq<Byte>): W {
    leave(Steps(step, enter(c), buf))
  }

  lemma GuardedChains<W(!new)>(enter: W -> W, leave: W -> W, step: (W, Byte) -> W, c: W, a: seq<Byte>, b: seq<Byte>)
    requires forall x :: enter(leave(x)) == x
    ensures Guarded(enter, leave, step, Guarded(enter, leave, step, c, a), b) == Guarded(enter, leave, step, c, a + b)
  {
    StepsAppend(step, enter(c), a, b);
  }

  lemma StepsOfOne<W>(step: (W, Byte) -> W, c: W, b: Byte)
    ensures Steps(step, c, [b]) == step(c, b)
  {
    assert [b][..0] == [];
    assert Steps(step, c, [b][..0]) == c;
  }

  lemma StepsOfTwo<W>(step: (W, Byte) -> W, c: W, a: seq<Byte>)
    requires |a| == 2
    ensures Steps(step, c, a) == step(step(c, a[0]), a[1])
  {
    StepsOfOne(step, c, a[0]);
    assert a[..1] == [a[0]];
  }

  /** With the byte fixed, the step is injective in the register. */
  ghost predicate KeepsDifference<W>(step: (W, Byte) -> W, x: W, y: W, b: Byte) {
    step(x, b) == step(y, b) ==> x == y
  }

  lemma {:induction false} StepsKeepDifference<W(!new)>(step: (W, Byte) -> W, c: W, d: W, buf: seq<Byte>)
    requires forall x, y, b :: KeepsDifference(step, x, y, b)
    requires Steps(step, c, buf) == Steps(step, d, buf)
    ensures c == d
    decreases |buf|
  {
    if buf != [] {
      var n := |buf| - 1;
      assert KeepsDifference(step, Steps(step, c, buf[..n]), Steps(step, d, buf[..n]), buf[n]);
      StepsKeepDifference(step, c, d, buf[..n]);
    }
  }

  /** Equal ends lead to equal registers only from middles that do. */
  lemma MiddlesMeet<W(!new)>(step: (W, Byte) -> W, c: W, before: seq<Byte>, a: seq<Byte>, b: seq<Byte>, after: seq<Byte>)
    requires forall x, y, e :: KeepsDifference(step, x, y, e)
    requires Steps(step, c, before + a + after) == Steps(step, c, before + b + after)
    ensures Steps(step, Steps(step, c, before), a) == Steps(step, Steps(step, c, before), b)
  {
    StepsAppend(step, c, before + a, after);
    StepsAppend(step, c, before, a);
    StepsAppend(step, c, before + b, after);
    StepsAppend(step, c, before, b);
    var x := Steps(step, c, before);
    StepsKeepDifference(step, Steps(step, x, a), Steps(step, x, b), after);
  }

  /** A step that is the division of the bits of its byte. */
  ghost predicate Divides<W>(r: Register<W>, step: (W, Byte) -> W, bits: Byte -> seq<bool>, c: W, b: Byte) {
    step(c, b) == r.Run(c, bits(b))
  }

  /** A whole buffer through the table is the bit-by-bit division of its bits. */
  lemma {:induction false} StepsDivide<W(!new)>(r: Register<W>, step: (W, Byte) -> W, bits: Byte -> seq<bool>, c: W,
      buf: seq<Byte>)
    requires forall x, b :: Divides(r, step, bits, x, b)
    ensures Steps(step, c, buf) == r.Run(c, MessageBits(bits, buf))
    decreases |buf|
  {
    if buf != [] {
      var n := |buf| - 1;
      StepsDivide(r, step, bits, c, buf[..n]);
      assert Divides(r, step, bits, Steps(step, c, buf[..n]), buf[n]);
      RunAppends(r, c, MessageBits(bits, buf[..n]), bits(buf[n]));
    }
  }

  // ----- Tables -----

  /** The entry of `i` is the remainder of its index followed by eight zero bits. */
  ghost predicate IsRemainder<W>(r: Register<W>, index: Byte -> W, entry: Byte -> W, i: Byte) {
    entry(i) == r.Run(index(i), Zeros(8))
  }

  /** An entry that is the sum of the remainders of its two nibbles is a remainder. */
  lemma EntryFromNibbles<W(!new)>(r: Register<W>, index: Byte -> W, entry: Byte -> W, i: Byte, high: Byte, low: Byte)
    requires Lawful(r)
    requires IsRemainder(r, index, entry, high) && IsRemainder(r, index, entry, low)
    requires index(i) == r.add(index(high), index(low))
    requires entry(i) == r.add(entry(high), entry(low))
    ensures IsRemainder(r, index, entry, i)
  {
    RunSplits(r, index(i), index(high), index(low), Zeros(8), entry(high), entry(low));
  }

  /** A row of a table, each entry the sum of `x` and the entry above it. */
  function Sixteen<W>(add: (W, W) -> W, x: W, s: seq<W>): seq<W>
    requires |s| == 16
  {
    [add(x, s[0]), add(x, s[1]), add(x, s[2]), add(x, s[3]), add(x, s[4]), add(x, s[5]), add(x, s[6]), add(x, s[7]),
     add(x, s[8]), add(x, s[9]), add(x, s[10]), add(x, s[11]), add(x, s[12]), add(x, s[13]), add(x, s[14]), add(x, s[15])]
  }

  ghost predicate RowAdds<W>(add: (W, W) -> W, t: seq<seq<W>>, h: nat)
    requires h < |t|
  {
    |t[h]| == |t[0]| == 16 && t[h] == Sixteen(add, t[h][0], t[0])
  }

  ghost predicate FourRows<W>(add: (W, W) -> W, t: seq<seq<W>>, h: nat) {
    h + 4 <= |t| && RowAdds(add, t, h) && RowAdds(add, t, h + 1) && RowAdds(add, t, h + 2) && RowAdds(add, t, h + 3)
  }

  lemma SixteenAt<W>(add: (W, W) -> W, x: W, s: seq<W>, l: nat)
    requires |s| == 16 && l < 16
    ensures Sixteen(add, x, s)[l] == add(x, s[l])
  {
  }

  /** In a table whose rows add, every entry is the sum of those of its row and its column. */
  lemma EntryAdds<W>(add: (W, W) -> W, t: seq<seq<W>>, h: nat, l: nat)
    requires FourRows(add, t, 0) && FourRows(add, t, 4) && FourRows(add, t, 8) && FourRows(add, t, 12)
    requires h < 16 && l < 16
    ensures |t[h]| == |t[0]| == 16 && t[h][l] == add(t[h][0], t[0][l])
  {
    assert RowAdds(add, t, h);
    SixteenAt(add, t[h][0], t[0], l);
  }

  // A first row and a first column, entry by entry.

  function LowIndexes<W>(f: Byte -> W): seq<W> {
    [f(0x00), f(0x01), f(0x02), f(0x03), f(0x04), f(0x05), f(0x06), f(0x07),
     f(0x08), f(0x09), f(0x0A), f(0x0B), f(0x0C), f(0x0D), f(0x0E), f(0x0F)]
  }

  function HighIndexes<W>(f: Byte -> W): seq<W> {
    [f(0x00), f(0x10), f(0x20), f(0x30), f(0x40), f(0x50), f(0x60), f(0x70),
     f(0x80), f(0x90), f(0xA0), f(0xB0), f(0xC0), f(0xD0), f(0xE0), f(0xF0)]
  }

  function Column<W>(t: seq<seq<W>>): (s: seq<W>)
    requires |t| == 16 && forall h :: 0 <= h < 16 ==> t[h] != []
    ensures |s| == 16 && forall h :: 0 <= h < 16 ==> s[h] == t[h][0]
  {
    [t[0][0], t[1][0], t[2][0], t[3][0], t[4][0], t[5][0], t[6][0], t[7][0],
     t[8][0], t[9][0], t[10][0], t[11][0], t[12][0], t[13][0], t[14][0], t[15][0]]
  }

  lemma LowIndexAt<W>(f: Byte -> W, i: Byte)
    requires i & 0xF0 == 0
    ensures 0 <= (i & 15) as int < 16 && LowIndexes(f)[(i & 15) as int] == f(i)
  {
  }

  lemma HighIndexAt<W>(f: Byte -> W, i: Byte)
    requires i & 0x0F == 0
    ensures 0 <= (i >> 4) as int < 16 && HighIndexes(f)[(i >> 4) as int] == f(i)
  {
  }

  lemma Nibbles(i: Byte)
    ensures (i & 0xF0) >> 4 == i >> 4 && (i & 0xF0) & 15 == 0
    ensures (i & 0x0F) >> 4 == 0 && (i & 0x0F) & 15 == i & 15
  {
  }
}
