/**
 The allocation entries of common/dli.c as they lie on the medium: 12 packed little-endian
 bytes guarded by a CRC-16, and what is left of one when its write is cut short.
 */
module Fat {
  import opened Words
  import opened Wrappers
  import Crc16

  /** The fields of `FatEntry` that are not fixed by `fat_write`. */
  datatype Entry = Entry(counter: bv32, lastFile: bv16)

  const SLOT_SIZE := 12

  /** A slot of a store that was reset and never written. */
  const ERASED: seq<Byte> := [0xFF, 0xFF, 0xFF, 0xFF, 0xFF, 0xFF, 0xFF, 0xFF, 0xFF, 0xFF, 0xFF, 0xFF]

  function Word16(lo: Byte, hi: Byte): bv16 {
    (lo as bv16) | ((hi as bv16) << 8)
  }

  function Byte16(x: bv16, n: nat): Byte
    requires n < 2
  {
    if n == 0 then (x & 0xFF) as Byte else (x >> 8) as Byte
  }

  /** Tag 0x0FA7 and version 0. */
  const HEADER: seq<Byte> := [0xA7, 0x0F, 0, 0]

  function HalfBytes(f: bv16): seq<Byte> {
    [Byte16(f, 0), Byte16(f, 1)]
  }

  /** Everything the CRC covers. */
  function Body(e: Entry): seq<Byte> {
    HEADER + Bytes32(e.counter) + HalfBytes(e.lastFile)
  }

  /** `fat_write`: the bytes that go to the slot. */
  function Pack(e: Entry): seq<Byte> {
    var crc := Crc16.Value(Crc16.INIT_VAL, Body(e));
    Body(e) + HalfBytes(crc)
  }

  /** `fat_read`: the whole slot must be there, and tag, version and CRC must match. */
  function Read(s: seq<Byte>): Option<Entry> {
    if |s| != SLOT_SIZE then None
    else if Word16(s[0], s[1]) != 0x0FA7 then None
    else if Word16(s[2], s[3]) != 0 then None
    else if Crc16.Value(Crc16.INIT_VAL, s[..10]) != Word16(s[10], s[11]) then None
    else Some(Entry(Word32(s[4], s[5], s[6], s[7]), Word16(s[8], s[9])))
  }

  lemma Bytes16(x: bv16, lo: Byte, hi: Byte)
    ensures Word16(Byte16(x, 0), Byte16(x, 1)) == x
    ensures Word16(lo, hi) == x ==> lo == Byte16(x, 0) && hi == Byte16(x, 1)
  {
  }

  /** What `fat_write` writes, `fat_read` accepts and gives back. */
  lemma ReadPack(e: Entry)
    ensures Read(Pack(e)) == Some(e)
  {
    var crc := Crc16.Value(Crc16.INIT_VAL, Body(e));
    assert Pack(e)[..10] == Body(e);
    Bytes16(e.lastFile, 0, 0);
    Bytes16(crc, 0, 0);
    Word32RoundTrip(e.counter);
  }

  /** Where the fields lie: tag, version, counter, file and checksum, each with its low byte first. */
  lemma PackLayout(e: Entry)
    ensures var s := Pack(e);
            && |s| == 12 && s[0] == 0xA7 && s[1] == 0x0F && s[2] == 0 && s[3] == 0
            && s[4] == (e.counter & 0xFF) as Byte && s[5] == ((e.counter >> 8) & 0xFF) as Byte
            && s[6] == ((e.counter >> 16) & 0xFF) as Byte && s[7] == (e.counter >> 24) as Byte
            && s[8] == (e.lastFile & 0xFF) as Byte && s[9] == (e.lastFile >> 8) as Byte
            && s[10] == (Crc16.Value(0, s[..10]) & 0xFF) as Byte && s[11] == (Crc16.Value(0, s[..10]) >> 8) as Byte
  {
    assert Pack(e)[..10] == Body(e);
  }

  // ----- Interrupted writes -----

  /** The slot after the first `k` bytes of a write of `written` over `s`. */
  function Torn(written: seq<Byte>, s: seq<Byte>, k: nat): (t: seq<Byte>)
    requires k <= |written| == |s|
    ensures |t| == |s|
  {
    written[..k] + s[k..]
  }

  /** The low bytes when adding one or two to a counter carries out of both of them. */
  ghost predicate CarriesOut(a: Byte, b: Byte, c: Byte, d: Byte) {
    b == 0xFF && d == 0 && ((a == 0xFE && c == 0) || (a == 0xFF && c == 1) || (a == 0xFF && c == 0))
  }

  /** How adding one or two to a little-endian counter `c` carries from byte to byte, giving `n`. */
  ghost predicate CarriesTo(c: seq<Byte>, n: seq<Byte>) {
    && |c| == |n| == 4 && n[0] != c[0]
    && (|| (n[2] == c[2] && n[3] == c[3])
        || (&& CarriesOut(c[0], c[1], n[0], n[1]) && n[2] == c[2] + 1
            && (n[3] == c[3] || (c[2] == 0xFF && n[3] == c[3] + 1))))
  }

  lemma CarryOfOne(c: bv32)
    ensures CarriesTo(Bytes32(c), Bytes32(c + 1))
  {
  }

  lemma CarryOfTwo(c: bv32)
    ensures CarriesTo(Bytes32(c), Bytes32(c + 1 + 1))
  {
  }

  lemma HeaderValue()
    ensures Crc16.Value(0, HEADER) == 0x976A
  {
    var a, b, c := [0xA7 as Byte], [0xA7 as Byte, 0x0F], [0xA7 as Byte, 0x0F, 0];
    Crc16.ValueOfOne(0, 0xA7);
    assert b == a + [0x0F];
    Crc16.ValueChains(0, a, [0x0F]);
    Crc16.ValueOfOne(Crc16.Value(0, a), 0x0F);
    assert c == b + [0];
    Crc16.ValueChains(0, b, [0]);
    Crc16.ValueOfOne(Crc16.Value(0, b), 0);
    assert HEADER == c + [0];
    Crc16.ValueChains(0, c, [0]);
    Crc16.ValueOfOne(Crc16.Value(0, c), 0);
  }

  /** The CRC of a header, two bytes and the rest. */
  lemma ValueOfBody(a: Byte, b: Byte, rest: seq<Byte>)
    ensures Crc16.Value(0, HEADER + [a, b] + rest) ==
            Crc16.Value(Crc16.Step(Crc16.Folded, Crc16.Step(Crc16.Folded, 0x976A, a), b), rest)
  {
    HeaderValue();
    Crc16.ValueChains(0, HEADER + [a, b], rest);
    Crc16.ValueChains(0, HEADER, [a, b]);
    assert [a, b] == [a] + [b];
    Crc16.ValueChains(0x976A, [a], [b]);
    Crc16.ValueOfOne(0x976A, a);
    Crc16.ValueOfOne(Crc16.Step(Crc16.Folded, 0x976A, a), b);
  }

  /** The registers after the two low counter bytes, before and after a carry out of them. */
  ghost predicate Carried(x: bv16, y: bv16) {
    (x == 0x62AE && y == 0x4C90) || (x == 0x519F && y == 0x7FA1) || (x == 0x519F && y == 0x4C90)
  }

  lemma CarryRegisters()
    ensures Crc16.Step(Crc16.Folded, Crc16.Step(Crc16.Folded, 0x976A, 0xFE), 0xFF) == 0x62AE
    ensures Crc16.Step(Crc16.Folded, Crc16.Step(Crc16.Folded, 0x976A, 0x00), 0x00) == 0x4C90
    ensures Crc16.Step(Crc16.Folded, Crc16.Step(Crc16.Folded, 0x976A, 0xFF), 0xFF) == 0x519F
    ensures Crc16.Step(Crc16.Folded, Crc16.Step(Crc16.Folded, 0x976A, 0x01), 0x00) == 0x7FA1
  {
  }

  lemma ThirdByteTells(x: bv16, y: bv16, b: Byte)
    requires Carried(x, y)
    ensures Crc16.Step(Crc16.Folded, x, b) != Crc16.Step(Crc16.Folded, y, b + 1)
  {
  }

  lemma FourthByteTells(x: bv16, y: bv16, b: Byte)
    requires Carried(x, y)
    ensures Crc16.Step(Crc16.Folded, Crc16.Step(Crc16.Folded, x, 0xFF), b) !=
            Crc16.Step(Crc16.Folded, Crc16.Step(Crc16.Folded, y, 0), b + 1)
  {
  }

  /** A difference confined to the two low counter bytes. */
  lemma LowBytesTell(a: Byte, b: Byte, c: Byte, d: Byte, rest: seq<Byte>)
    requires [a, b] != [c, d]
    ensures Crc16.Value(0, HEADER + [a, b] + rest) != Crc16.Value(0, HEADER + [c, d] + rest)
  {
    Crc16.BurstIsDetected(0, HEADER, [a, b], [c, d], rest);
  }

  /** A carry into the third counter byte, and on into the fourth. */
  lemma CarryTells(a: Byte, b: Byte, c: Byte, d: Byte, r: Byte, rest: seq<Byte>)
    requires CarriesOut(a, b, c, d)
    ensures Crc16.Value(0, HEADER + [a, b] + ([r] + rest)) != Crc16.Value(0, HEADER + [c, d] + ([r + 1] + rest))
  {
    var x := Crc16.Step(Crc16.Folded, Crc16.Step(Crc16.Folded, 0x976A, a), b);
    var y := Crc16.Step(Crc16.Folded, Crc16.Step(Crc16.Folded, 0x976A, c), d);
    CarryRegisters();
    ValueOfBody(a, b, [r] + rest);
    ValueOfBody(c, d, [r + 1] + rest);
    Crc16.ValueChains(x, [r], rest);
    Crc16.ValueChains(y, [r + 1], rest);
    Crc16.ValueOfOne(x, r);
    Crc16.ValueOfOne(y, r + 1);
    ThirdByteTells(x, y, r);
    Crc16.ValueKeepsDifference(Crc16.Value(x, [r]), Crc16.Value(y, [r + 1]), rest);
  }

  lemma LongCarryTells(a: Byte, b: Byte, c: Byte, d: Byte, s: Byte, rest: seq<Byte>)
    requires CarriesOut(a, b, c, d)
    ensures Crc16.Value(0, HEADER + [a, b] + ([0xFF] + ([s] + rest)))
         != Crc16.Value(0, HEADER + [c, d] + ([0] + ([s + 1] + rest)))
  {
    var x := Crc16.Step(Crc16.Folded, Crc16.Step(Crc16.Folded, 0x976A, a), b);
    var y := Crc16.Step(Crc16.Folded, Crc16.Step(Crc16.Folded, 0x976A, c), d);
    CarryRegisters();
    ValueOfBody(a, b, [0xFF] + ([s] + rest));
    ValueOfBody(c, d, [0] + ([s + 1] + rest));
    Crc16.ValueChains(x, [0xFF], [s] + rest);
    Crc16.ValueChains(y, [0], [s + 1] + rest);
    Crc16.ValueOfOne(x, 0xFF);
    Crc16.ValueOfOne(y, 0);
    var x', y' := Crc16.Value(x, [0xFF]), Crc16.Value(y, [0]);
    Crc16.ValueChains(x', [s], rest);
    Crc16.ValueChains(y', [s + 1], rest);
    Crc16.ValueOfOne(x', s);
    Crc16.ValueOfOne(y', s + 1);
    FourthByteTells(x, y, s);
    Crc16.ValueKeepsDifference(Crc16.Value(x', [s]), Crc16.Value(y', [s + 1]), rest);
  }

  /** A counter field that is part old and part new never passes the CRC of the old entry. */
  lemma TornCounterIsSeen(c: seq<Byte>, n: seq<Byte>, k: nat, file: seq<Byte>)
    requires CarriesTo(c, n) && 0 < k <= 4
    ensures Crc16.Value(0, HEADER + (n[..k] + c[k..]) + file) != Crc16.Value(0, HEADER + c + file)
  {
    var t := n[..k] + c[k..];
    assert HEADER + c + file == HEADER + [c[0], c[1]] + ([c[2], c[3]] + file);
    assert HEADER + t + file == HEADER + [t[0], t[1]] + ([t[2], t[3]] + file);
    if t[2] == c[2] && t[3] == c[3] {
      LowBytesTell(t[0], t[1], c[0], c[1], [c[2], c[3]] + file);
    } else if t[3] == c[3] {
      assert [c[2], c[3]] + file == [c[2]] + ([c[3]] + file);
      assert [t[2], t[3]] + file == [c[2] + 1] + ([c[3]] + file);
      CarryTells(c[0], c[1], n[0], n[1], c[2], [c[3]] + file);
    } else {
      assert [c[2], c[3]] + file == [0xFF] + ([c[3]] + file);
      assert [t[2], t[3]] + file == [0] + ([c[3] + 1] + file);
      LongCarryTells(c[0], c[1], n[0], n[1], c[3], file);
    }
  }

  /** The entry one set later, were it to go into the same slot. */
  function Later(e: Entry): Entry {
    e.(counter := e.counter + 1)
  }

  /** The entry two sets later, which does. */
  function Next(e: Entry): Entry {
    Later(Later(e))
  }

  /** `n` follows `e` in the same slot: two sets later, or one if the set between them did not get that far. */
  ghost predicate Follows(e: Entry, n: Entry) {
    n == Next(e) || n == Later(e)
  }

  /** Where a cut inside the counter, or right behind it, leaves the other fields. */
  lemma TornFields(c: seq<Byte>, n: seq<Byte>, file: seq<Byte>, crc: seq<Byte>, later: seq<Byte>, k: nat)
    requires |c| == |n| == 4 && |file| == |crc| == |later| == 2 && 4 <= k <= 10
    ensures var t := Torn(HEADER + n + file + later, HEADER + c + file + crc, k);
            var j := if k <= 8 then k - 4 else 4;
            t[..10] == HEADER + (n[..j] + c[j..]) + file && t[10..] == crc
  {
  }

  lemma FollowsCarries(e: Entry, n: Entry)
    requires Follows(e, n)
    ensures CarriesTo(Bytes32(e.counter), Bytes32(n.counter)) && n.lastFile == e.lastFile
  {
    if n == Next(e) {
      CarryOfTwo(e.counter);
    } else {
      CarryOfOne(e.counter);
    }
  }

  lemma TornCounterIsRejected(c: seq<Byte>, n: seq<Byte>, file: seq<Byte>, crc: bv16, later: seq<Byte>, k: nat)
    requires CarriesTo(c, n) && |file| == |later| == 2 && crc == Crc16.Value(0, HEADER + c + file) && 4 < k <= 10
    ensures Read(Torn(HEADER + n + file + later, HEADER + c + file + HalfBytes(crc), k)) == None
  {
    var t := Torn(HEADER + n + file + later, HEADER + c + file + HalfBytes(crc), k);
    TornCounterIsSeen(c, n, if k <= 8 then k - 4 else 4, file);
    TornFields(c, n, file, HalfBytes(crc), later, k);
    Bytes16(crc, t[10], t[11]);
    assert t[10..] == HalfBytes(crc);
    assert t[10] == t[10..][0] && t[11] == t[10..][1];
  }

  lemma TornInCounter(e: Entry, n: Entry, k: nat)
    requires Follows(e, n) && 4 < k <= 10
    ensures Read(Torn(Pack(n), Pack(e), k)) == None
  {
    FollowsCarries(e, n);
    TornCounterIsRejected(Bytes32(e.counter), Bytes32(n.counter), HalfBytes(e.lastFile), Crc16.Value(0, Body(e)),
                          HalfBytes(Crc16.Value(0, Body(n))), k);
  }

  lemma TornInCrc(e: Entry, n: Entry)
    ensures var t := Torn(Pack(n), Pack(e), 11);
            Read(t) == None || t == Pack(n)
  {
    var t := Torn(Pack(n), Pack(e), 11);
    assert t[..10] == Body(n);
    Bytes16(Crc16.Value(0, Body(n)), t[10], t[11]);
  }

  /**
   A write of a following entry over the present one, cut after any number of bytes, leaves the
   present entry, or the following one, or a slot that `fat_read` rejects.
   */
  lemma TornOverOlder(e: Entry, n: Entry, k: nat)
    requires Follows(e, n) && k <= SLOT_SIZE
    ensures var t := Torn(Pack(n), Pack(e), k);
            Read(t) == None || t == Pack(n) || t == Pack(e)
  {
    var t := Torn(Pack(n), Pack(e), k);
    if k <= 4 {
      assert t == Pack(e);
    } else if k <= 10 {
      TornInCounter(e, n, k);
    } else if k == 11 {
      TornInCrc(e, n);
    } else {
      assert t == Pack(n);
    }
  }

  // ----- Writes into erased slots -----

  function FoldSix(b4: Byte, b5: Byte, b6: Byte, b7: Byte, b8: Byte, b9: Byte): bv16 {
    var f := Crc16.Folded;
    Crc16.Step(f, Crc16.Step(f, Crc16.Step(f, Crc16.Step(f, Crc16.Step(f, Crc16.Step(f, 0x976A, b4), b5), b6), b7), b8), b9)
  }

  lemma ValueOfFirst(c: bv16, b: Byte, rest: seq<Byte>)
    ensures Crc16.Value(c, [b] + rest) == Crc16.Value(Crc16.Step(Crc16.Folded, c, b), rest)
  {
    Crc16.ValueChains(c, [b], rest);
    Crc16.ValueOfOne(c, b);
  }

  lemma ValueOfSix(b4: Byte, b5: Byte, b6: Byte, b7: Byte, b8: Byte, b9: Byte)
    ensures Crc16.Value(0, HEADER + [b4, b5] + ([b6] + ([b7] + ([b8] + [b9])))) == FoldSix(b4, b5, b6, b7, b8, b9)
  {
    var r := Crc16.Step(Crc16.Folded, Crc16.Step(Crc16.Folded, 0x976A, b4), b5);
    ValueOfBody(b4, b5, [b6] + ([b7] + ([b8] + [b9])));
    ValueOfFirst(r, b6, [b7] + ([b8] + [b9]));
    var r1 := Crc16.Step(Crc16.Folded, r, b6);
    ValueOfFirst(r1, b7, [b8] + [b9]);
    var r2 := Crc16.Step(Crc16.Folded, r1, b7);
    ValueOfFirst(r2, b8, [b9]);
    Crc16.ValueOfOne(Crc16.Step(Crc16.Folded, r2, b8), b9);
  }

  /**
   `k` bytes of an entry with erased bytes behind them pass for an entry although they are not
   the whole of it: the checksum of what is there happens to be the one of erased bytes.
   */
  predicate Misread(e: Entry, k: nat) {
    && 4 <= k < 10 && Torn(Pack(e), ERASED, k) != Pack(e)
    && Crc16.Value(0, Torn(Pack(e), ERASED, k)[..10]) == 0xFFFF
  }

  /** The bytes when `k` bytes of an entry reached an erased slot. */
  lemma ErasedBehind(w: seq<Byte>, first: seq<Byte>, crc: seq<Byte>, k: nat)
    requires |first| == 6 && |crc| == 2 && w == HEADER + first + crc && 4 <= k < 10
    ensures var t := Torn(w, ERASED, k);
            && t[..4] == HEADER && t[9] == t[10] == t[11] == 0xFF
            && forall i :: 0 <= i < 6 ==> t[4 + i] == if 4 + i < k then first[i] else 0xFF
  {
    var t := Torn(w, ERASED, k);
    assert t[..4] == w[..4] == HEADER;
    forall i | 0 <= i < 6 ensures t[4 + i] == if 4 + i < k then first[i] else 0xFF {
      assert w[4 + i] == first[i];
    }
  }

  lemma PackIs(e: Entry, first: seq<Byte>)
    requires |first| == 6 && Body(e) == HEADER + first
    ensures Pack(e) == HEADER + first + HalfBytes(Crc16.Value(0, Body(e)))
  {
  }

  lemma ReadErasedCrc(t: seq<Byte>)
    requires |t| == SLOT_SIZE && t[..4] == HEADER && t[9] == t[10] == t[11] == 0xFF
    ensures Read(t) == if Crc16.Value(0, t[..10]) == 0xFFFF
                       then Some(Entry(Word32(t[4], t[5], t[6], t[7]), Word16(t[8], 0xFF))) else None
  {
    assert t[0] == 0xA7 && t[1] == 0x0F && t[2] == 0 && t[3] == 0 by {
      assert t[..4][0] == 0xA7 && t[..4][1] == 0x0F && t[..4][2] == 0 && t[..4][3] == 0;
    }
    HeaderWords();
  }

  lemma HeaderWords()
    ensures Word16(0xFF, 0xFF) == 0xFFFF && Word16(0xA7, 0x0F) == 0x0FA7 && Word16(0, 0) == 0
  {
  }

  lemma ErasedHighByte(lo: Byte)
    ensures Word16(lo, 0xFF) != 0 && Word16(lo, 0xFF) != 1
  {
  }

  /**
   A write of any entry into an erased slot, cut anywhere, leaves a rejected slot or the whole
   entry, if and only if it is not misread. What is misread names no file.
   */
  lemma TornOverErased(e: Entry, k: nat)
    requires k <= SLOT_SIZE
    ensures var t := Torn(Pack(e), ERASED, k);
            && (Read(t) == None || t == Pack(e) <==> !Misread(e, k))
            && (Misread(e, k) ==> Read(t).Some? && Read(t).value.lastFile != 0 && Read(t).value.lastFile != 1)
  {
    var t := Torn(Pack(e), ERASED, k);
    if k < 4 {
      assert t[3] == 0xFF;
      assert Word16(t[2], t[3]) != 0;
    } else if k < 10 {
      var first := Bytes32(e.counter) + HalfBytes(e.lastFile);
      assert Body(e) == HEADER + first;
      PackIs(e, first);
      ErasedBehind(Pack(e), first, HalfBytes(Crc16.Value(0, Body(e))), k);
      ReadErasedCrc(t);
      ErasedHighByte(t[8]);
    } else if k < SLOT_SIZE {
      assert t[..10] == Body(e);
      Bytes16(Crc16.Value(0, Body(e)), t[10], t[11]);
    } else {
      assert t == Pack(e);
    }
  }

  /**
   The entries written into a slot that was never written: counter 1 into slot 1 and counter 2
   into slot 0, or counter 1 into slot 0 after a set that failed.
   */
  ghost predicate IsFirst(e: Entry) {
    e == Entry(1, 1) || e == Entry(2, 0) || e == Entry(1, 0)
  }

  lemma FirstBody(e: Entry)
    requires IsFirst(e)
    ensures Body(e) == HEADER + [if e.counter == 1 then 1 else 2, 0, 0, 0, if e.lastFile == 1 then 1 else 0, 0]
  {
  }

  lemma ErasedTails()
    ensures FoldSix(0xFF, 0xFF, 0xFF, 0xFF, 0xFF, 0xFF) != 0xFFFF
    ensures FoldSix(1, 0xFF, 0xFF, 0xFF, 0xFF, 0xFF) != 0xFFFF && FoldSix(2, 0xFF, 0xFF, 0xFF, 0xFF, 0xFF) != 0xFFFF
    ensures FoldSix(1, 0, 0xFF, 0xFF, 0xFF, 0xFF) != 0xFFFF && FoldSix(2, 0, 0xFF, 0xFF, 0xFF, 0xFF) != 0xFFFF
    ensures FoldSix(1, 0, 0, 0xFF, 0xFF, 0xFF) != 0xFFFF && FoldSix(2, 0, 0, 0xFF, 0xFF, 0xFF) != 0xFFFF
    ensures FoldSix(1, 0, 0, 0, 0xFF, 0xFF) != 0xFFFF && FoldSix(2, 0, 0, 0, 0xFF, 0xFF) != 0xFFFF
    ensures FoldSix(1, 0, 0, 0, 1, 0xFF) != 0xFFFF && FoldSix(1, 0, 0, 0, 0, 0xFF) != 0xFFFF
    ensures FoldSix(2, 0, 0, 0, 0, 0xFF) != 0xFFFF
  {
  }

  lemma ValueOfTen(s: seq<Byte>)
    requires |s| == 10 && s[..4] == HEADER
    ensures Crc16.Value(0, s) == FoldSix(s[4], s[5], s[6], s[7], s[8], s[9])
  {
    assert s == HEADER + [s[4], s[5]] + ([s[6]] + ([s[7]] + ([s[8]] + [s[9]])));
    ValueOfSix(s[4], s[5], s[6], s[7], s[8], s[9]);
  }

  /** The checksum of what `k` bytes of an entry leave in an erased slot. */
  lemma TornErasedValue(e: Entry, f: seq<Byte>, k: nat)
    requires |f| == 6 && Body(e) == HEADER + f && 4 <= k < 10
    ensures Crc16.Value(0, Torn(Pack(e), ERASED, k)[..10]) ==
            FoldSix(if 4 < k then f[0] else 0xFF, if 5 < k then f[1] else 0xFF, if 6 < k then f[2] else 0xFF,
                    if 7 < k then f[3] else 0xFF, if 8 < k then f[4] else 0xFF, 0xFF)
  {
    var t := Torn(Pack(e), ERASED, k);
    PackIs(e, f);
    ErasedBehind(Pack(e), f, HalfBytes(Crc16.Value(0, Body(e))), k);
    assert t[..10][..4] == t[..4];
    assert t[4 + 0] == t[4] && t[4 + 1] == t[5] && t[4 + 2] == t[6] && t[4 + 3] == t[7] && t[4 + 4] == t[8];
    ValueOfTen(t[..10]);
  }

  lemma FirstIsNotMisread(e: Entry, k: nat)
    requires IsFirst(e)
    ensures !Misread(e, k)
  {
    if 4 <= k < 10 {
      FirstBody(e);
      var first := [if e.counter == 1 then 1 else 2, 0, 0, 0, if e.lastFile == 1 then 1 else 0, 0];
      TornErasedValue(e, first, k);
      ErasedTails();
    }
  }

  /** Counter 0x7832 with eight bytes written is taken for an entry of file 0xFFFF. */
  lemma SomeCounterIsMisread()
    ensures Misread(Entry(0x7832, 1), 8)
  {
    var (e, first) := (Entry(0x7832, 1), [0x32 as Byte, 0x78, 0, 0, 1, 0]);
    assert Body(e) == HEADER + first;
    TornErasedValue(e, first, 8);
    assert FoldSix(0x32, 0x78, 0, 0, 0xFF, 0xFF) == 0xFFFF;
    assert Torn(Pack(e), ERASED, 8)[8] == 0xFF && Pack(e)[8] == 1;
  }

  lemma ReadErased()
    ensures Read(ERASED) == None
  {
    assert Word16(0xFF, 0xFF) != 0x0FA7;
  }
}
