/**
 From the firmware packer to the jump: create-firmware-header.py lays out an image with its
 length and tag-seeded CRC, boot/main.c checks what is in flash and starts only that.
 */
module Firmware {
  import opened ByteTable
  import opened Reflected
  import opened Sequences
  import opened Words
  import Crc32

  const MIN_SIZE: nat := 8192
  const HEADER: nat := 8

  /** "kk348" and "kk0000"; the third tag is the board's own. */
  const OLD_TAG: seq<Byte> := [0x6B, 0x6B, 0x33, 0x34, 0x38]
  const ANY_TAG: seq<Byte> := [0x6B, 0x6B, 0x30, 0x30, 0x30, 0x30]

  // ----- Header fields, little-endian -----

  /** The byte of value `n`. */
  function Counted(n: nat): Byte
    requires n < 256
  {
    if n == 0 then 0 else Counted(n - 1) + 1
  }

  lemma Increments(b: Byte)
    requires b != 255
    ensures (b + 1) as int == b as int + 1
  {
  }

  lemma Equal(a: Byte, b: Byte)
    ensures a as int == b as int <==> a == b
  {
  }

  lemma {:induction false} CountedIs(n: nat)
    requires n < 256
    ensures Counted(n) as int == n
  {
    if n > 0 {
      CountedIs(n - 1);
      Equal(Counted(n - 1), 255);
      Increments(Counted(n - 1));
    }
  }

  function ByteOf(n: nat): Byte {
    Counted(n % 256)
  }

  function LittleEndian(n: nat, k: nat): (s: seq<Byte>)
    ensures |s| == k
    decreases k
  {
    if k == 0 then [] else [ByteOf(n)] + LittleEndian(n / 256, k - 1)
  }

  function Number(s: seq<Byte>): nat
    decreases |s|
  {
    if s == [] then 0 else s[0] as int + 256 * Number(s[1..])
  }

  function Limit(k: nat): nat {
    if k == 0 then 1 else 256 * Limit(k - 1)
  }

  lemma {:induction false} NumberRoundTrip(n: nat, k: nat)
    requires n < Limit(k)
    ensures Number(LittleEndian(n, k)) == n
    decreases k
  {
    if k > 0 {
      NumberRoundTrip(n / 256, k - 1);
      CountedIs(n % 256);
      assert LittleEndian(n, k)[1..] == LittleEndian(n / 256, k - 1);
    }
  }

  function CrcOf(s: seq<Byte>): Word
    requires |s| == 4
  {
    Word32(s[0], s[1], s[2], s[3])
  }

  lemma CrcRoundTrip(c: Word)
    ensures CrcOf(Bytes32(c)) == c
  {
    Word32RoundTrip(c);
  }

  // ----- What may be started -----

  function Image(flash: seq<Byte>): seq<Byte>
    requires HEADER <= |flash| && HEADER + Number(flash[..4]) <= |flash|
  {
    flash[HEADER..HEADER + Number(flash[..4])]
  }

  /** The stored CRC is the CRC-32 of section 8 of RFC 1952 over the tag and then the image. */
  ghost predicate Signed(flash: seq<Byte>, tag: seq<Byte>)
    requires HEADER <= |flash| && HEADER + Number(flash[..4]) <= |flash|
  {
    CrcOf(flash[4..8]) == Crc32.Reference(tag + Image(flash))
  }

  predicate SizeAllowed(n: nat, maxSize: nat) {
    MIN_SIZE <= n <= maxSize
  }

  ghost predicate Genuine(flash: seq<Byte>, tag: seq<Byte>, maxSize: nat)
    requires HEADER <= |flash|
  {
    && SizeAllowed(Number(flash[..4]), maxSize) && HEADER + Number(flash[..4]) <= |flash|
    && (Signed(flash, OLD_TAG) || Signed(flash, tag) || Signed(flash, ANY_TAG))
  }

  /** The size is allowed but the image would run past the end of flash. */
  predicate Overruns(flash: seq<Byte>, maxSize: nat)
    requires HEADER <= |flash|
  {
    SizeAllowed(Number(flash[..4]), maxSize) && |flash| < HEADER + Number(flash[..4])
  }

  /**
   The largest allowed size is the whole flash, header included, so the eight largest allowed sizes
   are exactly the ones the read loop cannot finish.
   */
  lemma LargestSizesOverrun(flash: seq<Byte>)
    requires MIN_SIZE + HEADER <= |flash|
    ensures Overruns(flash, |flash|) <==> |flash| - HEADER < Number(flash[..4]) <= |flash|
  {
  }

  // ----- `crcCheckOk` -----

  datatype Verdict = Accepted | Rejected | Halted

  /** `kfile_read`: as many of `n` bytes as there are. */
  method ReadInto(flash: seq<Byte>, pos: nat, buf: array<Byte>, n: nat) returns (rd: nat)
    requires pos <= |flash| && n <= buf.Length
    modifies buf
    ensures rd == if n < |flash| - pos then n else |flash| - pos
    ensures buf[..rd] == flash[pos..pos + rd]
  {
    rd := if n < |flash| - pos then n else |flash| - pos;
    for i := 0 to rd
      invariant buf[..i] == flash[pos..pos + i]
    {
      buf[i] := flash[pos + i];
    }
  }

  /** `sum` gives the CRC of a whole message. */
  ghost predicate IsCrc(sum: seq<Byte> -> Word) {
    forall m {:trigger Crc32.Value(m, 0)} :: sum(m) == Crc32.Value(m, 0)
  }

  /** A running CRC over a tag and the image read so far. */
  ghost predicate Running(sum: seq<Byte> -> Word, crc: Word, tag: seq<Byte>, flash: seq<Byte>, pos: nat) {
    HEADER <= pos <= |flash| && crc == sum(tag + flash[HEADER..pos])
  }

  method Begin(ghost sum: seq<Byte> -> Word, tag: seq<Byte>, ghost flash: seq<Byte>) returns (crc: Word)
    requires IsCrc(sum) && HEADER <= |flash|
    ensures Running(sum, crc, tag, flash, HEADER)
  {
    var a := new Byte[|tag|](i requires 0 <= i < |tag| => tag[i]);
    assert a[..] == a[..|tag|] == tag;
    assert tag + flash[HEADER..HEADER] == tag;
    crc := Crc32.Compute(a, |tag|, 0);
    assert crc == Crc32.Value(tag, 0);
  }

  method Chunk(ghost sum: seq<Byte> -> Word, crc: Word, ghost tag: seq<Byte>, ghost flash: seq<Byte>,
               ghost pos: nat, ghost end: nat, buf: array<Byte>, n: nat) returns (next: Word)
    requires IsCrc(sum) && Running(sum, crc, tag, flash, pos)
    requires n <= buf.Length && end == pos + n <= |flash| && buf[..n] == flash[pos..end]
    ensures Running(sum, next, tag, flash, end)
  {
    ghost var before, after := tag + flash[HEADER..pos], tag + flash[HEADER..end];
    assert after == before + buf[..n];
    assert crc == Crc32.Value(before, 0);
    Crc32.ValueResumes(before, buf[..n], after, 0);
    next := Crc32.Compute(buf, n, crc);
  }

  /** The three CRCs that `crcCheckOk` carries along. */
  datatype Crcs = Crcs(oldTag: Word, ownTag: Word, anyTag: Word)

  ghost predicate AllRunning(sum: seq<Byte> -> Word, c: Crcs, tag: seq<Byte>, flash: seq<Byte>, pos: nat) {
    && Running(sum, c.oldTag, OLD_TAG, flash, pos)
    && Running(sum, c.ownTag, tag, flash, pos)
    && Running(sum, c.anyTag, ANY_TAG, flash, pos)
  }

  method ChunkAll(ghost sum: seq<Byte> -> Word, c: Crcs, tag: seq<Byte>, flash: seq<Byte>,
                  pos: nat, buf: array<Byte>, n: nat) returns (next: Crcs, end: nat)
    requires IsCrc(sum) && AllRunning(sum, c, tag, flash, pos)
    requires n <= buf.Length && pos + n <= |flash| && buf[..n] == flash[pos..pos + n]
    ensures end == pos + n && AllRunning(sum, next, tag, flash, end)
  {
    end := pos + n;
    var oldTag := Chunk(sum, c.oldTag, OLD_TAG, flash, pos, end, buf, n);
    var ownTag := Chunk(sum, c.ownTag, tag, flash, pos, end, buf, n);
    var anyTag := Chunk(sum, c.anyTag, ANY_TAG, flash, pos, end, buf, n);
    next := Crcs(oldTag, ownTag, anyTag);
  }

  method BeginAll(ghost sum: seq<Byte> -> Word, tag: seq<Byte>, ghost flash: seq<Byte>) returns (c: Crcs)
    requires IsCrc(sum) && HEADER <= |flash|
    ensures AllRunning(sum, c, tag, flash, HEADER)
  {
    var oldTag := Begin(sum, OLD_TAG, flash);
    var ownTag := Begin(sum, tag, flash);
    var anyTag := Begin(sum, ANY_TAG, flash);
    c := Crcs(oldTag, ownTag, anyTag);
  }

  /** The read loop of `crcCheckOk`; a short read trips its assertion. */
  method Scan(ghost sum: seq<Byte> -> Word, flash: seq<Byte>, tag: seq<Byte>, size: nat, chunk: nat)
    returns (whole: bool, pos: nat, c: Crcs)
    requires IsCrc(sum) && HEADER <= |flash| && chunk > 0
    ensures whole <==> HEADER + size <= |flash|
    ensures whole ==> pos == HEADER + size && AllRunning(sum, c, tag, flash, pos)
  {
    c := BeginAll(sum, tag, flash);
    var buf := new Byte[chunk];
    pos := HEADER;
    var left := size;
    while left > 0
      invariant 0 <= left && pos + left == HEADER + size
      invariant AllRunning(sum, c, tag, flash, pos)
    {
      var bytes := if left < chunk then left else chunk;
      var rd := ReadInto(flash, pos, buf, bytes);
      if rd != bytes {
        return false, pos, c;
      }
      c, pos := ChunkAll(sum, c, tag, flash, pos, buf, rd);
      left := left - rd;
    }
    whole := true;
  }

  /** `crcCheckOk`, with a buffer of `chunk` bytes. */
  method Check(flash: seq<Byte>, tag: seq<Byte>, maxSize: nat, chunk: nat) returns (v: Verdict)
    requires HEADER <= |flash| && chunk > 0
    ensures v.Accepted? <==> Genuine(flash, tag, maxSize)
    ensures v.Halted? <==> Overruns(flash, maxSize)
  {
    var size := Number(flash[..4]);
    var stored := CrcOf(flash[4..8]);
    if size > maxSize || size < MIN_SIZE {
      return Rejected;
    }
    ghost var sum := m => Crc32.Value(m, 0);
    var whole, pos, c := Scan(sum, flash, tag, size, chunk);
    if !whole {
      return Halted;
    }
    RunningSigns(sum, c.oldTag, OLD_TAG, flash, pos);
    RunningSigns(sum, c.ownTag, tag, flash, pos);
    RunningSigns(sum, c.anyTag, ANY_TAG, flash, pos);
    v := if c.oldTag == stored || c.ownTag == stored || c.anyTag == stored then Accepted else Rejected;
  }

  lemma RunningSigns(sum: seq<Byte> -> Word, crc: Word, tag: seq<Byte>, flash: seq<Byte>, pos: nat)
    requires IsCrc(sum) && HEADER <= |flash| && Running(sum, crc, tag, flash, pos)
    requires pos == HEADER + Number(flash[..4])
    ensures Signed(flash, tag) <==> crc == CrcOf(flash[4..8])
  {
    Crc32.ValueIsReference(tag + Image(flash));
  }

  // ----- The packer -----

  /** Length, CRC of tag and image, image. */
  function Packed(img: seq<Byte>, tag: seq<Byte>): seq<Byte> {
    LittleEndian(|img|, 4) + Bytes32(Crc32.Value(tag + img, 0)) + img
  }

  /** The lines one by one, behind a blank header. */
  method PackLines(ghost sum: seq<Byte> -> Word, lines: seq<seq<Byte>>, tag: seq<Byte>)
    returns (file: seq<Byte>, size: nat, crc: Word, ghost done: seq<Byte>)
    requires IsCrc(sum)
    ensures done == Concat(lines) && size == |done| && |file| == HEADER + size && file[HEADER..] == done
    ensures crc == sum(tag + done)
  {
    file := [0x30, 0x30, 0x30, 0x30] + [0x30, 0x30, 0x30, 0x30];
    size := 0;
    crc, done := NoLine(sum, tag);
    for i := 0 to |lines|
      invariant done == Concat(lines[..i])
      invariant size == |done| && |file| == HEADER + size && file[HEADER..] == done
      invariant crc == sum(tag + done)
    {
      assert lines[..i + 1][..i] == lines[..i];
      size := size + |lines[i]|;
      file := file + lines[i];
      crc, done := AddLine(sum, crc, tag, done, lines[i]);
    }
    assert lines[..|lines|] == lines;
  }

  method NoLine(ghost sum: seq<Byte> -> Word, tag: seq<Byte>) returns (crc: Word, ghost done: seq<Byte>)
    requires IsCrc(sum)
    ensures done == [] && crc == sum(tag + done)
  {
    done := [];
    assert tag + done == tag;
    crc := Crc32.Value(tag, 0);
  }

  method AddLine(ghost sum: seq<Byte> -> Word, crc: Word, ghost tag: seq<Byte>, ghost done: seq<Byte>, line: seq<Byte>)
    returns (next: Word, ghost more: seq<Byte>)
    requires IsCrc(sum) && crc == sum(tag + done)
    ensures more == done + line && next == sum(tag + more)
  {
    more := done + line;
    assert tag + more == tag + done + line;
    assert crc == Crc32.Value(tag + done, 0);
    Crc32.ValueResumes(tag + done, line, tag + more, 0);
    next := Crc32.Value(line, crc);
  }

  /** The packer: when all is written, the header goes over the blank. */
  method Pack(lines: seq<seq<Byte>>, tag: seq<Byte>) returns (file: seq<Byte>)
    requires |Concat(lines)| < Limit(4)
    ensures file == Packed(Concat(lines), tag)
  {
    ghost var sum := m => Crc32.Value(m, 0);
    var body, size, crc, done := PackLines(sum, lines, tag);
    file := LittleEndian(size, 4) + body[4..];
    file := file[..4] + Bytes32(crc) + file[8..];
    assert file[8..] == body[8..];
  }

  lemma CrcBytesBack(s: seq<Byte>)
    requires |s| == 4
    ensures Bytes32(CrcOf(s)) == s
  {
    Byte32RoundTrip(s[0], s[1], s[2], s[3]);
  }

  lemma {:induction false} LittleEndianBack(s: seq<Byte>)
    ensures LittleEndian(Number(s), |s|) == s
    decreases |s|
  {
    if s != [] {
      LittleEndianBack(s[1..]);
      LowByte(s[0], Number(s[1..]));
      assert [s[0]] + s[1..] == s;
    }
  }

  lemma LowByte(b: Byte, n: nat)
    ensures ByteOf(b as int + 256 * n) == b && (b as int + 256 * n) / 256 == n
  {
    assert (b as int + 256 * n) % 256 == b as int;
    CountedIs(b as int);
    Equal(Counted(b as int), b);
  }

  // ----- What is packed is what is accepted -----

  /** `file` is what flash starts with. */
  predicate Holds(flash: seq<Byte>, file: seq<Byte>) {
    |file| <= |flash| && flash[..|file|] == file
  }

  ghost predicate HoldsPacked(flash: seq<Byte>, img: seq<Byte>, tag: seq<Byte>, maxSize: nat) {
    && SizeAllowed(|img|, maxSize)
    && (Holds(flash, Packed(img, OLD_TAG)) || Holds(flash, Packed(img, tag)) || Holds(flash, Packed(img, ANY_TAG)))
  }

  lemma HeaderOf(flash: seq<Byte>, img: seq<Byte>, tag: seq<Byte>)
    requires |img| < Limit(4) && Holds(flash, Packed(img, tag))
    ensures HEADER + |img| <= |flash| && Number(flash[..4]) == |img| && Image(flash) == img
    ensures CrcOf(flash[4..8]) == Crc32.Value(tag + img, 0)
  {
    var (size, crc) := (LittleEndian(|img|, 4), Bytes32(Crc32.Value(tag + img, 0)));
    Laid(flash, size, crc, img);
    NumberRoundTrip(|img|, 4);
    CrcRoundTrip(Crc32.Value(tag + img, 0));
  }

  lemma Laid(flash: seq<Byte>, size: seq<Byte>, crc: seq<Byte>, img: seq<Byte>)
    requires |size| == |crc| == 4 && Holds(flash, size + crc + img)
    ensures flash[..4] == size && flash[4..8] == crc
    ensures HEADER + |img| <= |flash| && flash[HEADER..HEADER + |img|] == img
  {
    var file := size + crc + img;
    assert flash[..4] == file[..4] && flash[4..8] == file[4..8];
    assert flash[HEADER..HEADER + |img|] == file[HEADER..];
  }

  lemma PackedIsSigned(flash: seq<Byte>, img: seq<Byte>, tag: seq<Byte>)
    requires |img| < Limit(4) && Holds(flash, Packed(img, tag))
    ensures HEADER + |img| <= |flash| && Number(flash[..4]) == |img| && Signed(flash, tag)
  {
    HeaderOf(flash, img, tag);
    Crc32.ValueIsReference(tag + img);
  }

  lemma Assembled(flash: seq<Byte>, size: seq<Byte>, crc: seq<Byte>, img: seq<Byte>)
    requires |size| == |crc| == 4 && HEADER + |img| <= |flash|
    requires flash[..4] == size && flash[4..8] == crc && flash[HEADER..HEADER + |img|] == img
    ensures Holds(flash, size + crc + img)
  {
    assert size + crc + img == flash[..HEADER + |img|];
  }

  lemma SignedCrc(flash: seq<Byte>, tag: seq<Byte>)
    requires HEADER <= |flash| && HEADER + Number(flash[..4]) <= |flash| && Signed(flash, tag)
    ensures Bytes32(Crc32.Value(tag + Image(flash), 0)) == flash[4..8]
  {
    Crc32.ValueIsReference(tag + Image(flash));
    CrcBytesBack(flash[4..8]);
  }

  lemma SignedIsPacked(flash: seq<Byte>, tag: seq<Byte>)
    requires HEADER <= |flash| && HEADER + Number(flash[..4]) <= |flash| && Signed(flash, tag)
    ensures Holds(flash, Packed(Image(flash), tag))
  {
    SignedCrc(flash, tag);
    LittleEndianBack(flash[..4]);
    Assembled(flash, flash[..4], flash[4..8], Image(flash));
  }

  /** `crcCheckOk` accepts exactly the flash contents that start with something packed for one of the three tags. */
  lemma GenuineIsPacked(flash: seq<Byte>, tag: seq<Byte>, maxSize: nat)
    requires HEADER <= |flash| && maxSize < Limit(4)
    ensures Genuine(flash, tag, maxSize) <==> exists img :: HoldsPacked(flash, img, tag, maxSize)
  {
    if Genuine(flash, tag, maxSize) {
      if Signed(flash, OLD_TAG) {
        SignedIsPacked(flash, OLD_TAG);
      } else if Signed(flash, tag) {
        SignedIsPacked(flash, tag);
      } else {
        SignedIsPacked(flash, ANY_TAG);
      }
      assert HoldsPacked(flash, Image(flash), tag, maxSize);
    }
    if img :| HoldsPacked(flash, img, tag, maxSize) {
      if Holds(flash, Packed(img, OLD_TAG)) {
        PackedIsSigned(flash, img, OLD_TAG);
      } else if Holds(flash, Packed(img, tag)) {
        PackedIsSigned(flash, img, tag);
      } else {
        PackedIsSigned(flash, img, ANY_TAG);
      }
    }
  }

  // ----- The same in bytes -----

  lemma NumberOfFirst(b: Byte, s: seq<Byte>)
    ensures Number([b] + s) == b as int + 256 * Number(s)
  {
    assert ([b] + s)[1..] == s;
  }

  lemma NumberIs(s: seq<Byte>)
    requires |s| == 4
    ensures Number(s) == s[0] as int + 256 * s[1] as int + 65536 * s[2] as int + 16777216 * s[3] as int
  {
    NumberOfFirst(s[3], []);
    NumberOfFirst(s[2], [s[3]] + []);
    NumberOfFirst(s[1], [s[2]] + ([s[3]] + []));
    NumberOfFirst(s[0], [s[1]] + ([s[2]] + ([s[3]] + [])));
    assert s == [s[0]] + ([s[1]] + ([s[2]] + ([s[3]] + [])));
  }

  /** The number in the first four bytes. */
  function Length(flash: seq<Byte>): nat
    requires HEADER <= |flash|
  {
    flash[0] as int + 256 * flash[1] as int + 65536 * flash[2] as int + 16777216 * flash[3] as int
  }

  lemma LengthIs(flash: seq<Byte>)
    requires HEADER <= |flash|
    ensures Number(flash[..4]) == Length(flash) && CrcOf(flash[4..8]) == Word32(flash[4], flash[5], flash[6], flash[7])
  {
    NumberIs(flash[..4]);
  }

  /** The stored CRC in bytes 4 to 7 is that of the tag and the image from byte 8 on. */
  ghost predicate Certifies(flash: seq<Byte>, tag: seq<Byte>)
    requires 8 <= |flash| && 8 + Length(flash) <= |flash|
  {
    Word32(flash[4], flash[5], flash[6], flash[7]) == Crc32.Reference(tag + flash[8..8 + Length(flash)])
  }

  lemma SignedMeans(flash: seq<Byte>, tag: seq<Byte>)
    requires 8 <= |flash| && 8 + Length(flash) <= |flash|
    ensures Number(flash[..4]) == Length(flash) && (Signed(flash, tag) <==> Certifies(flash, tag))
  {
    LengthIs(flash);
  }

  /** What is accepted, in bytes. */
  lemma GenuineMeans(flash: seq<Byte>, tag: seq<Byte>, maxSize: nat)
    requires 8 <= |flash|
    ensures Genuine(flash, tag, maxSize) <==>
            && 8192 <= Length(flash) <= maxSize && 8 + Length(flash) <= |flash|
            && (Certifies(flash, OLD_TAG) || Certifies(flash, tag) || Certifies(flash, ANY_TAG))
  {
    LengthIs(flash);
    if 8 + Length(flash) <= |flash| {
      SignedMeans(flash, OLD_TAG);
      SignedMeans(flash, tag);
      SignedMeans(flash, ANY_TAG);
    }
  }

  /** What is packed, in bytes. */
  lemma PackedMeans(img: seq<Byte>, tag: seq<Byte>)
    requires |img| < 0x1_0000_0000
    ensures var f := Packed(img, tag);
            && |f| == 8 + |img| && f[8..] == img && Length(f) == |img|
            && Word32(f[4], f[5], f[6], f[7]) == Crc32.Reference(tag + img)
  {
    var f := Packed(img, tag);
    assert Limit(4) == 0x1_0000_0000;
    HeaderOf(f, img, tag);
    LengthIs(f);
    Crc32.ValueIsReference(tag + img);
  }

  // ----- The boot loop -----

  /** What one call of `receiveFirmware` reported and left in flash. */
  datatype Receipt = Receipt(ok: bool, flash: seq<Byte>)

  datatype Outcome = Started(flash: seq<Byte>) | Stopped | Waiting

  /** Flash is looked at after the first call whatever it reported, and then after each one that succeeded. */
  predicate Examined(script: seq<Receipt>, i: nat)
    requires i < |script|
  {
    i == 0 || script[i].ok
  }

  ghost predicate Settles(script: seq<Receipt>, i: nat, tag: seq<Byte>, maxSize: nat)
    requires i < |script| && HEADER <= |script[i].flash|
  {
    Examined(script, i) && (Genuine(script[i].flash, tag, maxSize) || Overruns(script[i].flash, maxSize))
  }

  /** Flash is large enough for a header. */
  ghost predicate Sized(script: seq<Receipt>) {
    forall i :: 0 <= i < |script| ==> HEADER <= |script[i].flash|
  }

  /** The outcome belongs to the first examined flash that is genuine or cannot be read to its end. */
  ghost predicate Explains(script: seq<Receipt>, tag: seq<Byte>, maxSize: nat, r: Outcome)
    requires Sized(script)
  {
    match r
    case Started(flash) =>
      exists i :: 0 <= i < |script| && Settles(script, i, tag, maxSize) && script[i].flash == flash
        && Genuine(flash, tag, maxSize) && forall j :: 0 <= j < i ==> !Settles(script, j, tag, maxSize)
    case Stopped =>
      exists i :: 0 <= i < |script| && Settles(script, i, tag, maxSize) && Overruns(script[i].flash, maxSize)
        && forall j :: 0 <= j < i ==> !Settles(script, j, tag, maxSize)
    case Waiting =>
      forall j :: 0 <= j < |script| ==> !Settles(script, j, tag, maxSize)
  }

  /** `main` up to the jump, over the receipts the network happens to deliver. */
  method Boot(script: seq<Receipt>, tag: seq<Byte>, maxSize: nat, chunk: nat) returns (r: Outcome)
    requires Sized(script) && chunk > 0
    ensures Explains(script, tag, maxSize, r)
  {
    if script == [] {
      return Waiting;
    }
    var v := Check(script[0].flash, tag, maxSize, chunk);
    if v.Accepted? {
      return Started(script[0].flash);
    }
    var i := 1;
    while v.Rejected?
      invariant 1 <= i <= |script|
      invariant forall j :: 0 <= j < i - 1 ==> !Settles(script, j, tag, maxSize)
      invariant v.Accepted? ==> Examined(script, i - 1) && Genuine(script[i - 1].flash, tag, maxSize)
      invariant v.Halted? ==> Examined(script, i - 1) && Overruns(script[i - 1].flash, maxSize)
      invariant v.Rejected? ==> !Settles(script, i - 1, tag, maxSize)
      decreases |script| - i, v.Rejected?
    {
      while i < |script| && !script[i].ok
        invariant 1 <= i <= |script|
        invariant forall j :: 0 <= j < i ==> !Settles(script, j, tag, maxSize)
      {
        i := i + 1;
      }
      if i == |script| {
        return Waiting;
      }
      v := Check(script[i].flash, tag, maxSize, chunk);
      i := i + 1;
    }
    if v.Halted? {
      return Stopped;
    }
    return Started(script[i - 1].flash);
  }

  /** A good image received well is started, unless something before it was started or stopped the boot. */
  lemma GoodImageStarts(script: seq<Receipt>, tag: seq<Byte>, maxSize: nat, r: Outcome, i: nat)
    requires Sized(script) && Explains(script, tag, maxSize, r) && i < |script|
    requires (i == 0 || script[i].ok) && Genuine(script[i].flash, tag, maxSize)
    requires forall j :: 0 <= j < i ==> !Overruns(script[j].flash, maxSize)
    ensures r.Started?
  {
    assert Settles(script, i, tag, maxSize);
  }

  /** And nothing is started but a genuine flash that was the first one looked at or was received well. */
  lemma StartedIsGood(script: seq<Receipt>, tag: seq<Byte>, maxSize: nat, r: Outcome)
    requires Sized(script) && Explains(script, tag, maxSize, r) && r.Started?
    ensures exists i :: 0 <= i < |script| && script[i].flash == r.flash && (i == 0 || script[i].ok)
    ensures HEADER <= |r.flash| && Genuine(r.flash, tag, maxSize)
  {
  }
}
