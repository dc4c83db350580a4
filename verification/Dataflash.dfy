/**
 The write-back page buffer of bertos/drv/dataflash.c over an AT45 chip. The chip executes the
 command bytes it receives; the driver must look like a flat file of `page_size * page_cnt` bytes.
 */
module Dataflash {
  import opened Bytes
  import opened Division
  import opened Registers
  import opened Sequences

  // ----- Devices -----

  datatype Opcode = ReadArrayB | ReadArrayD | WriteBuffer | BufferToMemory | MemoryToBuffer

  datatype Info = Info(density: nat, pageSize: nat, pageBits: nat, pageCount: nat, readCmd: Opcode)

  datatype Device = AT45DB041B | AT45DB081D | AT45DB161D | AT45DB642D

  function InfoOf(dev: Device): Info {
    match dev
    case AT45DB041B => Info(0x07, 264, 9, 2048, ReadArrayB)
    case AT45DB081D => Info(0x09, 264, 9, 4096, ReadArrayD)
    case AT45DB161D => Info(0x0B, 528, 10, 4096, ReadArrayD)
    case AT45DB642D => Info(0x0F, 1056, 11, 8192, ReadArrayD)
  }

  function PageSize(dev: Device): (n: nat)
    ensures 264 <= n
  {
    InfoOf(dev).pageSize
  }

  function PageCount(dev: Device): (n: nat)
    ensures 2048 <= n
  {
    InfoOf(dev).pageCount
  }

  function Size(dev: Device): (n: nat)
    ensures n == PageSize(dev) * PageCount(dev)
  {
    InfoOf(dev).pageSize * InfoOf(dev).pageCount
  }

  /** The four devices hold half, one, two and eight megabytes, of pages of 33/32 of a power of two. */
  lemma SizesAre()
    ensures Size(AT45DB041B) == 540672 && Size(AT45DB081D) == 1081344
    ensures Size(AT45DB161D) == 2162688 && Size(AT45DB642D) == 8650752
    ensures PageSize(AT45DB041B) == PageSize(AT45DB081D) == 264 && PageSize(AT45DB161D) == 528
    ensures PageSize(AT45DB642D) == 1056
  {
  }

  // ----- Command bytes -----

  datatype Header = Header(opcode: Opcode, hi: Byte, mid: Byte, lo: Byte)

  function Pow2(n: nat): (r: nat)
    ensures r > 0
  {
    if n == 0 then 1 else 2 * Pow2(n - 1)
  }

  /** `send_cmd`: the opcode and the three address bytes. */
  function SendCmd(dev: Device, page: nat, offset: nat, opcode: Opcode): Header {
    var bits := InfoOf(dev).pageBits;
    Header(opcode, (page / Pow2(16 - bits)) % 256, (page * Pow2(bits - 8) + offset / 256) % 256, offset % 256)
  }

  /** How the chip reads the address: the byte offset in the low `page_bits` bits, the page above them. */
  function Address(h: Header): nat {
    h.hi * 65536 + h.mid * 256 + h.lo
  }

  function PageOf(dev: Device, h: Header): nat {
    Address(h) / Pow2(InfoOf(dev).pageBits)
  }

  function OffsetOf(dev: Device, h: Header): nat {
    Address(h) % Pow2(InfoOf(dev).pageBits)
  }

  lemma Powers()
    ensures Pow2(1) == 2 && Pow2(2) == 4 && Pow2(3) == 8
    ensures Pow2(5) == 32 && Pow2(6) == 64 && Pow2(7) == 128
    ensures Pow2(9) == 512 && Pow2(10) == 1024 && Pow2(11) == 2048
  {
  }

  lemma AddressIs(dev: Device, page: nat, offset: nat, opcode: Opcode)
    requires page < PageCount(dev) && offset < PageSize(dev)
    ensures var h := SendCmd(dev, page, offset, opcode);
            h.hi * 65536 + h.mid * 256 + h.lo == page * Pow2(InfoOf(dev).pageBits) + offset
    ensures offset < Pow2(InfoOf(dev).pageBits)
  {
    Powers();
    match dev
    case AT45DB041B => Split9(page, offset);
    case AT45DB081D => Split9(page, offset);
    case AT45DB161D => Split10(page, offset);
    case AT45DB642D => Split11(page, offset);
  }

  /** The bytes sent name the intended page and offset on every device. */
  lemma AddressIsDecoded(dev: Device, page: nat, offset: nat, opcode: Opcode)
    requires page < PageCount(dev) && offset < PageSize(dev)
    ensures PageOf(dev, SendCmd(dev, page, offset, opcode)) == page
    ensures OffsetOf(dev, SendCmd(dev, page, offset, opcode)) == offset
  {
    AddressIs(dev, page, offset, opcode);
    Divides(page, Pow2(InfoOf(dev).pageBits), offset);
  }

  lemma LowByte(h: nat, r: nat)
    requires r < 256
    ensures (h * 256 + r) % 256 == r
  {
  }

  lemma Split9(page: nat, offset: nat)
    requires page < 32768 && offset < 512
    ensures (page / 128) % 256 * 65536 + (page * 2 + offset / 256) % 256 * 256 + offset % 256 == page * 512 + offset
  {
    var (h, l, u) := (page / 128, page % 128, offset / 256);
    assert page * 2 + u == h * 256 + (l * 2 + u);
    LowByte(h, l * 2 + u);
    LowByte(0, h);
  }

  lemma Split10(page: nat, offset: nat)
    requires page < 16384 && offset < 1024
    ensures (page / 64) % 256 * 65536 + (page * 4 + offset / 256) % 256 * 256 + offset % 256 == page * 1024 + offset
  {
    var (h, l, u) := (page / 64, page % 64, offset / 256);
    assert page * 4 + u == h * 256 + (l * 4 + u);
    LowByte(h, l * 4 + u);
    LowByte(0, h);
  }

  lemma Split11(page: nat, offset: nat)
    requires page < 8192 && offset < 2048
    ensures (page / 32) % 256 * 65536 + (page * 8 + offset / 256) % 256 * 256 + offset % 256 == page * 2048 + offset
  {
    var (h, l, u) := (page / 32, page % 32, offset / 256);
    assert page * 8 + u == h * 256 + (l * 8 + u);
    LowByte(h, l * 8 + u);
    LowByte(0, h);
  }

  // ----- Overwriting part of a sequence -----

  lemma PutInside(s: seq<Byte>, base: nat, b: seq<Byte>, i: nat, d: seq<Byte>)
    requires base + |b| <= |s| && i + |d| <= |b|
    ensures Put(s, base, Put(b, i, d)) == Put(Put(s, base, b), base + i, d)
  {
  }

  lemma PutTwice(s: seq<Byte>, i: nat, d: seq<Byte>)
    requires i + |d| <= |s|
    ensures Put(Put(s, i, d), i, d) == Put(s, i, d)
  {
  }

  lemma PutBack(s: seq<Byte>, i: nat, n: nat)
    requires i + n <= |s|
    ensures Put(s, i, s[i..i + n]) == s
  {
  }

  lemma PutNext(s: seq<Byte>, i: nat, a: seq<Byte>, b: seq<Byte>)
    requires i + |a| + |b| <= |s|
    ensures Put(Put(s, i, a), i + |a|, b) == Put(s, i, a + b)
  {
  }

  lemma Resume(d: seq<Byte>, i: nat, k: nat, n: nat)
    requires i + n <= k <= |d|
    ensures d[..i] + d[i..k][..n] == d[..i + n]
  {
  }

  // ----- The chip -----

  /** Main memory and the first SRAM buffer. */
  datatype Chip = Chip(dev: Device, mem: seq<Byte>, sram: seq<Byte>) {

    ghost predicate Fits() {
      |mem| == Size(dev) && |sram| == PageSize(dev)
    }

    function Start(page: nat): nat {
      page * PageSize(dev)
    }

    /** Commands that need no data. */
    function Execute(h: Header): (c: Chip)
      requires Fits() && PageOf(dev, h) < PageCount(dev)
      ensures c.Fits()
    {
      PageEnds(dev, PageOf(dev, h));
      var i := Start(PageOf(dev, h));
      if h.opcode.MemoryToBuffer? then this.(sram := mem[i..i + PageSize(dev)])
      else if h.opcode.BufferToMemory? then this.(mem := Put(mem, i, sram))
      else this
    }

    function Store(h: Header, d: seq<Byte>): (c: Chip)
      requires Fits() && h.opcode.WriteBuffer? && OffsetOf(dev, h) + |d| <= PageSize(dev)
      ensures c.Fits()
    {
      this.(sram := Put(sram, OffsetOf(dev, h), d))
    }

    /** The bytes that must be clocked out before the first byte of a continuous read. */
    function Dummies(h: Header): nat {
      if h.opcode.ReadArrayB? then 4 else 1
    }

    /** A continuous read, which runs on over page boundaries. */
    function Fetch(h: Header, dummies: nat, n: nat): seq<Byte>
      requires dummies == Dummies(h)
      requires n > 0 ==> Start(PageOf(dev, h)) + OffsetOf(dev, h) + n <= |mem|
    {
      if n == 0 then []
      else
        var i := Start(PageOf(dev, h)) + OffsetOf(dev, h);
        mem[i..i + n]
    }
  }

  /** The oldest device takes four bytes before it answers a continuous read, the others one. */
  lemma DummiesAre(c: Chip, h: Header)
    requires h.opcode == InfoOf(c.dev).readCmd
    ensures c.Dummies(h) == if c.dev == AT45DB041B then 4 else 1
  {
  }

  lemma PageEnds(dev: Device, page: nat)
    requires page < PageCount(dev)
    ensures page * PageSize(dev) + PageSize(dev) <= Size(dev)
  {
    assert (page + 1) * PageSize(dev) <= PageCount(dev) * PageSize(dev);
  }

  lemma Locate(dev: Device, pos: nat)
    requires pos < Size(dev)
    ensures pos / PageSize(dev) < PageCount(dev) && pos % PageSize(dev) < PageSize(dev)
    ensures pos / PageSize(dev) * PageSize(dev) + pos % PageSize(dev) == pos
  {
    Scales(PageCount(dev), pos / PageSize(dev), PageSize(dev));
  }

  // ----- The flat file -----

  datatype Whence = FromStart | FromEnd | FromHere

  datatype Op = Read(n: nat) | Write(data: seq<Byte>) | Seek(offset: int, whence: Whence) | Flush | Close | Reopen

  /** What each operation means for a plain file of fixed length; a transfer stops at its end. */
  datatype File = File(bytes: seq<Byte>, pos: int) {

    predicate InRange() {
      0 <= pos <= |bytes|
    }

    function Room(n: nat): (k: nat)
      requires InRange()
      ensures k <= n && pos + k <= |bytes|
    {
      if n < |bytes| - pos then n else |bytes| - pos
    }

    function Base(whence: Whence): int {
      match whence
      case FromStart => 0
      case FromEnd => |bytes|
      case FromHere => pos
    }

    /** The position is a `kfile_off_t`, of 32 bits. */
    function Target(offset: int, whence: Whence): int {
      Int32(Base(whence) + offset)
    }

    /** An operation is meant for a file whose position has not been moved outside it. */
    predicate Allows(op: Op) {
      op.Read? || op.Write? ==> InRange()
    }

    function After(op: Op): (f: File)
      requires Allows(op)
      ensures |f.bytes| == |bytes|
    {
      match op
      case Read(n) => this.(pos := pos + Room(n))
      case Write(data) => Written(data, Room(|data|))
      case Seek(offset, whence) => this.(pos := Target(offset, whence))
      case Reopen => this.(pos := 0)
      case _ => this
    }

    /** The first `n` bytes of `data` stored at the position. */
    function Written(data: seq<Byte>, n: nat): (f: File)
      requires 0 <= pos && n <= |data| && pos + n <= |bytes|
      ensures |f.bytes| == |bytes| && f.pos == pos + n
    {
      File(Put(bytes, pos, data[..n]), pos + n)
    }

    lemma WrittenNext(data: seq<Byte>, i: nat, k: nat, n: nat)
      requires 0 <= pos && i + n <= k <= |data| && pos + k <= |bytes|
      ensures Written(data, i).Written(data[i..k], n) == Written(data, i + n)
    {
      Resume(data, i, k, n);
      PutNext(bytes, pos, data[..i], data[i..k][..n]);
    }

    /** A seek to a place in the file gets there, and one that wraps never lands where it was meant to. */
    lemma SeekLands(offset: int, whence: Whence)
      requires |bytes| < 0x8000_0000
      ensures 0 <= Base(whence) + offset <= |bytes| ==> After(Seek(offset, whence)) == File(bytes, Base(whence) + offset)
      ensures After(Seek(offset, whence)).pos == Base(whence) + offset <==> Fits(Base(whence) + offset)
    {
    }

    /** What a read returns. */
    function Result(op: Op): seq<Byte>
      requires Allows(op)
    {
      if op.Read? then bytes[pos..pos + Room(op.n)] else []
    }
  }

  // ----- The driver -----

  class DataFlash {
    var chip: Chip
    var dev: Device
    var currentPage: nat
    var pageDirty: bool
    var seekPos: int
    var size: nat

    ghost predicate Valid()
      reads this
    {
      && chip.Fits() && chip.dev == dev && size == Size(dev)
      && currentPage < PageCount(dev)
      && currentPage * PageSize(dev) + PageSize(dev) <= size
      && (!pageDirty ==> chip.sram == chip.mem[Base()..Base() + PageSize(dev)])
    }

    ghost function Base(): nat
      reads this
    {
      currentPage * PageSize(dev)
    }

    /** Main memory with the buffered page laid over it. */
    ghost function Flat(): (f: File)
      requires Valid()
      reads this
      ensures |f.bytes| == size
    {
      File(Put(chip.mem, Base(), chip.sram), seekPos)
    }

    /** A clean driver shows exactly what main memory holds. */
    lemma CleanIsMemory()
      requires Valid() && !pageDirty
      ensures Flat().bytes == chip.mem
    {
      PutBack(chip.mem, Base(), PageSize(dev));
    }

    /** A zeroed descriptor wired to a chip. */
    constructor (chip: Chip)
      ensures this.chip == chip
    {
      this.chip, dev := chip, AT45DB041B;
      pageDirty, currentPage, seekPos, size := false, 0, 0, 0;
    }

    /** `dataflash_loadPage`. */
    method LoadPage(page: nat)
      requires chip.Fits() && chip.dev == dev && page < PageCount(dev)
      modifies this`chip
      ensures chip == old(chip).(sram := old(chip).mem[page * PageSize(dev)..page * PageSize(dev) + PageSize(dev)])
    {
      AddressIsDecoded(dev, page, 0, MemoryToBuffer);
      PageEnds(dev, page);
      chip := chip.Execute(SendCmd(dev, page, 0, MemoryToBuffer));
    }

    /** `dataflash_init`: accepts exactly the configured device, whose status gives its density. */
    method Init(d: Device, density: nat) returns (ok: bool)
      requires chip.Fits() && density == InfoOf(chip.dev).density
      modifies this
      ensures ok <==> chip.dev == d
      ensures ok ==> Valid() && !pageDirty && Flat() == File(chip.mem, 0)
      ensures dev == d && chip.dev == old(chip).dev && chip.mem == old(chip).mem
    {
      currentPage, pageDirty, seekPos, size := 0, false, 0, 0;
      dev := d;
      if density != InfoOf(dev).density {
        return false;
      }
      size := InfoOf(dev).pageSize * InfoOf(dev).pageCount;
      PageEnds(dev, 0);
      LoadPage(currentPage);
      CleanIsMemory();
      return true;
    }

    /** `dataflash_flush`: afterwards main memory holds the whole file. */
    method FlushPage()
      requires Valid()
      modifies this`chip, this`pageDirty
      ensures Valid() && !pageDirty && Flat() == old(Flat()) && chip.mem == old(Flat().bytes)
    {
      if pageDirty {
        AddressIsDecoded(dev, currentPage, 0, BufferToMemory);
        PutTwice(chip.mem, Base(), chip.sram);
        chip := chip.Execute(SendCmd(dev, currentPage, 0, BufferToMemory));
        pageDirty := false;
      } else {
        CleanIsMemory();
      }
    }

    /** `dataflash_reopen`. */
    method ReopenFile()
      requires Valid()
      modifies this
      ensures Valid() && !pageDirty && dev == old(dev) && Flat() == old(Flat()).After(Reopen)
      ensures chip.mem == old(Flat().bytes)
    {
      FlushPage();
      currentPage, seekPos := 0, 0;
      PageEnds(dev, 0);
      LoadPage(currentPage);
      CleanIsMemory();
    }

    /** `kfile_genericSeek`: nothing keeps the position inside the file. */
    method SeekTo(offset: int, whence: Whence)
      requires Valid()
      modifies this`seekPos
      ensures Valid() && Flat() == old(Flat()).After(Seek(offset, whence))
    {
      var from := match whence
        case FromStart => 0
        case FromEnd => size
        case FromHere => seekPos;
      seekPos := Int32(from + offset);
    }

    /** `dataflash_readBlock` on a clean driver. */
    method ReadBlock(pos: nat, n: nat) returns (data: seq<Byte>)
      requires Valid() && pos + n <= size
      ensures data == chip.mem[pos..pos + n]
    {
      var page, offset := pos / PageSize(dev), pos % PageSize(dev);
      var opcode := InfoOf(dev).readCmd;
      var h := SendCmd(dev, page, offset, opcode);
      var dummies := 0;
      if opcode.ReadArrayB? {
        dummies := dummies + 3;
      }
      dummies := dummies + 1;
      if n > 0 {
        Locate(dev, pos);
        AddressIsDecoded(dev, page, offset, opcode);
      }
      data := chip.Fetch(h, dummies, n);
    }

    /** `dataflash_read`. */
    method ReadFile(n: nat) returns (data: seq<Byte>)
      requires Valid() && Flat().InRange()
      modifies this
      ensures Valid() && dev == old(dev)
      ensures Flat() == old(Flat()).After(Read(n)) && data == old(Flat()).Result(Read(n))
    {
      var k := if n < size - seekPos then n else size - seekPos;
      FlushPage();
      CleanIsMemory();
      data := ReadBlock(seekPos, k);
      seekPos := seekPos + k;
    }

    /** Make `page` the buffered one. */
    method Select(page: nat)
      requires Valid() && page < PageCount(dev)
      modifies this
      ensures Valid() && dev == old(dev) && Flat() == old(Flat()) && currentPage == page
    {
      if page != currentPage {
        FlushPage();
        PageEnds(dev, page);
        LoadPage(page);
        currentPage := page;
        CleanIsMemory();
      }
    }

    /** `dataflash_writeBlock` into the buffered page. */
    method WriteBlock(offset: nat, data: seq<Byte>)
      requires Valid() && data != [] && offset + |data| <= PageSize(dev)
      modifies this`chip, this`pageDirty
      ensures Valid() && Flat() == old(Flat().(bytes := Put(Flat().bytes, Base() + offset, data)))
    {
      AddressIsDecoded(dev, 0, offset, WriteBuffer);
      PutInside(chip.mem, Base(), chip.sram, offset, data);
      chip := chip.Store(SendCmd(dev, 0, offset, WriteBuffer), data);
      pageDirty := true;
    }

    /** One pass of the loop of `dataflash_write`: as much as the page under the position holds. */
    method WritePiece(data: seq<Byte>) returns (n: nat)
      requires Valid() && data != [] && 0 <= seekPos && seekPos + |data| <= size
      modifies this
      ensures Valid() && dev == old(dev) && 0 < n <= |data|
      ensures Flat() == old(Flat()).Written(data, n)
    {
      Locate(dev, seekPos);
      var page, offset := seekPos / PageSize(dev), seekPos % PageSize(dev);
      n := if |data| < PageSize(dev) - offset then |data| else PageSize(dev) - offset;
      Select(page);
      WriteBlock(offset, data[..n]);
      seekPos := seekPos + n;
    }

    method WriteOn(data: seq<Byte>, i: nat, k: nat, ghost before: File) returns (next: nat)
      requires Valid() && i < k <= |data| && 0 <= before.pos && before.pos + k <= |before.bytes|
      requires Flat() == before.Written(data, i)
      modifies this
      ensures Valid() && dev == old(dev) && i < next <= k
      ensures Flat() == before.Written(data, next)
    {
      ghost var mid := Flat();
      var n := WritePiece(data[i..k]);
      assert Flat() == mid.Written(data[i..k], n);
      before.WrittenNext(data, i, k, n);
      next := i + n;
    }

    /** `dataflash_write`. */
    method WriteFile(data: seq<Byte>) returns (total: nat)
      requires Valid() && Flat().InRange()
      modifies this
      ensures Valid() && dev == old(dev)
      ensures Flat() == old(Flat()).After(Write(data)) && total == old(Flat()).Room(|data|)
    {
      var k := if |data| < size - seekPos then |data| else size - seekPos;
      total := 0;
      ghost var before := Flat();
      PutBack(before.bytes, before.pos, 0);
      while total < k
        invariant Valid() && dev == old(dev) && 0 <= total <= k
        invariant Flat() == before.Written(data, total)
        decreases k - total
      {
        total := WriteOn(data, total, k, before);
      }
    }

    /** Any operation does to the driver what it does to the flat file. */
    method Perform(op: Op) returns (data: seq<Byte>)
      requires Valid() && Flat().Allows(op)
      modifies this
      ensures Valid() && dev == old(dev)
      ensures Flat() == old(Flat()).After(op) && data == old(Flat()).Result(op)
      ensures op.Flush? || op.Close? || op.Reopen? ==> chip.mem == Flat().bytes
    {
      data := [];
      match op {
        case Read(n) =>
          data := ReadFile(n);
        case Write(d) =>
          var _ := WriteFile(d);
        case Seek(offset, whence) =>
          SeekTo(offset, whence);
        case Flush =>
          FlushPage();
        case Close =>
          FlushPage();
        case Reopen =>
          ReopenFile();
      }
    }
  }

  // ----- Whole runs -----

  /** Every operation of a run finds the position inside the file when it transfers data. */
  predicate AllowsAll(f: File, ops: seq<Op>)
    decreases |ops|
  {
    ops == [] || (f.Allows(ops[0]) && AllowsAll(f.After(ops[0]), ops[1..]))
  }

  function AfterAll(f: File, ops: seq<Op>): File
    requires AllowsAll(f, ops)
    decreases |ops|
  {
    if ops == [] then f else AfterAll(f.After(ops[0]), ops[1..])
  }

  function ResultAll(f: File, ops: seq<Op>): (r: seq<seq<Byte>>)
    requires AllowsAll(f, ops)
    ensures |r| == |ops|
    decreases |ops|
  {
    if ops == [] then [] else [f.Result(ops[0])] + ResultAll(f.After(ops[0]), ops[1..])
  }

  // ----- Laws of the flat file -----

  lemma RunOfOne(f: File, a: Op)
    requires f.Allows(a)
    ensures AllowsAll(f, [a]) && AfterAll(f, [a]) == f.After(a) && ResultAll(f, [a]) == [f.Result(a)]
  {
    assert [a][1..] == [];
  }

  lemma RunOfTwo(f: File, a: Op, b: Op)
    requires f.Allows(a) && f.After(a).Allows(b)
    ensures AllowsAll(f, [a, b]) && AfterAll(f, [a, b]) == f.After(a).After(b)
    ensures ResultAll(f, [a, b]) == [f.Result(a), f.After(a).Result(b)]
  {
    assert [a, b][1..] == [b];
    RunOfOne(f.After(a), b);
  }

  lemma RunOfThree(f: File, a: Op, b: Op, c: Op)
    requires f.Allows(a) && f.After(a).Allows(b) && f.After(a).After(b).Allows(c)
    ensures AllowsAll(f, [a, b, c]) && AfterAll(f, [a, b, c]) == f.After(a).After(b).After(c)
    ensures ResultAll(f, [a, b, c]) == [f.Result(a), f.After(a).Result(b), f.After(a).After(b).Result(c)]
  {
    assert [a, b, c][1..] == [b, c];
    RunOfTwo(f.After(a), b, c);
  }

  function AtMost(n: nat, room: nat): nat {
    if n < room then n else room
  }

  /** A read returns the bytes at the position, as many as asked for or as there are, and moves behind them. */
  lemma ReadTakes(f: File, n: nat)
    requires 0 <= f.pos <= |f.bytes|
    ensures AllowsAll(f, [Read(n)])
    ensures var (k, r) := (AtMost(n, |f.bytes| - f.pos), ResultAll(f, [Read(n)])[0]);
            && |r| == k && (forall i :: 0 <= i < k ==> r[i] == f.bytes[f.pos + i])
            && AfterAll(f, [Read(n)]) == File(f.bytes, f.pos + k)
  {
    RunOfOne(f, Read(n));
  }

  lemma ReadTwice(f: File, a: nat, b: nat)
    requires 0 <= f.pos <= |f.bytes|
    ensures f.After(Read(a)).Allows(Read(b)) && f.After(Read(a)).After(Read(b)) == f.After(Read(a + b))
    ensures f.Result(Read(a)) + f.After(Read(a)).Result(Read(b)) == f.Result(Read(a + b))
  {
    SlicesJoin(f.bytes, f.pos, f.Room(a), f.After(Read(a)).Room(b));
  }

  /** Two reads return between them what one read of as many bytes returns, and end where it ends. */
  lemma ReadsJoin(f: File, a: nat, b: nat, two: seq<Op>, one: seq<Op>)
    requires 0 <= f.pos <= |f.bytes| && two == [Read(a), Read(b)] && one == [Read(a + b)]
    ensures AllowsAll(f, two) && AllowsAll(f, one) && AfterAll(f, two) == AfterAll(f, one)
    ensures ResultAll(f, two)[0] + ResultAll(f, two)[1] == ResultAll(f, one)[0]
  {
    ReadTwice(f, a, b);
    RunOfTwo(f, Read(a), Read(b));
    RunOfOne(f, Read(a + b));
  }

  lemma SlicesJoin(s: seq<Byte>, i: nat, k: nat, l: nat)
    requires i + k + l <= |s|
    ensures s[i..i + k] + s[i + k..i + k + l] == s[i..i + k + l]
  {
  }

  /** A write stores what there is room for at the position, changes nothing else, and moves behind it. */
  lemma WriteStores(f: File, d: seq<Byte>)
    requires 0 <= f.pos <= |f.bytes|
    ensures AllowsAll(f, [Write(d)])
    ensures var (k, g) := (AtMost(|d|, |f.bytes| - f.pos), AfterAll(f, [Write(d)]));
            && g.pos == f.pos + k && |g.bytes| == |f.bytes|
            && forall i :: 0 <= i < |f.bytes| ==>
                 g.bytes[i] == if f.pos <= i < f.pos + k then d[i - f.pos] else f.bytes[i]
  {
    RunOfOne(f, Write(d));
  }

  /** What was written is what is read after seeking back over it. */
  lemma WriteReadsBack(f: File, d: seq<Byte>)
    requires 0 <= f.pos && f.pos + |d| <= |f.bytes| < 0x8000_0000
    ensures var ops := [Write(d), Seek(-|d|, FromHere), Read(|d|)];
            AllowsAll(f, ops) && ResultAll(f, ops)[2] == d && AfterAll(f, ops).pos == f.pos + |d|
  {
    RunOfThree(f, Write(d), Seek(-|d|, FromHere), Read(|d|));
    assert d[..|d|] == d;
  }

  /** Where a seek leads, from the start, from the position and from the end, if 32 bits hold it. */
  lemma SeeksLand(f: File, o: int)
    ensures Fits(o) ==> AfterAll(f, [Seek(o, FromStart)]) == File(f.bytes, o)
    ensures Fits(f.pos + o) ==> AfterAll(f, [Seek(o, FromHere)]) == File(f.bytes, f.pos + o)
    ensures Fits(|f.bytes| + o) ==> AfterAll(f, [Seek(o, FromEnd)]) == File(f.bytes, |f.bytes| + o)
  {
    RunOfOne(f, Seek(o, FromStart));
    RunOfOne(f, Seek(o, FromHere));
    RunOfOne(f, Seek(o, FromEnd));
  }

  /** Flush and close leave the file alone; reopen goes back to its start. */
  lemma NothingIsLost(f: File)
    ensures AfterAll(f, [Flush]) == f && AfterAll(f, [Close]) == f && AfterAll(f, [Reopen]) == File(f.bytes, 0)
    ensures ResultAll(f, [Flush]) == ResultAll(f, [Close]) == ResultAll(f, [Reopen]) == [[]]
  {
    RunOfOne(f, Flush);
    RunOfOne(f, Close);
    RunOfOne(f, Reopen);
  }

  /** Over any run the driver reads what the flat file reads and ends as the flat file ends. */
  method Run(fd: DataFlash, ops: seq<Op>) returns (data: seq<seq<Byte>>)
    requires fd.Valid() && AllowsAll(fd.Flat(), ops)
    modifies fd
    ensures fd.Valid() && fd.dev == old(fd.dev)
    ensures fd.Flat() == AfterAll(old(fd.Flat()), ops)
    ensures data == ResultAll(old(fd.Flat()), ops)
    decreases |ops|
  {
    data := [];
    if ops != [] {
      var first := fd.Perform(ops[0]);
      var more := Run(fd, ops[1..]);
      data := [first] + more;
    }
  }

  /** What a closed file holds is what the next start-up finds, whatever the buffer then holds. */
  method Restart(fd: DataFlash, ops: seq<Op>, sram: seq<Byte>) returns (next: DataFlash)
    requires fd.Valid() && AllowsAll(fd.Flat(), ops) && |sram| == PageSize(fd.dev)
    modifies fd
    ensures next.Valid() && next.Flat() == File(AfterAll(old(fd.Flat()), ops).bytes, 0)
  {
    var _ := Run(fd, ops);
    var _ := fd.Perform(Close);
    next := new DataFlash(fd.chip.(sram := sram));
    var ok := next.Init(fd.dev, InfoOf(fd.chip.dev).density);
  }
}
