/**
 The persistent configuration store of common/dli.c: two copies of the configuration file and
 two allocation entries, updated alternately so that losing power at any byte of an update
 leaves the store as it was before the update or as it is after it.

 The protocol is proved for every format of allocation entries that survives interrupted
 writes; `FORMAT` is the one of `fat_read` and `fat_write`.
 */
module Dli {
  import opened Fat
  import opened Words
  import opened Wrappers

  /** The keys and values of the `dli` section of a configuration file. */
  type Ini = map<string, string>

  /** How an allocation entry is written to its slot and read back. */
  datatype Format = Format(pack: Entry -> seq<Byte>, read: seq<Byte> -> Option<Entry>)

  const FORMAT := Format(Pack, Read)

  /** `ASSERT(last_file < 2)`: there are two files and two slots. */
  predicate IsFile(f: bv16) {
    f == 0 || f == 1
  }

  /** What survives a power cut. */
  datatype Media = Media(fat0: seq<Byte>, fat1: seq<Byte>, file0: Ini, file1: Ini) {
    predicate Valid() {
      |fat0| == |fat1| == SLOT_SIZE
    }

    function Slot(f: bv16): seq<Byte>
      requires IsFile(f)
    {
      if f == 0 then fat0 else fat1
    }

    function File(f: bv16): Ini
      requires IsFile(f)
    {
      if f == 0 then file0 else file1
    }

    function WithSlot(f: bv16, s: seq<Byte>): Media
      requires IsFile(f)
    {
      if f == 0 then this.(fat0 := s) else this.(fat1 := s)
    }

    function WithFile(f: bv16, c: Ini): Media
      requires IsFile(f)
    {
      if f == 0 then this.(file0 := c) else this.(file1 := c)
    }
  }

  /** `nextIni`: the number of the file that is not current. */
  function Other(f: bv16): (r: bv16)
    ensures IsFile(r)
  {
    (f + 1) & 1
  }

  /** The counter of the next set; it wraps at 2^32. */
  function Inc(c: bv32): bv32 {
    c + 1
  }

  /** The comparison of `findLast`, a 32-bit signed difference that wraps. */
  predicate Newer(a: bv32, b: bv32) {
    var d := a - b;
    d != 0 && d & 0x8000_0000 == 0
  }

  /** `findLast`: the newest readable entry, or the defaults. */
  function FindLast(fmt: Format, m: Media): Entry {
    match (fmt.read(m.fat0), fmt.read(m.fat1))
    case (None, None) => Entry(0, 0)
    case (None, Some(e1)) => e1
    case (Some(e0), None) => e0
    case (Some(e0), Some(e1)) => if Newer(e0.counter, e1.counter) then e0 else e1
  }

  /** What `dli_get` reads from. */
  function Contents(m: Media, last: Entry): Ini
    requires IsFile(last.lastFile)
  {
    m.File(last.lastFile)
  }

  /** What `dli_get` reads from after a restart; nothing if that stops on the assertion. */
  function Restarted(fmt: Format, m: Media): Option<Ini> {
    var e := FindLast(fmt, m);
    if IsFile(e.lastFile) then Some(Contents(m, e)) else None
  }

  /** As much of `s` as fits `n` characters. */
  function Cut(s: string, n: nat): (r: string)
    ensures r <= s && (|r| == n || (|r| < n && r == s))
  {
    if |s| <= n then s else s[..n]
  }

  /** The entry a completed `dli_set` leaves in RAM and on the medium. */
  function Advance(last: Entry): Entry {
    Entry(Inc(last.counter), Other(last.lastFile))
  }

  /** The entry that `nextIni` alone leaves in RAM. */
  function Flipped(last: Entry): Entry {
    last.(lastFile := Other(last.lastFile))
  }

  /** What stops a `dli_set` before its end. */
  datatype Fault =
    | NoFault
    | CutInFile(junk: Ini)      // power lost while the other file is rewritten; it then holds anything
    | CutInFat(k: nat)          // power lost after k bytes of the allocation entry
    | FileError(junk: Ini)      // ini_setString reports an error
    | FatError(k: nat)          // the entry is written short
  {
    predicate Valid() {
      match this
      case CutInFat(k) => k <= SLOT_SIZE
      case FatError(k) => k < SLOT_SIZE
      case _ => true
    }
  }

  /** The medium after a `dli_set` of an ini key, completed or stopped by `fault`. */
  function MediaAfter(fmt: Format, m: Media, last: Entry, key: string, value: string, fault: Fault): Media
    requires m.Valid() && IsFile(last.lastFile) && fault.Valid() && |fmt.pack(Advance(last))| == SLOT_SIZE
  {
    var f := Other(last.lastFile);
    var updated := m.WithFile(f, Contents(m, last)[key := value]);
    var packed := fmt.pack(Advance(last));
    match fault
    case CutInFile(junk) => m.WithFile(f, junk)
    case FileError(junk) => m.WithFile(f, junk)
    case CutInFat(k) => updated.WithSlot(f, Torn(packed, m.Slot(f), k))
    case FatError(k) => updated.WithSlot(f, Torn(packed, m.Slot(f), k))
    case NoFault => updated.WithSlot(f, packed)
  }

  /** The entry in RAM when `dli_set` returns. */
  function LastAfter(last: Entry, fault: Fault): Entry {
    if fault.FileError? then Flipped(last) else Advance(last)
  }

  class Store {
    const fmt: Format
    var media: Media
    var last: Entry

    /** `dli_init`. */
    constructor (fmt: Format, m: Media)
      ensures this.fmt == fmt && media == m && last == FindLast(fmt, m)
    {
      this.fmt := fmt;
      media := m;
      var e0, e1 := fmt.read(m.fat0), fmt.read(m.fat1);
      if e0.None? && e1.None? {
        last := Entry(0, 0);
      } else if e0.None? {
        last := e1.value;
      } else if e1.None? {
        last := e0.value;
      } else if Newer(e0.value.counter, e1.value.counter) {
        last := e0.value;
      } else {
        last := e1.value;
      }
    }

    /** `dli_get` of an ini key into a buffer of `len` characters, the last one for the terminator. */
    method Get(key: string, defaultVal: string, len: nat) returns (found: bool, value: string)
      requires len > 0 && IsFile(last.lastFile)
      ensures found == (key in Contents(media, last))
      ensures value == Cut(if found then Contents(media, last)[key] else defaultVal, len - 1)
    {
      var ini := media.File(last.lastFile);
      found := key in ini;
      value := Cut(if found then ini[key] else defaultVal, len - 1);
    }

    /** The write of `fat_write`, byte by byte; only the first `limit` bytes reach the medium. */
    method WriteSlot(f: bv16, packed: seq<Byte>, limit: nat)
      requires media.Valid() && IsFile(f) && |packed| == SLOT_SIZE && limit <= SLOT_SIZE
      modifies this`media
      ensures media == old(media).WithSlot(f, Torn(packed, old(media).Slot(f), limit)) && media.Valid()
    {
      var k := 0;
      while k < limit
        invariant 0 <= k <= limit && media.Valid()
        invariant media == old(media).WithSlot(f, Torn(packed, old(media).Slot(f), k))
      {
        TornGrows(packed, old(media).Slot(f), k);
        media := media.WithSlot(f, media.Slot(f)[k := packed[k]]);
        k := k + 1;
      }
    }

    /** `fat_update`: counts up and writes the entry to the slot of its own file number. */
    method FatUpdate(limit: nat)
      requires media.Valid() && IsFile(last.lastFile) && limit <= SLOT_SIZE
      requires |fmt.pack(last.(counter := Inc(last.counter)))| == SLOT_SIZE
      modifies this
      ensures last == old(last).(counter := Inc(old(last).counter)) && media.Valid()
      ensures media == old(media).WithSlot(last.lastFile, Torn(fmt.pack(last), old(media).Slot(last.lastFile), limit))
    {
      last := last.(counter := Inc(last.counter));
      WriteSlot(last.lastFile, fmt.pack(last), limit);
    }

    /** `ini_setString` from the current file into the other one, which becomes current. */
    method CopyTo(content: Ini)
      requires IsFile(last.lastFile)
      modifies this
      ensures last == old(last).(lastFile := Other(old(last).lastFile))
      ensures media == old(media).WithFile(last.lastFile, content)
    {
      last := last.(lastFile := Other(last.lastFile));
      media := media.WithFile(last.lastFile, content);
    }

    /** `dli_set` of an ini key. After a power cut only the medium is left. */
    method Set(key: string, value: string, fault: Fault) returns (ok: bool)
      requires media.Valid() && IsFile(last.lastFile) && fault.Valid() && |fmt.pack(Advance(last))| == SLOT_SIZE
      modifies this
      ensures media.Valid() && media == MediaAfter(fmt, old(media), old(last), key, value, fault)
      ensures !fault.CutInFile? && !fault.CutInFat? ==> last == LastAfter(old(last), fault)
      ensures ok == fault.NoFault?
    {
      if fault.CutInFile? || fault.FileError? {
        CopyTo(fault.junk);
        return false;
      }
      CopyTo(media.File(last.lastFile)[key := value]);
      assert last.(counter := Inc(last.counter)) == Advance(old(last));
      TornEnds(fmt.pack(Advance(old(last))), media.Slot(last.lastFile));
      FatUpdate(if fault.NoFault? then SLOT_SIZE else fault.k);
      ok := fault.NoFault?;
    }
  }

  lemma TornGrows(packed: seq<Byte>, s: seq<Byte>, k: nat)
    requires k < |packed| == |s|
    ensures Torn(packed, s, k)[k := packed[k]] == Torn(packed, s, k + 1)
  {
  }

  lemma TornEnds(packed: seq<Byte>, s: seq<Byte>)
    requires |packed| == |s|
    ensures Torn(packed, s, |s|) == packed && Torn(packed, s, 0) == s
  {
  }

  // ----- Formats that survive interrupted writes -----

  ghost predicate RoundTrips(fmt: Format, e: Entry) {
    |fmt.pack(e)| == SLOT_SIZE && fmt.read(fmt.pack(e)) == Some(e)
  }

  ghost predicate OverOlder(fmt: Format, e: Entry, n: Entry, k: nat) {
    Follows(e, n) && k <= |fmt.pack(n)| == |fmt.pack(e)| ==>
      var t := Torn(fmt.pack(n), fmt.pack(e), k);
      fmt.read(t) == None || t == fmt.pack(n) || t == fmt.pack(e)
  }

  ghost predicate OverErased(fmt: Format, e: Entry, k: nat) {
    IsFirst(e) && k <= |fmt.pack(e)| == |ERASED| ==>
      var t := Torn(fmt.pack(e), ERASED, k);
      fmt.read(t) == None || t == fmt.pack(e)
  }

  ghost predicate Sound(fmt: Format) {
    && fmt.read(ERASED) == None
    && (forall e :: RoundTrips(fmt, e))
    && (forall e, n, k: nat :: OverOlder(fmt, e, n, k))
    && (forall e, k: nat :: OverErased(fmt, e, k))
  }

  /** The CRC-guarded entries of `fat_write` and `fat_read` are such a format. */
  lemma FormatIsSound()
    ensures Sound(FORMAT)
  {
    ReadErased();
    forall e ensures RoundTrips(FORMAT, e) { ReadPack(e); }
    forall e, n, k: nat ensures OverOlder(FORMAT, e, n, k) {
      if Follows(e, n) && k <= SLOT_SIZE { TornOverOlder(e, n, k); }
    }
    forall e, k: nat ensures OverErased(FORMAT, e, k) {
      if IsFirst(e) && k <= SLOT_SIZE { FirstIsNotMisread(e, k); TornOverErased(e, k); }
    }
  }

  // ----- The invariant -----

  /**
   Cutting a write of the entry `next` over the slot `s` anywhere leaves a rejected slot, the
   whole of `next`, or the entry `prev` if there is one.
   */
  ghost predicate SafeAt(fmt: Format, s: seq<Byte>, next: Entry, prev: Option<Entry>, k: nat) {
    k <= |fmt.pack(next)| == |s| ==>
      var t := Torn(fmt.pack(next), s, k);
      fmt.read(t) == None || t == fmt.pack(next) || (prev.Some? && fmt.read(t) == prev)
  }

  ghost predicate Safe(fmt: Format, s: seq<Byte>, next: Entry, prev: Option<Entry>) {
    |s| == SLOT_SIZE && s != fmt.pack(next) && forall k: nat :: SafeAt(fmt, s, next, prev, k)
  }

  /** The entry of the set before the last one. */
  function Previous(last: Entry): Entry {
    Entry(last.counter - 1, Other(last.lastFile))
  }

  /** A slot 0 that reads as nothing, and stays so while one of the first entries is written over it. */
  ghost predicate Blank(fmt: Format, s: seq<Byte>) {
    Safe(fmt, s, Entry(2, 0), None) && Safe(fmt, s, Entry(1, 0), None)
  }

  /** A store that was never completely set since it was reset. */
  ghost predicate Fresh(fmt: Format, m: Media, last: Entry) {
    last == Entry(0, 0) && Blank(fmt, m.fat0) && Safe(fmt, m.fat1, Entry(1, 1), None)
  }

  /** A store whose current slot holds the current entry, which names the file of the same number. */
  ghost predicate Settled(fmt: Format, m: Media, last: Entry) {
    && IsFile(last.lastFile)
    && m.Slot(last.lastFile) == fmt.pack(last)
    && Safe(fmt, m.Slot(Other(last.lastFile)), Advance(last), Some(Previous(last)))
  }

  ghost predicate Inv(fmt: Format, m: Media, last: Entry) {
    m.Valid() && (Fresh(fmt, m, last) || Settled(fmt, m, last))
  }

  lemma OtherFlips(f: bv16)
    requires IsFile(f)
    ensures Other(f) != f && Other(Other(f)) == f
  {
  }

  lemma PreviousIsOlder(a: bv32, b: bv32)
    requires b == a - 1
    ensures Newer(a, b) && !Newer(b, a)
  {
  }

  /** The entry two sets ahead goes into the same slot. */
  lemma AdvanceTwice(e: Entry)
    requires IsFile(e.lastFile)
    ensures Advance(Advance(e)) == Next(e)
  {
  }

  lemma PreviousOfAdvance(e: Entry)
    requires IsFile(e.lastFile)
    ensures Previous(Advance(e)) == e
  {
  }

  lemma NextDiffers(e: Entry)
    ensures Next(e) != e
  {
  }

  lemma PackDiffers(fmt: Format, e: Entry, e': Entry)
    requires Sound(fmt) && e != e'
    ensures fmt.pack(e) != fmt.pack(e') && fmt.pack(e) != ERASED
  {
    assert RoundTrips(fmt, e) && RoundTrips(fmt, e');
  }

  lemma SafeNow(fmt: Format, s: seq<Byte>, next: Entry, prev: Option<Entry>)
    requires Sound(fmt) && Safe(fmt, s, next, prev)
    ensures fmt.read(s) == None || (prev.Some? && fmt.read(s) == prev)
  {
    assert RoundTrips(fmt, next);
    TornEnds(fmt.pack(next), s);
    assert SafeAt(fmt, s, next, prev, 0);
  }

  lemma SafeStays(fmt: Format, s: seq<Byte>, next: Entry, prev: Option<Entry>)
    requires Safe(fmt, s, next, None)
    ensures Safe(fmt, s, next, prev)
  {
    forall k: nat ensures SafeAt(fmt, s, next, prev, k) {
      assert SafeAt(fmt, s, next, None, k);
    }
  }

  /** What a reboot finds is the current entry. */
  lemma FindsLast(fmt: Format, m: Media, last: Entry)
    requires Sound(fmt) && Inv(fmt, m, last)
    ensures FindLast(fmt, m) == last
  {
    if Fresh(fmt, m, last) {
      SafeNow(fmt, m.fat0, Entry(2, 0), None);
      SafeNow(fmt, m.fat1, Entry(1, 1), None);
    } else {
      OtherFlips(last.lastFile);
      assert RoundTrips(fmt, last);
      var other := m.Slot(Other(last.lastFile));
      SafeNow(fmt, other, Advance(last), Some(Previous(last)));
      PreviousIsOlder(last.counter, Previous(last).counter);
    }
  }

  lemma TornTwice(w: seq<Byte>, s: seq<Byte>, j: nat, k: nat)
    requires |w| == |s| && j <= |s| && k <= |s|
    ensures Torn(w, Torn(w, s, j), k) == Torn(w, s, if j < k then k else j)
  {
  }

  /** A slot stays safe when the write of the next entry is cut, to be repeated later. */
  lemma CutKeepsSafe(fmt: Format, s: seq<Byte>, next: Entry, prev: Option<Entry>, j: nat)
    requires Safe(fmt, s, next, prev) && j <= |fmt.pack(next)| == SLOT_SIZE
    ensures var t := Torn(fmt.pack(next), s, j);
            t == fmt.pack(next) || Safe(fmt, t, next, prev)
  {
    var w := fmt.pack(next);
    forall k: nat ensures SafeAt(fmt, Torn(w, s, j), next, prev, k) {
      if k <= SLOT_SIZE {
        TornTwice(w, s, j, k);
        assert SafeAt(fmt, s, next, prev, if j < k then k else j);
      }
    }
  }

  /** The slot that a completed set leaves behind is safe for the next set. */
  lemma LeftBehindIsSafe(fmt: Format, e: Entry)
    requires Sound(fmt)
    ensures Safe(fmt, fmt.pack(e), Next(e), Some(e))
  {
    NextDiffers(e);
    PackDiffers(fmt, e, Next(e));
    assert RoundTrips(fmt, e) && RoundTrips(fmt, Next(e));
    forall k: nat ensures SafeAt(fmt, fmt.pack(e), Next(e), Some(e), k) {
      assert OverOlder(fmt, e, Next(e), k);
    }
  }

  lemma ErasedIsSafe(fmt: Format, e: Entry, prev: Option<Entry>)
    requires Sound(fmt) && IsFirst(e)
    ensures Safe(fmt, ERASED, e, prev)
  {
    assert RoundTrips(fmt, e);
    forall k: nat ensures SafeAt(fmt, ERASED, e, prev, k) {
      assert OverErased(fmt, e, k);
    }
  }

  // ----- Atomicity -----

  /** Writing the last byte of the next entry makes it current. */
  lemma CommitKeepsInv(fmt: Format, m: Media, last: Entry, key: string, value: string)
    requires Sound(fmt) && Inv(fmt, m, last)
    ensures RoundTrips(fmt, Advance(last))
    ensures var m' := MediaAfter(fmt, m, last, key, value, NoFault);
            && Inv(fmt, m', Advance(last))
            && Contents(m', Advance(last)) == Contents(m, last)[key := value]
  {
    assert RoundTrips(fmt, Advance(last));
    OtherFlips(last.lastFile);
    AdvanceTwice(last);
    PreviousOfAdvance(last);
    if Fresh(fmt, m, last) {
      SafeStays(fmt, m.fat0, Entry(2, 0), Some(last));
    } else {
      LeftBehindIsSafe(fmt, last);
    }
  }

  /** The store is as before the set, or as after it. */
  ghost predicate Atomic(before: Ini, key: string, value: string, after: Ini) {
    after == before || after == before[key := value]
  }

  /** A set stopped before its entry is complete leaves the store, and its invariant, alone. */
  lemma CutKeepsInv(fmt: Format, m: Media, last: Entry, key: string, value: string, fault: Fault)
    requires Sound(fmt) && Inv(fmt, m, last) && fault.Valid() && !fault.NoFault?
    ensures RoundTrips(fmt, Advance(last))
    ensures var m' := MediaAfter(fmt, m, last, key, value, fault);
            || (Inv(fmt, m', last) && Contents(m', last) == Contents(m, last))
            || m' == MediaAfter(fmt, m, last, key, value, NoFault)
  {
    assert RoundTrips(fmt, Advance(last));
    OtherFlips(last.lastFile);
    if fault.CutInFat? || fault.FatError? {
      if Fresh(fmt, m, last) {
        CutKeepsSafe(fmt, m.fat1, Entry(1, 1), None, fault.k);
      } else {
        CutKeepsSafe(fmt, m.Slot(Other(last.lastFile)), Advance(last), Some(Previous(last)), fault.k);
      }
    }
  }

  /**
   Crash atomicity for any sound format: losing power anywhere inside a set and starting again
   finds exactly the store before that set or the store after it, and the invariant again.
   */
  lemma CrashIsAtomicFor(fmt: Format, m: Media, last: Entry, key: string, value: string, fault: Fault)
    requires Sound(fmt) && Inv(fmt, m, last) && fault.Valid()
    ensures RoundTrips(fmt, Advance(last))
    ensures var m' := MediaAfter(fmt, m, last, key, value, fault);
            var last' := FindLast(fmt, m');
            Inv(fmt, m', last') && Atomic(Contents(m, last), key, value, Contents(m', last'))
    ensures fault.NoFault? || fault == CutInFat(SLOT_SIZE) ==>
            var m' := MediaAfter(fmt, m, last, key, value, fault);
            FindLast(fmt, m') == Advance(last) && Contents(m', Advance(last)) == Contents(m, last)[key := value]
    ensures fault.CutInFile? || fault.FileError? ==>
            FindLast(fmt, MediaAfter(fmt, m, last, key, value, fault)) == last
  {
    assert RoundTrips(fmt, Advance(last));
    var done := MediaAfter(fmt, m, last, key, value, NoFault);
    CommitKeepsInv(fmt, m, last, key, value);
    TornEnds(fmt.pack(Advance(last)), m.Slot(Other(last.lastFile)));
    FindsLast(fmt, done, Advance(last));
    if !fault.NoFault? {
      CutKeepsInv(fmt, m, last, key, value, fault);
      var m' := MediaAfter(fmt, m, last, key, value, fault);
      if m' != done {
        FindsLast(fmt, m', last);
      }
    }
  }

  // ----- Whole runs -----

  /** What may happen to a device that is never reset and is restarted after every set that fails. */
  datatype Event =
    | SetDone(key: string, value: string)
    | SetCut(key: string, value: string, cut: Fault)
    | Reboot
  {
    predicate Valid() {
      SetCut? ==> cut.Valid() && !cut.NoFault?
    }
  }

  /** One event: a completed set keeps its entry in RAM; after a fault or a reboot `dli_init` finds it again. */
  function After(fmt: Format, m: Media, last: Entry, ev: Event): (Media, Entry)
    requires m.Valid() && IsFile(last.lastFile) && ev.Valid() && |fmt.pack(Advance(last))| == SLOT_SIZE
  {
    match ev
    case SetDone(key, value) => (MediaAfter(fmt, m, last, key, value, NoFault), Advance(last))
    case SetCut(key, value, cut) =>
      var m' := MediaAfter(fmt, m, last, key, value, cut);
      (m', FindLast(fmt, m'))
    case Reboot => (m, FindLast(fmt, m))
  }

  /** `after` is `before` with every completed set applied in order and every stopped one applied or not. */
  ghost predicate Explains(before: Ini, events: seq<Event>, after: Ini)
    decreases |events|
  {
    if events == [] then after == before
    else match events[0]
      case SetDone(key, value) => Explains(before[key := value], events[1..], after)
      case SetCut(key, value, _) =>
        Explains(before, events[1..], after) || Explains(before[key := value], events[1..], after)
      case Reboot => Explains(before, events[1..], after)
  }

  /** `m'`, `last'` is where the events lead from `m`, `last`. */
  ghost predicate Leads(fmt: Format, m: Media, last: Entry, events: seq<Event>, m': Media, last': Entry)
    decreases |events|
  {
    if events == [] then m' == m && last' == last
    else
      && m.Valid() && IsFile(last.lastFile) && events[0].Valid() && |fmt.pack(Advance(last))| == SLOT_SIZE
      && var (m1, last1) := After(fmt, m, last, events[0]);
         Leads(fmt, m1, last1, events[1..], m', last')
  }

  lemma EventIsAtomic(fmt: Format, m: Media, last: Entry, ev: Event)
    requires Sound(fmt) && Inv(fmt, m, last) && ev.Valid() && |fmt.pack(Advance(last))| == SLOT_SIZE
    ensures var (m', last') := After(fmt, m, last, ev);
            && Inv(fmt, m', last')
            && match ev
               case SetDone(key, value) => Contents(m', last') == Contents(m, last)[key := value]
               case SetCut(key, value, _) => Atomic(Contents(m, last), key, value, Contents(m', last'))
               case Reboot => Contents(m', last') == Contents(m, last)
  {
    match ev
    case SetDone(key, value) => CommitKeepsInv(fmt, m, last, key, value);
    case SetCut(key, value, cut) => CrashIsAtomicFor(fmt, m, last, key, value, cut);
    case Reboot => FindsLast(fmt, m, last);
  }

  /** Every run, with cuts and errors at any byte of any set, is explained by whole sets. */
  lemma {:induction false} RunIsAtomicFor(fmt: Format, m: Media, last: Entry, events: seq<Event>, m': Media, last': Entry)
    requires Sound(fmt) && Inv(fmt, m, last) && Leads(fmt, m, last, events, m', last')
    ensures Inv(fmt, m', last') && Explains(Contents(m, last), events, Contents(m', last'))
    decreases |events|
  {
    if events != [] {
      var (m1, last1) := After(fmt, m, last, events[0]);
      EventIsAtomic(fmt, m, last, events[0]);
      RunIsAtomicFor(fmt, m1, last1, events[1..], m', last');
    }
  }

  // ----- The format of dli.c -----

  /** A store that was reset and started for the first time. */
  lemma ResetStoreIsFresh(m: Media)
    requires m.fat0 == ERASED && m.fat1 == ERASED
    ensures FindLast(FORMAT, m) == Entry(0, 0) && Inv(FORMAT, m, Entry(0, 0))
  {
    FormatIsSound();
    ErasedIsBlank();
  }

  lemma ErasedIsBlank()
    ensures Blank(FORMAT, ERASED) && Safe(FORMAT, ERASED, Entry(1, 1), None)
  {
    FormatIsSound();
    ErasedIsSafe(FORMAT, Entry(1, 1), None);
    ErasedIsSafe(FORMAT, Entry(2, 0), None);
    ErasedIsSafe(FORMAT, Entry(1, 0), None);
  }

  /** Crash atomicity of the store: before the set or after it, wherever power is lost or an error stops it. */
  lemma CrashIsAtomic(m: Media, last: Entry, key: string, value: string, cut: Fault)
    requires cut.Valid() && !cut.NoFault?
    ensures Inv(FORMAT, m, last) ==>
              && |FORMAT.pack(Advance(last))| == SLOT_SIZE
              && var m' := MediaAfter(FORMAT, m, last, key, value, cut);
                 var last' := FindLast(FORMAT, m');
                 Inv(FORMAT, m', last') && Atomic(Contents(m, last), key, value, Contents(m', last'))
  {
    FormatIsSound();
    if Inv(FORMAT, m, last) {
      CrashIsAtomicFor(FORMAT, m, last, key, value, cut);
    }
  }

  /** The same over whole runs from an erased store. */
  lemma RunIsAtomic(m: Media, events: seq<Event>, m': Media, last': Entry)
    requires m.fat0 == ERASED && m.fat1 == ERASED
    ensures Leads(FORMAT, m, FindLast(FORMAT, m), events, m', last') ==>
              Inv(FORMAT, m', last') && Explains(m.file0, events, Contents(m', last'))
  {
    FormatIsSound();
    ResetStoreIsFresh(m);
    if Leads(FORMAT, m, Entry(0, 0), events, m', last') {
      RunIsAtomicFor(FORMAT, m, Entry(0, 0), events, m', last');
    }
  }

  /** No sequence of events gets stuck. */
  lemma EveryRunLeads(m: Media, events: seq<Event>)
    requires m.fat0 == ERASED && m.fat1 == ERASED && forall i :: 0 <= i < |events| ==> events[i].Valid()
    ensures exists m', last' :: Leads(FORMAT, m, FindLast(FORMAT, m), events, m', last')
  {
    FormatIsSound();
    ResetStoreIsFresh(m);
    var m', last' := RunLeadsFor(FORMAT, m, Entry(0, 0), events);
  }

  lemma {:induction false} RunLeadsFor(fmt: Format, m: Media, last: Entry, events: seq<Event>)
    returns (m': Media, last': Entry)
    requires Sound(fmt) && Inv(fmt, m, last) && forall i :: 0 <= i < |events| ==> events[i].Valid()
    ensures Leads(fmt, m, last, events, m', last')
    decreases |events|
  {
    if events == [] {
      m', last' := m, last;
    } else {
      assert RoundTrips(fmt, Advance(last));
      EventIsAtomic(fmt, m, last, events[0]);
      var (m1, last1) := After(fmt, m, last, events[0]);
      m', last' := RunLeadsFor(fmt, m1, last1, events[1..]);
    }
  }

  /**
   The invariant in the terms of the entries: a readable slot names the file of its own number,
   and of two readable entries one is the other's predecessor, its counter one less modulo 2^32.
   */
  ghost predicate Alternate(a: Option<Entry>, b: Option<Entry>) {
    && (a.Some? ==> a.value.lastFile == 0)
    && (b.Some? ==> b.value.lastFile == 1)
    && (a.Some? && b.Some? ==> a.value == Previous(b.value) || b.value == Previous(a.value))
  }

  lemma ReadableSlots(m: Media, last: Entry)
    ensures Inv(FORMAT, m, last) ==> Alternate(FORMAT.read(m.fat0), FORMAT.read(m.fat1))
  {
    FormatIsSound();
    if Inv(FORMAT, m, last) {
      ReadableSlotsFor(FORMAT, m, last);
    }
  }

  lemma ReadableSlotsFor(fmt: Format, m: Media, last: Entry)
    requires Sound(fmt) && Inv(fmt, m, last)
    ensures Alternate(fmt.read(m.fat0), fmt.read(m.fat1))
  {
    if Fresh(fmt, m, last) {
      SafeNow(fmt, m.fat0, Entry(2, 0), None);
      SafeNow(fmt, m.fat1, Entry(1, 1), None);
    } else {
      OtherFlips(last.lastFile);
      assert RoundTrips(fmt, last);
      SafeNow(fmt, m.Slot(Other(last.lastFile)), Advance(last), Some(Previous(last)));
    }
  }

  // ----- Sets that fail without a restart -----

  /** A fault that `dli_set` survives to report. */
  predicate Reported(fault: Fault) {
    fault.Valid() && (fault.FileError? || fault.FatError?)
  }

  /** The entry was written whole after all, its missing bytes being there already. */
  predicate Whole(fmt: Format, m: Media, last: Entry, fault: Fault)
    requires m.Valid() && IsFile(last.lastFile) && fault.Valid() && |fmt.pack(Advance(last))| == SLOT_SIZE
  {
    fault.FatError? && Torn(fmt.pack(Advance(last)), m.Slot(Other(last.lastFile)), fault.k) == fmt.pack(Advance(last))
  }

  /** Where a reported failure leaves the store: in RAM, and for the next start. */
  ghost predicate LeftBy(fmt: Format, m: Media, last: Entry, key: string, value: string, fault: Fault)
    requires m.Valid() && IsFile(last.lastFile) && fault.Valid() && |fmt.pack(Advance(last))| == SLOT_SIZE
  {
    var (m', last') := (MediaAfter(fmt, m, last, key, value, fault), LastAfter(last, fault));
    var whole := Whole(fmt, m, last, fault);
    && Contents(m', last') == (if fault.FileError? then fault.junk else Contents(m, last)[key := value])
    && Inv(fmt, m', FindLast(fmt, m')) && FindLast(fmt, m') == (if whole then last' else last)
    && (!whole ==> Contents(m', last) == Contents(m, last))
    && (Inv(fmt, m', last') <==> whole)
  }

  lemma CountersDiffer(c: bv32)
    ensures Inc(c) != c
  {
  }

  /** An entry in RAM that the next start does not find is none that the invariant speaks of. */
  lemma InvIsFound(fmt: Format, m: Media, last: Entry, last': Entry)
    requires Sound(fmt) && Inv(fmt, m, last) && last' != last
    ensures !Inv(fmt, m, last')
  {
    FindsLast(fmt, m, last);
    if Inv(fmt, m, last') {
      FindsLast(fmt, m, last');
    }
  }

  /**
   A set that reports failure has changed what `dli_get` reads: to the half-written copy after
   an error in the file, to the new value after a short entry. The invariant holds of the entry
   in RAM only if that entry got written whole; a restart restores it always.
   */
  lemma FailedSetFor(fmt: Format, m: Media, last: Entry, key: string, value: string, fault: Fault)
    requires Sound(fmt) && Inv(fmt, m, last) && Reported(fault)
    ensures RoundTrips(fmt, Advance(last)) && LeftBy(fmt, m, last, key, value, fault)
  {
    assert RoundTrips(fmt, Advance(last));
    OtherFlips(last.lastFile);
    CountersDiffer(last.counter);
    var (m', last') := (MediaAfter(fmt, m, last, key, value, fault), LastAfter(last, fault));
    if Whole(fmt, m, last, fault) {
      CommitKeepsInv(fmt, m, last, key, value);
      FindsLast(fmt, m', last');
    } else {
      StoppedKeepsInv(fmt, m, last, key, value, fault);
      FindsLast(fmt, m', last);
      InvIsFound(fmt, m', last, last');
    }
  }

  lemma StoppedKeepsInv(fmt: Format, m: Media, last: Entry, key: string, value: string, fault: Fault)
    requires Sound(fmt) && Inv(fmt, m, last) && Reported(fault)
    requires |fmt.pack(Advance(last))| == SLOT_SIZE && !Whole(fmt, m, last, fault)
    ensures var m' := MediaAfter(fmt, m, last, key, value, fault);
            Inv(fmt, m', last) && Contents(m', last) == Contents(m, last)
  {
    OtherFlips(last.lastFile);
    CutKeepsInv(fmt, m, last, key, value, fault);
  }

  /** The entry in RAM names the other file, and has counted only if the file was written. */
  lemma FailedSetCounts(last: Entry, fault: Fault)
    requires IsFile(last.lastFile) && Reported(fault)
    ensures LastAfter(last, fault).lastFile == 1 - last.lastFile
    ensures LastAfter(last, fault).counter == if fault.FileError? then last.counter else last.counter + 1
  {
  }

  lemma FailedSetShows(m: Media, last: Entry, key: string, value: string, fault: Fault)
    requires m.Valid() && Reported(fault)
    ensures Inv(FORMAT, m, last) ==>
              |FORMAT.pack(Advance(last))| == SLOT_SIZE && LeftBy(FORMAT, m, last, key, value, fault)
  {
    FormatIsSound();
    if Inv(FORMAT, m, last) {
      FailedSetFor(FORMAT, m, last, key, value, fault);
    }
  }

  ghost predicate Outruns(e: Entry, prev: Entry) {
    Newer(e.counter, prev.counter) && !Newer(prev.counter, e.counter)
  }

  lemma FoundOver(fmt: Format, m: Media, e: Entry, prev: Entry)
    requires IsFile(e.lastFile) && m.Slot(e.lastFile) == fmt.pack(e) && RoundTrips(fmt, e)
    requires var r := fmt.read(m.Slot(Other(e.lastFile)));
             r.None? || r == Some(prev)
    requires Outruns(e, prev)
    ensures FindLast(fmt, m) == e
  {
    OtherFlips(e.lastFile);
  }

  /** What a start finds in the slot that is not current. */
  lemma OtherSlotIsOlder(fmt: Format, m: Media, last: Entry)
    requires Sound(fmt) && Inv(fmt, m, last)
    ensures var r := fmt.read(m.Slot(Other(last.lastFile)));
            r.None? || r == Some(Previous(last))
  {
    OtherFlips(last.lastFile);
    if Fresh(fmt, m, last) {
      SafeNow(fmt, m.fat0, Entry(2, 0), None);
      SafeNow(fmt, m.fat1, Entry(1, 1), None);
    } else {
      SafeNow(fmt, m.Slot(Other(last.lastFile)), Advance(last), Some(Previous(last)));
    }
  }

  /**
   The next set, if there was no restart. Completed, it makes permanent whatever `dli_get` read,
   the half-written copy included. Stopped while it rewrites its file, it has rewritten the one
   good copy, unless the entry of the failed set got written whole. Stopped anywhere in its
   entry, it is atomic for what `dli_get` read.
   */
  ghost predicate NextSet(fmt: Format, m: Media, last: Entry, e: Entry, whole: bool, key: string, value: string,
                          fault: Fault)
    requires m.Valid() && IsFile(last.lastFile) && IsFile(e.lastFile) && fault.Valid()
    requires |fmt.pack(Advance(e))| == SLOT_SIZE
  {
    var m' := MediaAfter(fmt, m, e, key, value, fault);
    match fault
    case NoFault => FindLast(fmt, m') == Advance(e) && Contents(m', Advance(e)) == Contents(m, e)[key := value]
    case CutInFile(junk) => Restarted(fmt, m') == Some(if whole then Contents(m, e) else junk)
    case FileError(junk) => Restarted(fmt, m') == Some(if whole then Contents(m, e) else junk)
    case _ => Restarted(fmt, m').Some? && Atomic(Contents(m, e), key, value, Restarted(fmt, m').value)
  }

  /** The two entries a failed set may leave in RAM, both naming the file that is not current. */
  ghost predicate Ahead(last: Entry, e: Entry) {
    e == Flipped(last) || e == Advance(last)
  }

  lemma IsNewer(a: bv32, b: bv32, d: bv32, e: bv32)
    requires a - b == d && b - a == e && d != 0 && d & 0x8000_0000 == 0 && e & 0x8000_0000 != 0
    ensures Newer(a, b) && !Newer(b, a)
  {
  }

  lemma ByTwo(c: bv32)
    ensures (c + 1) - (c - 1) == 2 && (c - 1) - (c + 1) == 0xFFFF_FFFE
  {
  }

  lemma ByThree(c: bv32)
    ensures (c + 1 + 1) - (c - 1) == 3 && (c - 1) - (c + 1 + 1) == 0xFFFF_FFFD
  {
  }

  lemma OneAhead(c: bv32, d: bv32, p: bv32)
    requires d == c + 1 && p == c - 1
    ensures Newer(d, p) && !Newer(p, d)
  {
    ByTwo(c);
    IsNewer(d, p, 2, 0xFFFF_FFFE);
  }

  lemma TwoAhead(c: bv32, d: bv32, p: bv32)
    requires d == c + 1 + 1 && p == c - 1
    ensures Newer(d, p) && !Newer(p, d)
  {
    ByThree(c);
    IsNewer(d, p, 3, 0xFFFF_FFFD);
  }

  lemma AheadIsDone(fmt: Format, m: Media, last: Entry, e: Entry, next: Entry, prev: Entry, key: string, value: string)
    requires Sound(fmt) && Inv(fmt, m, last) && e.lastFile == Other(last.lastFile)
    requires next == Advance(e) && prev == Previous(last)
    requires GoesOver(last, next, prev)
    ensures |fmt.pack(next)| == SLOT_SIZE
    ensures var done := MediaAfter(fmt, m, e, key, value, NoFault);
            FindLast(fmt, done) == next && Contents(done, next) == Contents(m, e)[key := value]
  {
    assert RoundTrips(fmt, next);
    var done := MediaAfter(fmt, m, e, key, value, NoFault);
    OtherFlips(last.lastFile);
    OtherSlotIsOlder(fmt, m, last);
    assert done.Slot(Other(last.lastFile)) == m.Slot(Other(last.lastFile));
    FoundOver(fmt, done, next, prev);
  }

  lemma AheadIsCut(fmt: Format, m: Media, last: Entry, e: Entry, key: string, value: string, fault: Fault)
    requires Sound(fmt) && Inv(fmt, m, last) && e.lastFile == Other(last.lastFile) && RoundTrips(fmt, Advance(e))
    requires fault.CutInFile? || fault.FileError?
    ensures Restarted(fmt, MediaAfter(fmt, m, e, key, value, fault)) == Some(fault.junk)
  {
    OtherFlips(last.lastFile);
    FindsLast(fmt, m, last);
  }

  /** The entry that goes over `last`, ahead of the one in the other slot. */
  ghost predicate GoesOver(last: Entry, next: Entry, prev: Entry) {
    && Follows(last, next) && (last == Entry(0, 0) ==> IsFirst(next))
    && Outruns(next, prev) && Outruns(last, prev)
  }

  lemma FlippedFollows(last: Entry)
    requires IsFile(last.lastFile)
    ensures Advance(Flipped(last)) == Later(last)
  {
    OtherFlips(last.lastFile);
  }

  lemma FirstFollow()
    ensures IsFirst(Later(Entry(0, 0))) && IsFirst(Next(Entry(0, 0)))
  {
  }

  lemma LastOutruns(last: Entry)
    ensures Outruns(last, Previous(last))
  {
    PreviousIsOlder(last.counter, Previous(last).counter);
  }

  lemma LaterOutruns(last: Entry)
    ensures Outruns(Later(last), Previous(last))
  {
    OneAhead(last.counter, Later(last).counter, Previous(last).counter);
  }

  lemma NextOutruns(last: Entry)
    ensures Outruns(Next(last), Previous(last))
  {
    TwoAhead(last.counter, Next(last).counter, Previous(last).counter);
  }

  lemma GoesOverBy(last: Entry, next: Entry, prev: Entry)
    requires next == Later(last) || next == Next(last)
    requires Outruns(next, prev) && Outruns(last, prev)
    ensures GoesOver(last, next, prev)
  {
    FirstFollow();
  }

  /** What a cut write over the current slot leaves there. */
  lemma CurrentSlotTorn(fmt: Format, m: Media, last: Entry, next: Entry, k: nat)
    requires Sound(fmt) && Inv(fmt, m, last) && Follows(last, next) && (last == Entry(0, 0) ==> IsFirst(next))
    requires k <= SLOT_SIZE
    ensures |fmt.pack(next)| == SLOT_SIZE && |fmt.pack(last)| == SLOT_SIZE
    ensures var t := Torn(fmt.pack(next), m.Slot(last.lastFile), k);
            fmt.read(t) == None || t == fmt.pack(next) || t == fmt.pack(last)
  {
    assert RoundTrips(fmt, next) && RoundTrips(fmt, last);
    if Fresh(fmt, m, last) {
      assert next != Entry(1, 1);
      assert SafeAt(fmt, m.fat0, next, None, k);
    } else {
      assert OverOlder(fmt, last, next, k);
    }
  }

  /** A start that finds nothing in the current slot takes the other file, or file 0. */
  lemma FoundWithout(fmt: Format, m: Media, f: bv16, prev: Entry)
    requires IsFile(f) && fmt.read(m.Slot(f)) == None && prev.lastFile == Other(f)
    requires var r := fmt.read(m.Slot(Other(f)));
             r.None? || r == Some(prev)
    ensures FindLast(fmt, m) == prev || FindLast(fmt, m) == Entry(0, 0)
  {
    OtherFlips(f);
  }

  lemma AheadInEntry(fmt: Format, m: Media, last: Entry, e: Entry, next: Entry, prev: Entry, key: string, value: string,
                     fault: Fault)
    requires Sound(fmt) && Inv(fmt, m, last) && e.lastFile == Other(last.lastFile) && fault.Valid()
    requires (fault.CutInFat? || fault.FatError?) && next == Advance(e) && prev == Previous(last)
    requires GoesOver(last, next, prev) && RoundTrips(fmt, next)
    ensures var r := Restarted(fmt, MediaAfter(fmt, m, e, key, value, fault));
            r.Some? && Atomic(Contents(m, e), key, value, r.value)
  {
    var f := last.lastFile;
    var m' := MediaAfter(fmt, m, e, key, value, fault);
    OtherFlips(f);
    OtherSlotIsOlder(fmt, m, last);
    CurrentSlotTorn(fmt, m, last, next, fault.k);
    assert m'.Slot(Other(f)) == m.Slot(Other(f));
    assert m'.File(Other(f)) == Contents(m, e) && m'.File(f) == Contents(m, e)[key := value];
    if fmt.read(m'.Slot(f)) == None {
      FoundWithout(fmt, m', f, prev);
    } else if m'.Slot(f) == fmt.pack(next) {
      FoundOver(fmt, m', next, prev);
    } else {
      assert RoundTrips(fmt, last);
      FoundOver(fmt, m', last, prev);
    }
  }

  lemma NextSetBy(fmt: Format, m: Media, last: Entry, e: Entry, next: Entry, prev: Entry, key: string, value: string,
                  fault: Fault)
    requires Sound(fmt) && Inv(fmt, m, last) && e.lastFile == Other(last.lastFile) && fault.Valid()
    requires next == Advance(e) && prev == Previous(last) && GoesOver(last, next, prev) && RoundTrips(fmt, next)
    ensures NextSet(fmt, m, last, e, false, key, value, fault)
  {
    if fault.NoFault? {
      AheadIsDone(fmt, m, last, e, next, prev, key, value);
    } else if fault.CutInFile? || fault.FileError? {
      AheadIsCut(fmt, m, last, e, key, value, fault);
    } else {
      AheadInEntry(fmt, m, last, e, next, prev, key, value, fault);
    }
  }

  lemma NextSetOverGood(fmt: Format, m: Media, last: Entry, e: Entry, key: string, value: string, fault: Fault)
    requires Sound(fmt) && Inv(fmt, m, last) && Ahead(last, e) && fault.Valid()
    ensures RoundTrips(fmt, Advance(e)) && NextSet(fmt, m, last, e, false, key, value, fault)
  {
    assert RoundTrips(fmt, Advance(e));
    LastOutruns(last);
    if e == Flipped(last) {
      FlippedFollows(last);
      LaterOutruns(last);
    } else {
      AdvanceTwice(last);
      NextOutruns(last);
    }
    GoesOverBy(last, Advance(e), Previous(last));
    NextSetBy(fmt, m, last, e, Advance(e), Previous(last), key, value, fault);
  }

  lemma NextSetOverOld(fmt: Format, m: Media, last: Entry, e: Entry, key: string, value: string, fault: Fault)
    requires Sound(fmt) && Inv(fmt, m, e) && IsFile(last.lastFile) && fault.Valid()
    ensures RoundTrips(fmt, Advance(e)) && NextSet(fmt, m, last, e, true, key, value, fault)
  {
    CrashIsAtomicFor(fmt, m, e, key, value, fault);
    OtherFlips(e.lastFile);
  }

  lemma SetAfterFailure(m: Media, last: Entry, key: string, value: string, fault: Fault,
      key': string, value': string, fault': Fault)
    requires m.Valid() && Reported(fault) && fault'.Valid()
    ensures Inv(FORMAT, m, last) ==>
              && |FORMAT.pack(Advance(last))| == SLOT_SIZE
              && var (m', last') := (MediaAfter(FORMAT, m, last, key, value, fault), LastAfter(last, fault));
                 && m'.Valid() && |FORMAT.pack(Advance(last'))| == SLOT_SIZE
                 && NextSet(FORMAT, m', last, last', Whole(FORMAT, m, last, fault), key', value', fault')
  {
    FormatIsSound();
    if Inv(FORMAT, m, last) {
      FailedSetFor(FORMAT, m, last, key, value, fault);
      var (m', last') := (MediaAfter(FORMAT, m, last, key, value, fault), LastAfter(last, fault));
      if Whole(FORMAT, m, last, fault) {
        NextSetOverOld(FORMAT, m', last, last', key', value', fault');
      } else {
        NextSetOverGood(FORMAT, m', last, last', key', value', fault');
      }
    }
  }

  // ----- Reset of a running device -----

  /** What `dli_reset` leaves on the medium; the entry in RAM stays. */
  const RESET := Media(ERASED, ERASED, map[], map[])

  /**
   Exactly what the restart reads when the first set after a reset is stopped, or not. A start
   that finds no entry reads file 0, and one that misreads an entry stops.
   */
  function FirstAfterReset(last: Entry, key: string, value: string, fault: Fault): Option<Ini>
    requires fault.Valid()
  {
    var (e, ini) := (Advance(last), map[key := value]);
    match fault
    case NoFault => Some(ini)
    case CutInFile(junk) => Some(if last.lastFile == 0 then map[] else junk)
    case FileError(junk) => Some(if last.lastFile == 0 then map[] else junk)
    case _ =>
      if Misread(e, fault.k) then None
      else if last.lastFile == 1 || Torn(Pack(e), ERASED, fault.k) == Pack(e) then Some(ini)
      else Some(map[])
  }

  lemma FoundAlone(fmt: Format, m: Media, f: bv16)
    requires IsFile(f) && fmt.read(m.Slot(Other(f))) == None
    ensures FindLast(fmt, m) == if fmt.read(m.Slot(f)).Some? then fmt.read(m.Slot(f)).value else Entry(0, 0)
  {
    OtherFlips(f);
  }

  lemma SetAfterReset(last: Entry, key: string, value: string, fault: Fault)
    requires IsFile(last.lastFile) && fault.Valid()
    ensures |FORMAT.pack(Advance(last))| == SLOT_SIZE
    ensures var m' := MediaAfter(FORMAT, RESET, last, key, value, fault);
            Restarted(FORMAT, m') == FirstAfterReset(last, key, value, fault)
  {
    var e := Advance(last);
    OtherFlips(last.lastFile);
    ReadErased();
    ReadPack(e);
    var m' := MediaAfter(FORMAT, RESET, last, key, value, fault);
    FoundAlone(FORMAT, m', e.lastFile);
    if fault.CutInFat? || fault.FatError? {
      TornOverErased(e, fault.k);
    }
  }

  /**
   So a set after a reset is atomic if and only if neither a file that a start would read was
   left half-written nor the cut entry is one that is misread.
   */
  lemma AtomicAfterReset(last: Entry, key: string, value: string, fault: Fault)
    requires IsFile(last.lastFile) && fault.Valid()
    ensures |FORMAT.pack(Advance(last))| == SLOT_SIZE
    ensures var r := Restarted(FORMAT, MediaAfter(FORMAT, RESET, last, key, value, fault));
            r.Some? && Atomic(map[], key, value, r.value) <==>
            match fault
            case NoFault => true
            case CutInFile(junk) => last.lastFile == 0 || Atomic(map[], key, value, junk)
            case FileError(junk) => last.lastFile == 0 || Atomic(map[], key, value, junk)
            case CutInFat(k) => !Misread(Advance(last), k)
            case FatError(k) => !Misread(Advance(last), k)
  {
    SetAfterReset(last, key, value, fault);
  }

  /** A device that was reset with counter 0x7831 and loses power after eight bytes of the next entry does not start. */
  lemma SomeResetStops(key: string, value: string)
    ensures |FORMAT.pack(Advance(Entry(0x7831, 0)))| == SLOT_SIZE
    ensures Restarted(FORMAT, MediaAfter(FORMAT, RESET, Entry(0x7831, 0), key, value, CutInFat(8))) == None
  {
    SetAfterReset(Entry(0x7831, 0), key, value, CutInFat(8));
    assert Advance(Entry(0x7831, 0)) == Entry(0x7832, 1);
    SomeCounterIsMisread();
  }

  lemma SafeOverErased(e: Entry, prev: Option<Entry>)
    requires prev.Some? ==> IsFile(prev.value.lastFile)
    ensures Safe(FORMAT, ERASED, e, prev) <==> forall k: nat :: !Misread(e, k)
  {
    ReadErased();
    ReadPack(e);
    forall k: nat ensures SafeAt(FORMAT, ERASED, e, prev, k) <==> !Misread(e, k) {
      if k <= SLOT_SIZE {
        TornOverErased(e, k);
      }
    }
  }

  /** One slot is whole and the other one erased. */
  lemma InvOverErased(m: Media, e: Entry)
    requires m.Valid() && IsFile(e.lastFile) && m.Slot(e.lastFile) == Pack(e) && m.Slot(Other(e.lastFile)) == ERASED
    ensures Inv(FORMAT, m, e) <==> forall k: nat :: !Misread(Advance(e), k)
  {
    SafeOverErased(Advance(e), Some(Previous(e)));
    if Fresh(FORMAT, m, e) {
      FormatIsSound();
      ReadPack(e);
      SafeNow(FORMAT, m.fat0, Entry(2, 0), None);
    }
  }

  /** What must not be readable while the first entries are written over a torn slot. */
  ghost predicate CleanSlot(f: bv16, t: seq<Byte>) {
    if f == 0 then Blank(FORMAT, t) else Safe(FORMAT, t, Entry(1, 1), None)
  }

  /** One slot is torn and rejected and the other one erased. */
  lemma InvOverTorn(m: Media, f: bv16)
    requires m.Valid() && IsFile(f) && Read(m.Slot(f)) == None && m.Slot(Other(f)) == ERASED
    ensures Inv(FORMAT, m, Entry(0, 0)) <==> CleanSlot(f, m.Slot(f))
  {
    OtherFlips(f);
    ErasedIsBlank();
    ReadErased();
    ReadPack(Entry(0, 0));
  }

  /**
   `k` bytes of the entry `e` reached an erased slot. Where that is the whole entry no cut of the
   one after it is misread; otherwise it is not misread itself, and what is left of it cannot be
   completed to anything readable by the first entries.
   */
  ghost predicate Recovers(e: Entry, k: nat)
    requires k <= SLOT_SIZE
  {
    var t := Torn(Pack(e), ERASED, k);
    if t == Pack(e) then forall j: nat :: !Misread(Advance(e), j)
    else !Misread(e, k) && CleanSlot(e.lastFile, t)
  }

  lemma InvBySlot(m: Media, e: Entry, k: nat)
    requires m.Valid() && IsFile(e.lastFile) && k <= SLOT_SIZE
    requires m.Slot(e.lastFile) == Torn(Pack(e), ERASED, k) && m.Slot(Other(e.lastFile)) == ERASED
    ensures Inv(FORMAT, m, FindLast(FORMAT, m)) <==> Recovers(e, k)
  {
    ReadErased();
    ReadPack(e);
    FoundAlone(FORMAT, m, e.lastFile);
    TornOverErased(e, k);
    if m.Slot(e.lastFile) == Pack(e) {
      InvOverErased(m, e);
    } else if !Misread(e, k) {
      InvOverTorn(m, e.lastFile);
    }
  }

  /**
   After the first set behind a reset and a restart the store is as good as ever, for every later
   run, if and only if this holds.
   */
  ghost predicate RecoversAfterReset(last: Entry, fault: Fault)
    requires fault.Valid()
  {
    match fault
    case NoFault => Recovers(Advance(last), SLOT_SIZE)
    case CutInFile(_) => true
    case FileError(_) => true
    case _ => Recovers(Advance(last), fault.k)
  }

  lemma SlotsAfterReset(last: Entry, key: string, value: string, fault: Fault, k: nat)
    requires IsFile(last.lastFile) && fault.Valid() && k <= SLOT_SIZE
    requires (fault.NoFault? && k == SLOT_SIZE) || ((fault.CutInFat? || fault.FatError?) && k == fault.k)
    ensures |FORMAT.pack(Advance(last))| == SLOT_SIZE
    ensures var (e, m') := (Advance(last), MediaAfter(FORMAT, RESET, last, key, value, fault));
            m'.Valid() && m'.Slot(e.lastFile) == Torn(Pack(e), ERASED, k) && m'.Slot(Other(e.lastFile)) == ERASED
  {
    OtherFlips(last.lastFile);
    TornEnds(Pack(Advance(last)), ERASED);
  }

  lemma InvAfterReset(last: Entry, key: string, value: string, fault: Fault)
    requires IsFile(last.lastFile) && fault.Valid()
    ensures |FORMAT.pack(Advance(last))| == SLOT_SIZE
    ensures var m' := MediaAfter(FORMAT, RESET, last, key, value, fault);
            Inv(FORMAT, m', FindLast(FORMAT, m')) <==> RecoversAfterReset(last, fault)
  {
    var m' := MediaAfter(FORMAT, RESET, last, key, value, fault);
    if fault.CutInFile? || fault.FileError? {
      ResetStoreIsFresh(m');
    } else {
      var k := if fault.NoFault? then SLOT_SIZE else fault.k;
      SlotsAfterReset(last, key, value, fault, k);
      InvBySlot(m', Advance(last), k);
    }
  }

  /** Then every later run is explained by whole sets. */
  lemma RunAfterReset(last: Entry, key: string, value: string, fault: Fault, events: seq<Event>, m': Media, last': Entry)
    requires IsFile(last.lastFile) && fault.Valid() && RecoversAfterReset(last, fault)
    ensures |FORMAT.pack(Advance(last))| == SLOT_SIZE
    ensures var m := MediaAfter(FORMAT, RESET, last, key, value, fault);
            Leads(FORMAT, m, FindLast(FORMAT, m), events, m', last') ==>
              && Inv(FORMAT, m', last') && IsFile(FindLast(FORMAT, m).lastFile)
              && Explains(Contents(m, FindLast(FORMAT, m)), events, Contents(m', last'))
  {
    FormatIsSound();
    InvAfterReset(last, key, value, fault);
    var m := MediaAfter(FORMAT, RESET, last, key, value, fault);
    if Leads(FORMAT, m, FindLast(FORMAT, m), events, m', last') {
      RunIsAtomicFor(FORMAT, m, FindLast(FORMAT, m), events, m', last');
    }
  }
}
