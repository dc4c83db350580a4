/**
 The DMA ring of bertos/drv/ads79xx.c. The converter fills a circular buffer block by block and
 interrupts after each one; a slice is a whole number of blocks and the consumer is woken once
 per slice. Pointers are offsets from the base of the buffer.
 */
module AdcRing {
  import opened Bytes
  import opened Division
  import opened Sequences

  /** `per` blocks of `len` bytes make a slice, `slices` slices make the buffer. */
  datatype Geometry = Geometry(len: nat, per: nat, slices: nat) {

    predicate Valid() {
      len > 0 && per > 0 && slices > 0
    }

    function SliceLen(): nat {
      per * len
    }

    function BufLen(): nat {
      slices * SliceLen()
    }
  }

  /** `MOVE_AND_WRAP`. */
  function Move(p: nat, len: nat, bufLen: nat): nat {
    if p + len == bufLen then 0 else p + len
  }

  // ----- The interrupt handler on its pointers -----

  datatype Pointers = Pointers(tail: nat, sliceEnd: nat, events: nat)

  /** The pointers `ads79xx_dmaStart` sets up. */
  function Start(g: Geometry): Pointers {
    Pointers(0, g.SliceLen(), 0)
  }

  /** One interrupt. */
  function Isr(g: Geometry, p: Pointers): Pointers {
    var tail := Move(p.tail, g.len, g.BufLen());
    if tail == p.sliceEnd then Pointers(tail, Move(p.sliceEnd, g.SliceLen(), g.BufLen()), p.events + 1)
    else Pointers(tail, p.sliceEnd, p.events)
  }

  function After(g: Geometry, n: nat): Pointers {
    if n == 0 then Start(g) else Isr(g, After(g, n - 1))
  }

  // ----- Where the pointers are after `n` interrupts -----

  /** The offset of block `r` of slot `s`. */
  function Offset(g: Geometry, s: nat, r: nat): nat {
    s * g.SliceLen() + r * g.len
  }

  function Following(s: nat, slices: nat): nat {
    if s + 1 == slices then 0 else s + 1
  }

  /** Slot `s` of the ring, `r` blocks into it, `q` slices signalled. */
  function At(g: Geometry, s: nat, r: nat, q: nat): Pointers {
    Pointers(Offset(g, s, r), Offset(g, Following(s, g.slices), 0), q)
  }

  lemma Steps(s: nat, n: nat, l: nat)
    requires s < n && l > 0
    ensures s * l + l == (s + 1) * l <= n * l
    ensures (s + 1) * l == n * l <==> s + 1 == n
  {
    var k := n - (s + 1);
    assert n * l == (s + 1) * l + k * l;
    assert k > 0 ==> k * l > 0;
  }

  lemma SliceLenPositive(g: Geometry)
    requires g.Valid()
    ensures g.SliceLen() > 0
  {
    Steps(0, g.per, g.len);
  }

  lemma SlotEnds(g: Geometry, s: nat)
    requires g.Valid() && s < g.slices
    ensures Offset(g, s, 0) + g.SliceLen() == Offset(g, s + 1, 0) <= g.BufLen()
    ensures Offset(g, s + 1, 0) == g.BufLen() <==> s + 1 == g.slices
  {
    SliceLenPositive(g);
    Steps(s, g.slices, g.SliceLen());
  }

  lemma OffsetInside(g: Geometry, s: nat, r: nat)
    requires g.Valid() && s < g.slices && r < g.per
    ensures Offset(g, s, r) + g.len == Offset(g, s, r + 1) <= Offset(g, s, 0) + g.SliceLen() <= g.BufLen()
    ensures Offset(g, s, r + 1) == Offset(g, s, 0) + g.SliceLen() <==> r + 1 == g.per
    ensures Offset(g, s, 0) + g.SliceLen() == g.BufLen() <==> s + 1 == g.slices
  {
    Steps(r, g.per, g.len);
    SlotEnds(g, s);
  }

  /** One interrupt from a known place; the handler signals exactly when it completes a slice. */
  lemma IsrAt(g: Geometry, s: nat, r: nat, q: nat)
    requires g.Valid() && g.slices >= 2 && s < g.slices && r < g.per
    ensures r + 1 < g.per ==> Isr(g, At(g, s, r, q)) == At(g, s, r + 1, q)
    ensures r + 1 == g.per ==> Isr(g, At(g, s, r, q)) == At(g, Following(s, g.slices), 0, q + 1)
  {
    OffsetInside(g, s, r);
    SlotEnds(g, s);
    SlotEnds(g, Following(s, g.slices));
  }

  /** After `n` interrupts: `lap` times round, in slot `s`, `r` blocks into it. */
  lemma {:induction false} Reach(g: Geometry, n: nat) returns (lap: nat, s: nat, r: nat)
    requires g.Valid() && g.slices >= 2
    ensures s < g.slices && r < g.per && n == (lap * g.slices + s) * g.per + r
    ensures After(g, n) == At(g, s, r, lap * g.slices + s)
    decreases n
  {
    if n == 0 {
      lap, s, r := 0, 0, 0;
    } else {
      lap, s, r := Reach(g, n - 1);
      IsrAt(g, s, r, lap * g.slices + s);
      NextSlice(lap, g.slices, s, g.per);
      if r + 1 < g.per {
        r := r + 1;
      } else if s + 1 < g.slices {
        s, r := s + 1, 0;
      } else {
        lap, s, r := lap + 1, 0, 0;
      }
    }
  }

  lemma NextSlice(lap: nat, slices: nat, s: nat, per: nat)
    ensures s + 1 == slices ==> (lap + 1) * slices == lap * slices + s + 1
    ensures (lap * slices + s + 1) * per == (lap * slices + s) * per + per
  {
  }

  lemma LapSum(g: Geometry, lap: nat, s: nat, r: nat)
    ensures ((lap * g.slices + s) * g.per + r) * g.len == lap * g.BufLen() + Offset(g, s, r)
  {
    var l := g.len;
    assert ((lap * g.slices + s) * g.per + r) * l == (lap * g.slices + s) * (g.per * l) + r * l;
    assert (lap * g.slices + s) * g.SliceLen() == lap * (g.slices * g.SliceLen()) + s * g.SliceLen();
  }

  /** The tail is `n` blocks round the ring. */
  lemma TailIsRound(g: Geometry, n: nat)
    requires g.Valid() && g.slices >= 2
    ensures After(g, n).tail == n * g.len % g.BufLen()
  {
    var lap, s, r := Reach(g, n);
    OffsetInside(g, s, r);
    LapSum(g, lap, s, r);
    Divides(lap, g.BufLen(), Offset(g, s, r));
  }

  /** One event has fired for each complete slice. */
  lemma EventsAre(g: Geometry, n: nat)
    requires g.Valid() && g.slices >= 2
    ensures After(g, n).events == n / g.per
  {
    var lap, s, r := Reach(g, n);
    Divides(lap * g.slices + s, g.per, r);
  }

  /** With a single slice the tail wraps before it is compared, so the consumer is never woken. */
  lemma {:induction false} OneSliceIsSilent(g: Geometry, n: nat) returns (r: nat)
    requires g.Valid() && g.slices == 1
    ensures r < g.per && After(g, n) == Pointers(Offset(g, 0, r), g.BufLen(), 0)
    decreases n
  {
    r := 0;
    if n > 0 {
      r := OneSliceIsSilent(g, n - 1);
      OffsetInside(g, 0, r);
      r := if r + 1 == g.per then 0 else r + 1;
    }
  }

  /** One event per slice, for every number of interrupts, exactly when there are two slices or more. */
  lemma OneEventPerSlice(g: Geometry)
    requires g.Valid()
    ensures (forall n: nat :: After(g, n).events == n / g.per) <==> g.slices >= 2
  {
    if g.slices >= 2 {
      forall n: nat
        ensures After(g, n).events == n / g.per
      {
        EventsAre(g, n);
      }
    } else {
      var _ := OneSliceIsSilent(g, g.per);
      Divides(1, g.per, 0);
      assert After(g, g.per).events != g.per / g.per;
    }
  }

  lemma EventsTotal(g: Geometry, n: nat)
    requires g.Valid()
    ensures After(g, n).events == if g.slices >= 2 then n / g.per else 0
  {
    if g.slices >= 2 {
      EventsAre(g, n);
    } else {
      var _ := OneSliceIsSilent(g, n);
    }
  }

  // ----- What the buffer holds -----

  /** Buffer position `j` holds the sample byte last written there, if any was. */
  ghost predicate Mirror(mem: seq<Byte>, stream: seq<Byte>, tail: nat)
    requires tail <= |mem| && tail <= |stream|
  {
    && (forall j :: 0 <= j < tail ==> mem[j] == stream[|stream| - tail + j])
    && (forall j :: tail <= j < |mem| && |mem| <= |stream| - tail + j ==> mem[j] == stream[|stream| - tail - |mem| + j])
  }

  /** Filling the block at the tail and moving the tail past it keeps the mirror. */
  lemma MirrorFills(mem: seq<Byte>, stream: seq<Byte>, tail: nat, data: seq<Byte>)
    requires tail + |data| <= |mem| && tail <= |stream| && data != [] && Mirror(mem, stream, tail)
    ensures Move(tail, |data|, |mem|) <= |stream| + |data|
    ensures Mirror(Put(mem, tail, data), stream + data, Move(tail, |data|, |mem|))
  {
    var (m, s) := (Put(mem, tail, data), stream + data);
    assert |s| == |stream| + |data|;
    assert Mirror(m, s, tail + |data|);
  }

  /** The `len` bytes of the buffer at `o` are those of the stream at `at`. */
  ghost predicate Shows(mem: seq<Byte>, o: nat, stream: seq<Byte>, at: int, len: nat) {
    && o + len <= |mem| && 0 <= at && at + len <= |stream|
    && mem[o..o + len] == stream[at..at + len]
  }

  /**
   `len` bytes at `o` of a ring of `buf` bytes, the `at`-th and following of `total` written, lie behind
   the tail since the last wrap, or ahead of the block at the tail since the wrap before.
   */
  ghost predicate Placed(len: int, block: int, buf: int, o: int, at: int, tail: int, total: int) {
    && tail <= buf && tail <= total && o + len <= buf && 0 <= at
    && ((o + len <= tail && at == total - tail + o) || (tail + block <= o && at == total - tail - buf + o))
  }

  lemma MirrorShows(mem: seq<Byte>, stream: seq<Byte>, tail: nat, o: nat, at: int, len: nat)
    requires tail <= |mem| && tail <= |stream| && Mirror(mem, stream, tail) && o + len <= |mem|
    requires 0 <= at
    requires (o + len <= tail && at == |stream| - tail + o) || (tail <= o && at == |stream| - tail - |mem| + o)
    ensures Shows(mem, o, stream, at, len)
  {
  }

  lemma PlacedShows(mem: seq<Byte>, stream: seq<Byte>, len: nat, block: nat, o: nat, at: int, tail: nat)
    requires tail <= |mem| && tail <= |stream| && Mirror(mem, stream, tail)
    requires Placed(len, block, |mem|, o, at, tail, |stream|)
    ensures Shows(mem, o, stream, at, len)
  {
    MirrorShows(mem, stream, tail, o, at, len);
  }

  /** A slice of this lap, behind slot `s`. */
  lemma PlaceBehind(g: Geometry, lap: nat, s: nat, r: nat, kk: nat)
    requires g.Valid() && kk < s < g.slices && r < g.per
    ensures Placed(g.SliceLen(), g.len, g.BufLen(), Offset(g, kk, 0), (lap * g.slices + kk) * g.SliceLen(),
                   Offset(g, s, r), lap * g.BufLen() + Offset(g, s, r))
  {
    OffsetInside(g, s, r);
    SliceSum(g, lap, kk);
    Apart(g, kk, s);
    Behind(g.SliceLen(), g.len, g.BufLen(), Offset(g, kk, 0), Offset(g, s, r), lap * g.BufLen());
  }

  /** A slice of the lap before, ahead of slot `s`. */
  lemma PlaceAhead(g: Geometry, lap: nat, s: nat, r: nat, kk: nat)
    requires g.Valid() && s < kk < g.slices && r < g.per
    ensures Placed(g.SliceLen(), g.len, g.BufLen(), Offset(g, kk, 0), (lap * g.slices + kk) * g.SliceLen(),
                   Offset(g, s, r), (lap + 1) * g.BufLen() + Offset(g, s, r))
  {
    OffsetInside(g, s, r);
    SlotEnds(g, kk);
    SliceSum(g, lap, kk);
    Apart(g, kk, s);
    LapsDiffer(lap, lap + 1, g.BufLen());
    Ahead(g.SliceLen(), g.len, g.BufLen(), Offset(g, kk, 0), Offset(g, s, r), lap * g.BufLen());
  }

  lemma PlaceIn(g: Geometry, lap: nat, s: nat, r: nat, k: nat)
    requires g.Valid() && s < g.slices && r < g.per && k < lap * g.slices + s < k + g.slices
    ensures Placed(g.SliceLen(), g.len, g.BufLen(), Offset(g, k % g.slices, 0), k * g.SliceLen(), Offset(g, s, r),
                   lap * g.BufLen() + Offset(g, s, r))
  {
    var l := LapOf(g.slices, lap, s, k);
    if l == lap {
      PlaceBehind(g, lap, s, r, k - l * g.slices);
    } else {
      PlaceAhead(g, l, s, r, k - l * g.slices);
    }
  }

  lemma Behind(len: int, block: int, buf: int, o: int, tail: int, start: int)
    requires 0 <= o && 0 <= start && o + len <= tail <= buf
    ensures Placed(len, block, buf, o, start + o, tail, start + tail)
  {
  }

  lemma Ahead(len: int, block: int, buf: int, o: int, tail: int, start: int)
    requires 0 <= start && 0 <= tail <= buf && tail + block <= o && 0 <= o && o + len <= buf
    ensures Placed(len, block, buf, o, start + o, tail, start + buf + tail)
  {
  }

  lemma LapsDiffer(l: int, lap: int, b: int)
    requires l + 1 == lap
    ensures lap * b == l * b + b
  {
  }

  lemma SlicePlace(g: Geometry, n: nat, k: nat)
    requires g.Valid() && g.slices >= 2 && k < After(g, n).events < k + g.slices
    ensures Placed(g.SliceLen(), g.len, g.BufLen(), Offset(g, k % g.slices, 0), k * g.SliceLen(), After(g, n).tail,
                   n * g.len)
  {
    var lap, s, r := Reach(g, n);
    LapSum(g, lap, s, r);
    PlaceIn(g, lap, s, r, k);
  }

  /** Slice `k` was written in this lap behind slot `s`, or in the lap before ahead of it. */
  lemma LapOf(slices: nat, lap: nat, s: nat, k: nat) returns (l: nat)
    requires s < slices && k < lap * slices + s < k + slices
    ensures 0 <= k - l * slices < slices && k % slices == k - l * slices
    ensures (l == lap && k - l * slices < s) || (l + 1 == lap && s < k - l * slices)
  {
    if k >= lap * slices {
      l := lap;
    } else {
      assert lap > 0 by {
        assert lap == 0 ==> lap * slices == 0;
      }
      l := lap - 1;
      assert l * slices == lap * slices - slices;
    }
    Divides(l, slices, k - l * slices);
  }

  /** A finished slice stays in the buffer until its slot is filled again. */
  lemma SliceHolds(g: Geometry, mem: seq<Byte>, stream: seq<Byte>, n: nat, k: nat)
    requires g.Valid() && g.slices >= 2 && |mem| == g.BufLen() && |stream| == n * g.len
    requires After(g, n).tail <= |mem| && After(g, n).tail <= |stream| && Mirror(mem, stream, After(g, n).tail)
    requires k < After(g, n).events < k + g.slices
    ensures Shows(mem, Offset(g, k % g.slices, 0), stream, k * g.SliceLen(), g.SliceLen())
  {
    SlicePlace(g, n, k);
    PlacedShows(mem, stream, g.SliceLen(), g.len, Offset(g, k % g.slices, 0), k * g.SliceLen(), After(g, n).tail);
  }

  lemma SliceSum(g: Geometry, lap: nat, s: nat)
    ensures (lap * g.slices + s) * g.SliceLen() == lap * g.BufLen() + Offset(g, s, 0)
  {
    assert (lap * g.slices + s) * g.SliceLen() == lap * (g.slices * g.SliceLen()) + s * g.SliceLen();
  }

  lemma Apart(g: Geometry, a: nat, b: nat)
    ensures a < b ==> Offset(g, a, 0) + g.SliceLen() <= Offset(g, b, 0)
    ensures b < a ==> Offset(g, b, 0) + g.SliceLen() <= Offset(g, a, 0)
  {
    var l := g.SliceLen();
    assert a < b ==> (a + 1) * l <= b * l;
    assert b < a ==> (b + 1) * l <= a * l;
  }

  // ----- Converter, handler and consumer -----

  lemma TailFits(g: Geometry, n: nat)
    requires g.Valid()
    ensures After(g, n).tail + g.len <= g.BufLen() && After(g, n).tail <= n * g.len
  {
    if g.slices >= 2 {
      var lap, s, r := Reach(g, n);
      OffsetInside(g, s, r);
      LapSum(g, lap, s, r);
    } else {
      OneSliceFits(g, n);
    }
  }

  lemma {:induction false} OneSliceFits(g: Geometry, n: nat)
    requires g.Valid() && g.slices == 1
    ensures After(g, n).tail + g.len <= g.BufLen() && After(g, n).tail <= n * g.len
    decreases n
  {
    var r := OneSliceIsSilent(g, n);
    OffsetInside(g, 0, r);
    if n > 0 {
      OneSliceFits(g, n - 1);
      Steps(n - 1, n, g.len);
    }
  }

  lemma HeadMoves(g: Geometry, k: nat)
    requires g.Valid()
    ensures Move(Offset(g, k % g.slices, 0), g.SliceLen(), g.BufLen()) == Offset(g, (k + 1) % g.slices, 0)
  {
    var (l, kk) := (k / g.slices, k % g.slices);
    SlotEnds(g, kk);
    NextSlice(l, g.slices, kk, 1);
    assert k == l * g.slices + kk;
    if kk + 1 < g.slices {
      Divides(l, g.slices, kk + 1);
    } else {
      Divides(l + 1, g.slices, 0);
    }
  }

  lemma OneBlockFills(g: Geometry)
    requires g.Valid()
    ensures After(g, 0) == Pointers(0, g.SliceLen(), 0) && Offset(g, 0 % g.slices, 0) == 0 == 0 * g.len
    ensures g.len <= g.BufLen() && (g.len == g.BufLen() <==> g.slices == g.per == 1)
  {
    OffsetInside(g, 0, 0);
  }

  lemma SignalledHasSlices(g: Geometry, n: nat)
    requires g.Valid() && After(g, n).events > 0
    ensures g.slices >= 2
  {
    if g.slices == 1 {
      var _ := OneSliceIsSilent(g, n);
    }
  }

  class Ring {
    const g: Geometry
    const hooked: bool
    var mem: seq<Byte>
    var tail: nat
    var sliceEnd: nat
    var head: nat
    var cnt: nat
    // The double-buffered DMA stream: its two targets, and whether the second one is being filled.
    var target0: nat
    var target1: nat
    var second: bool
    ghost var stream: seq<Byte>
    ghost var n: nat
    ghost var taken: nat

    ghost predicate Shaped() {
      g.Valid() && (!hooked ==> g.per == 1)
    }

    /** The DMA fills the block at the tail and will go on with the one after it. */
    ghost predicate Targeted()
      reads this
    {
      && (if second then target1 else target0) == tail
      && (if second then target0 else target1) == Move(tail, g.len, g.BufLen())
    }

    ghost predicate Valid()
      reads this
    {
      && Shaped() && Targeted()
      && Pointers(tail, sliceEnd, taken + cnt) == After(g, n)
      && head == Offset(g, taken % g.slices, 0)
      && |mem| == g.BufLen() && |stream| == n * g.len
      && tail + g.len <= |mem| && tail <= |stream| && Mirror(mem, stream, tail)
    }

    /** `ads79xx_dmaStart`. Of a ring of a single block the second target lies past the end. */
    constructor (g: Geometry, hooked: bool, mem: seq<Byte>)
      requires g.Valid() && (!hooked ==> g.per == 1) && |mem| == g.BufLen()
      ensures Valid() <==> g.slices >= 2 || g.per >= 2
      ensures g.slices == g.per == 1 ==> target1 == g.BufLen()
      ensures this.g == g && this.mem == mem && stream == [] && n == taken == 0 && cnt == 0
    {
      this.g, this.hooked, this.mem := g, hooked, mem;
      head, tail := 0, 0;
      sliceEnd := g.SliceLen();
      cnt := 0;
      target0, target1, second := 0, g.len, false;
      stream, n, taken := [], 0, 0;
      OneBlockFills(g);
    }

    ghost function Now(): Pointers
      reads this
    {
      Pointers(tail, sliceEnd, taken + cnt)
    }

    /** `ads_dmaIrqHandler`: `block` is what the streaming hook, if any, is given. */
    method Interrupt() returns (block: nat)
      requires Shaped()
      requires (if second then target1 else target0) == Move(tail, g.len, g.BufLen())
      modifies this`tail, this`sliceEnd, this`cnt, this`target0, this`target1
      ensures Now() == Isr(g, old(Now())) && Targeted() && block == old(tail)
    {
      block := tail;
      var len := if hooked then g.len else g.SliceLen();
      tail := Move(tail, len, g.BufLen());
      var next := Move(tail, len, g.BufLen());
      if second {
        target0 := next;
      } else {
        target1 := next;
      }
      if tail == sliceEnd {
        sliceEnd := Move(sliceEnd, g.SliceLen(), g.BufLen());
        cnt := cnt + 1;
      }
    }

    /** The converter completes a block, goes on with the other target, and interrupts. */
    method Transfer(data: seq<Byte>) returns (block: nat)
      requires Valid() && |data| == g.len
      modifies this
      ensures Valid() && stream == old(stream) + data && n == old(n) + 1 && taken == old(taken)
      ensures block + g.len <= |mem| && mem[block..block + g.len] == data
    {
      MirrorFills(mem, stream, tail, data);
      TailFits(g, n + 1);
      Steps(n, n + 1, g.len);
      mem := Put(mem, if second then target1 else target0, data);
      second := !second;
      stream, n := stream + data, n + 1;
      block := Interrupt();
    }

    /** `ads79xx_wait` once the event is there: the next slice, away from the block being filled. */
    method Wait() returns (slice: nat)
      requires Valid() && cnt == 1
      modifies this`head, this`cnt, this`taken
      ensures Valid() && cnt == 0 && taken == old(taken) + 1
      ensures Shows(mem, slice, stream, old(taken) * g.SliceLen(), g.SliceLen())
      ensures slice + g.SliceLen() <= tail || tail + g.len <= slice
    {
      SignalledHasSlices(g, n);
      SliceHolds(g, mem, stream, n, taken);
      SlicePlace(g, n, taken);
      HeadMoves(g, taken);
      cnt := 0;
      slice := head;
      head := Move(head, g.SliceLen(), g.BufLen());
      taken := taken + 1;
    }
  }

  // ----- Whole runs -----

  lemma GotGrows(got: seq<Byte>, mem: seq<Byte>, o: nat, stream: seq<Byte>, k: nat, len: nat)
    requires got <= stream && k > 0 && |got| == (k - 1) * len && Shows(mem, o, stream, (k - 1) * len, len)
    ensures got + mem[o..o + len] <= stream && |got + mem[o..o + len]| == k * len
  {
    assert (k - 1) * len == k * len - len;
  }

  /** The consumer appends each slice it is woken for to what it has. */
  method Drain(ring: Ring, got: seq<Byte>) returns (more: seq<Byte>)
    requires ring.Valid() && ring.cnt <= 1
    requires |got| == ring.taken * ring.g.SliceLen() && got <= ring.stream
    modifies ring
    ensures ring.Valid() && ring.cnt == 0 && ring.stream == old(ring.stream) && ring.n == old(ring.n)
    ensures |more| == ring.taken * ring.g.SliceLen() && more <= ring.stream
  {
    more := got;
    if ring.cnt == 1 {
      var slice := ring.Wait();
      GotGrows(got, ring.mem, slice, ring.stream, ring.taken, ring.g.SliceLen());
      more := got + ring.mem[slice..slice + ring.g.SliceLen()];
    }
  }

  /**
   However late the consumer wakes, as long as it takes each slice before the next one is complete,
   it gets every complete slice of the samples, once and in order; in a ring of one slice, none.
   */
  method Pump(g: Geometry, hooked: bool, mem: seq<Byte>, blocks: seq<seq<Byte>>, prompt: seq<bool>)
    returns (got: seq<Byte>)
    requires g.Valid() && (g.slices >= 2 || g.per >= 2) && (!hooked ==> g.per == 1) && |mem| == g.BufLen()
    requires |prompt| == |blocks| && forall i :: 0 <= i < |blocks| ==> |blocks[i]| == g.len
    ensures |got| == (if g.slices >= 2 then |blocks| / g.per * g.SliceLen() else 0) && got <= Concat(blocks)
  {
    var ring := new Ring(g, hooked, mem);
    got := [];
    for i := 0 to |blocks|
      invariant ring.Valid() && fresh(ring) && ring.g == g && ring.n == i && ring.cnt <= 1
      invariant ring.stream == Concat(blocks[..i])
      invariant |got| == ring.taken * g.SliceLen() && got <= ring.stream
    {
      if prompt[i] || Move(ring.tail, g.len, g.BufLen()) == ring.sliceEnd {
        got := Drain(ring, got);
      }
      var _ := ring.Transfer(blocks[i]);
      assert blocks[..i + 1][..i] == blocks[..i];
    }
    got := Drain(ring, got);
    assert blocks[..|blocks|] == blocks;
    EventsTotal(g, |blocks|);
  }
}
