/**
 The layered text display of bertos/drv/lcd_text.c: what is on the panel is at each position the
 topmost character of the visible layers. Layers live in a fixed pool and are known by their index.
 */
module LcdText {
  import opened Bytes
  import opened Division
  import opened Hd44780
  import opened Sequences
  import opened Wrappers

  const LAYERS: nat := 6
  const HIDDEN: Priority := -127

  /** `signed char`: one value lies below `HIDDEN`. */
  type Priority = p: int | -128 <= p < 128

  /** A NUL in the buffer is transparent. */
  datatype Layer = Layer(addr: nat, pri: Priority, buf: seq<Byte>)

  type Pool = seq<Layer>

  function Char(pool: Pool, id: nat, a: nat): Byte {
    if id < |pool| && a < |pool[id].buf| then pool[id].buf[a] else 0
  }

  function Pri(pool: Pool, id: nat): Priority {
    if id < |pool| then pool[id].pri else HIDDEN
  }

  // ----- What should be seen -----

  /** The topmost character of the layers that are not hidden, or a space. */
  function Shown(pool: Pool, list: seq<nat>, a: nat): Byte
    decreases |list|
  {
    if list == [] then SPACE
    else if Pri(pool, list[0]) != HIDDEN && Char(pool, list[0], a) != 0 then Char(pool, list[0], a)
    else Shown(pool, list[1..], a)
  }

  /** What `lcd_refresh` draws: it looks no further than the first hidden layer. */
  function Refreshed(pool: Pool, list: seq<nat>, a: nat): Byte
    decreases |list|
  {
    if list == [] || Pri(pool, list[0]) == HIDDEN then SPACE
    else if Char(pool, list[0], a) != 0 then Char(pool, list[0], a)
    else Refreshed(pool, list[1..], a)
  }

  /** Layers are linked from the greatest priority down. */
  ghost predicate Ordered(pool: Pool, list: seq<nat>) {
    forall i, j :: 0 <= i < j < |list| ==> Pri(pool, list[i]) >= Pri(pool, list[j])
  }

  /** No layer has the priority below `HIDDEN`. */
  ghost predicate Floored(pool: Pool, list: seq<nat>) {
    forall i :: 0 <= i < |list| ==> Pri(pool, list[i]) >= HIDDEN
  }

  ghost predicate Distinct(list: seq<nat>) {
    forall i, j :: 0 <= i < j < |list| ==> list[i] != list[j]
  }

  /** Nothing is to be seen of a list of hidden layers. */
  lemma {:induction false} HiddenShowsNothing(pool: Pool, list: seq<nat>, a: nat)
    requires forall i :: 0 <= i < |list| ==> Pri(pool, list[i]) == HIDDEN
    ensures Shown(pool, list, a) == SPACE
    decreases |list|
  {
    if list != [] {
      HiddenShowsNothing(pool, list[1..], a);
    }
  }

  /** What lies under the first hidden layer. */
  function UnderHidden(pool: Pool, list: seq<nat>): seq<nat>
    decreases |list|
  {
    if list == [] then []
    else if Pri(pool, list[0]) == HIDDEN then list[1..]
    else UnderHidden(pool, list[1..])
  }

  /** The refresh finds a character before it comes to a hidden layer. */
  predicate FoundAbove(pool: Pool, list: seq<nat>, a: nat)
    decreases |list|
  {
    list != [] && Pri(pool, list[0]) != HIDDEN && (Char(pool, list[0], a) != 0 || FoundAbove(pool, list[1..], a))
  }

  /** What lies under the first hidden layer would not be seen. */
  predicate NothingLost(pool: Pool, list: seq<nat>, a: nat) {
    FoundAbove(pool, list, a) || Shown(pool, UnderHidden(pool, list), a) == SPACE
  }

  /** A refresh is right exactly where that is so. */
  lemma {:induction false} RefreshIsRight(pool: Pool, list: seq<nat>, a: nat)
    ensures Refreshed(pool, list, a) == Shown(pool, list, a) <==> NothingLost(pool, list, a)
    decreases |list|
  {
    if list != [] && Pri(pool, list[0]) != HIDDEN && Char(pool, list[0], a) == 0 {
      RefreshIsRight(pool, list[1..], a);
    }
  }

  /** With ordered layers none of which is below `HIDDEN` a refresh is always right. */
  lemma {:induction false} RefreshShows(pool: Pool, list: seq<nat>, a: nat)
    requires Ordered(pool, list) && Floored(pool, list)
    ensures Refreshed(pool, list, a) == Shown(pool, list, a)
    decreases |list|
  {
    if list != [] {
      if Pri(pool, list[0]) == HIDDEN {
        HiddenShowsNothing(pool, list, a);
      } else {
        assert Ordered(pool, list[1..]) && Floored(pool, list[1..]);
        RefreshShows(pool, list[1..], a);
      }
    }
  }

  /** The whole screen after a refresh. */
  function Redrawn(pool: Pool, list: seq<nat>, n: nat): (r: seq<Byte>)
    ensures |r| == n && forall a :: 0 <= a < n ==> r[a] == Refreshed(pool, list, a)
  {
    seq(n, a requires 0 <= a => Refreshed(pool, list, a))
  }

  /** The screen shows the composition of the layers. */
  ghost predicate Shows(screen: seq<Byte>, pool: Pool, list: seq<nat>) {
    forall a :: 0 <= a < |screen| ==> screen[a] == Shown(pool, list, a)
  }

  lemma RedrawnIsRight(pool: Pool, list: seq<nat>, n: nat)
    ensures Shows(Redrawn(pool, list, n), pool, list) <==> forall a :: 0 <= a < n ==> NothingLost(pool, list, a)
    ensures Ordered(pool, list) && Floored(pool, list) ==> Shows(Redrawn(pool, list, n), pool, list)
  {
    var r := Redrawn(pool, list, n);
    forall a | 0 <= a < n ensures r[a] == Shown(pool, list, a) <==> NothingLost(pool, list, a) {
      RefreshIsRight(pool, list, a);
    }
    if Ordered(pool, list) && Floored(pool, list) {
      forall a | 0 <= a < n ensures r[a] == Shown(pool, list, a) { RefreshShows(pool, list, a); }
    }
  }

  // ----- Writing a character -----

  /** Some layer above the `k`-th has a character at `a`. */
  ghost predicate Obscured(pool: Pool, list: seq<nat>, k: nat, a: nat)
    requires k <= |list|
  {
    exists j :: 0 <= j < k && Char(pool, list[j], a) != 0
  }

  /** Some layer above the `k`-th that is not hidden has a character at `a`. */
  ghost predicate Masked(pool: Pool, list: seq<nat>, k: nat, a: nat)
    requires k <= |list|
  {
    exists j :: 0 <= j < k && Pri(pool, list[j]) != HIDDEN && Char(pool, list[j], a) != 0
  }

  /** The pool after `c` has gone to the layer's buffer and its position has moved on. */
  function Stored(pool: Pool, id: nat, c: Byte): Pool
    requires id < |pool| && pool[id].addr < |pool[id].buf|
  {
    var l := pool[id];
    pool[id := l.(buf := l.buf[l.addr := c], addr := if l.addr + 1 >= |l.buf| then 0 else l.addr + 1)]
  }

  /** Layers that agree show the same. */
  lemma {:induction false} ShownAgrees(p: Pool, q: Pool, list: seq<nat>, a: nat)
    requires forall i :: 0 <= i < |list| ==> Pri(p, list[i]) == Pri(q, list[i])
    requires forall i :: 0 <= i < |list| ==> Pri(p, list[i]) == HIDDEN || Char(p, list[i], a) == Char(q, list[i], a)
    ensures Shown(p, list, a) == Shown(q, list, a)
    decreases |list|
  {
    if list != [] {
      ShownAgrees(p, q, list[1..], a);
    }
  }

  /** Above the `k`-th layer only what is there matters, if anything is to be seen. */
  lemma {:induction false} ShownAbove(pool: Pool, list: seq<nat>, k: nat, a: nat)
    requires k <= |list|
    ensures !Masked(pool, list, k, a) ==> Shown(pool, list, a) == Shown(pool, list[k..], a)
    ensures Masked(pool, list, k, a) ==> Shown(pool, list, a) == Shown(pool, list[..k], a)
    decreases k
  {
    if k == 0 {
      assert list[0..] == list;
    } else {
      var tail := list[1..];
      ShownAbove(pool, tail, k - 1, a);
      assert tail[k - 1..] == list[k..] && tail[..k - 1] == list[..k][1..];
      assert Masked(pool, list, k, a) <==>
        (Pri(pool, list[0]) != HIDDEN && Char(pool, list[0], a) != 0) || Masked(pool, tail, k - 1, a);
    }
  }

  /** What is at the position `a` written to afterwards, if `before` was there. */
  ghost function Painted(pool: Pool, list: seq<nat>, k: nat, a: nat, c: Byte, before: Byte): Byte
    requires k < |list|
  {
    if Pri(pool, list[k]) == HIDDEN || Obscured(pool, list, k, a) then before
    else if c != 0 then c else SPACE
  }

  ghost predicate Writable(pool: Pool, list: seq<nat>, k: nat) {
    && k < |list| && list[k] < |pool| && pool[list[k]].addr < |pool[list[k]].buf|
    && Distinct(list)
  }

  lemma StoredObscures(pool: Pool, list: seq<nat>, k: nat, c: Byte, a: nat)
    requires Writable(pool, list, k)
    ensures Obscured(Stored(pool, list[k], c), list, k, a) <==> Obscured(pool, list, k, a)
    ensures Masked(Stored(pool, list[k], c), list, k, a) <==> Masked(pool, list, k, a)
  {
    var q := Stored(pool, list[k], c);
    assert forall j :: 0 <= j < k ==> Char(q, list[j], a) == Char(pool, list[j], a);
    assert forall j :: 0 <= j < k ==> Pri(q, list[j]) == Pri(pool, list[j]);
  }

  /** A write changes what should be seen at its own position only. */
  lemma WriteElsewhere(pool: Pool, list: seq<nat>, k: nat, c: Byte, a: nat)
    requires Writable(pool, list, k) && a != pool[list[k]].addr
    ensures Shown(Stored(pool, list[k], c), list, a) == Shown(pool, list, a)
  {
    ShownAgrees(pool, Stored(pool, list[k], c), list, a);
  }

  /** The character `c` of a layer, or what is below it. */
  function Over(c: Byte, below: Byte): Byte {
    if c != 0 then c else below
  }

  /** What should be seen at the position written to. */
  lemma WriteHere(pool: Pool, list: seq<nat>, k: nat, c: Byte)
    requires Writable(pool, list, k)
    ensures var a := pool[list[k]].addr;
            Shown(Stored(pool, list[k], c), list, a) ==
              if Pri(pool, list[k]) == HIDDEN || Masked(pool, list, k, a) then Shown(pool, list, a)
              else Over(c, Shown(pool, list[k + 1..], a))
  {
    var (q, a) := (Stored(pool, list[k], c), pool[list[k]].addr);
    if Pri(pool, list[k]) == HIDDEN {
      ShownAgrees(pool, q, list, a);
    } else {
      ShownAbove(pool, list, k, a);
      ShownAbove(q, list, k, a);
      ShownAgrees(pool, q, list[..k], a);
      ShownAgrees(pool, q, list[k + 1..], a);
      assert list[k..][1..] == list[k + 1..];
      StoredObscures(pool, list, k, c, a);
    }
  }

  /** What was to be seen there before. */
  lemma ShownHere(pool: Pool, list: seq<nat>, k: nat)
    requires Writable(pool, list, k) && Pri(pool, list[k]) != HIDDEN && !Masked(pool, list, k, pool[list[k]].addr)
    ensures var (l, below) := (pool[list[k]], list[k + 1..]);
            Shown(pool, list, l.addr) == Over(l.buf[l.addr], Shown(pool, below, l.addr))
  {
    ShownAbove(pool, list, k, pool[list[k]].addr);
    assert list[k..][1..] == list[k + 1..];
  }

  /**
   The layer is hidden, or something is to be seen above it. Or the walk over the layers above
   finds nothing, and the write puts a character or has nothing but a space beneath it. Or the
   walk finds only what hidden layers hold, and the write happens to change nothing visible.
   */
  ghost predicate Covers(pool: Pool, list: seq<nat>, k: nat, c: Byte)
    requires Writable(pool, list, k)
  {
    var l := pool[list[k]];
    var below := Shown(pool, list[k + 1..], l.addr);
    || l.pri == HIDDEN || Masked(pool, list, k, l.addr)
    || (if Obscured(pool, list, k, l.addr) then Over(c, below) == Over(l.buf[l.addr], below)
        else c != 0 || below == SPACE)
  }

  /**
   Drawing the written character alone is right exactly when the write covers: not when a NUL
   uncovers a layer beneath, the case the source marks as to be fixed, and not when a character
   of a hidden layer stops a change that should be seen.
   */
  lemma WriteIsRight(pool: Pool, list: seq<nat>, k: nat, c: Byte)
    requires Writable(pool, list, k)
    ensures Painted(pool, list, k, pool[list[k]].addr, c, Shown(pool, list, pool[list[k]].addr))
         == Shown(Stored(pool, list[k], c), list, pool[list[k]].addr)
       <==> Covers(pool, list, k, c)
  {
    WriteHere(pool, list, k, c);
    if Pri(pool, list[k]) != HIDDEN && !Masked(pool, list, k, pool[list[k]].addr) {
      ShownHere(pool, list, k);
    }
  }

  /** Between ordered layers none of which is below `HIDDEN` only a NUL can be drawn wrongly. */
  lemma FlooredCovers(pool: Pool, list: seq<nat>, k: nat, c: Byte)
    requires Writable(pool, list, k) && Ordered(pool, list) && Floored(pool, list)
    ensures var l := pool[list[k]];
            Covers(pool, list, k, c) <==>
            || c != 0 || l.pri == HIDDEN || Obscured(pool, list, k, l.addr)
            || Shown(pool, list[k + 1..], l.addr) == SPACE
  {
    var l := pool[list[k]];
    assert l.pri == Pri(pool, list[k]);
    if l.pri != HIDDEN {
      assert forall j :: 0 <= j < k ==> Pri(pool, list[j]) >= Pri(pool, list[k]);
      assert Obscured(pool, list, k, l.addr) <==> Masked(pool, list, k, l.addr);
    }
  }

  lemma CharCovers(pool: Pool, list: seq<nat>, k: nat, c: Byte)
    requires Writable(pool, list, k) && Ordered(pool, list) && Floored(pool, list) && c != 0
    ensures Covers(pool, list, k, c)
  {
    FlooredCovers(pool, list, k, c);
  }

  /** The same for a whole screen that was right before. */
  lemma DrawingIsRight(pool: Pool, list: seq<nat>, k: nat, c: Byte, screen: seq<Byte>)
    requires Writable(pool, list, k) && pool[list[k]].addr < |screen|
    requires Shows(screen, pool, list)
    ensures var (here, q) := (pool[list[k]].addr, Stored(pool, list[k], c));
            Shows(screen[here := Painted(pool, list, k, here, c, screen[here])], q, list) <==> Covers(pool, list, k, c)
  {
    var (here, q) := (pool[list[k]].addr, Stored(pool, list[k], c));
    var drawn := screen[here := Painted(pool, list, k, here, c, screen[here])];
    WriteIsRight(pool, list, k, c);
    forall a | 0 <= a < |drawn| && a != here ensures drawn[a] == Shown(q, list, a) {
      WriteElsewhere(pool, list, k, c, a);
    }
    assert drawn[here] == Shown(q, list, here) <==> Covers(pool, list, k, c);
  }

  /** Erasing the upper of two characters leaves a space where the lower one should appear. */
  lemma NulUncovers()
    ensures var (pool, list) := ([Layer(0, 1, [0x41]), Layer(0, 0, [0x42])], [0, 1]);
            && Writable(pool, list, 0) && Ordered(pool, list) && Floored(pool, list) && Shown(pool, list, 0) == 0x41
            && Painted(pool, list, 0, 0, 0, 0x41) == SPACE && Shown(Stored(pool, 0, 0), list, 0) == 0x42
  {
    var (pool, list) := ([Layer(0, 1, [0x41]), Layer(0, 0, [0x42])], [0, 1]);
    WriteHere(pool, list, 0, 0);
    assert list[1..] == [1] && [1][1..] == [];
  }

  /** A layer of the one priority below `HIDDEN` is lost behind a hidden one. */
  lemma BelowHiddenIsLost()
    ensures var (pool, list) := ([Layer(0, HIDDEN, [0]), Layer(0, -128, [0x42])], [0, 1]);
            Ordered(pool, list) && Refreshed(pool, list, 0) == SPACE && Shown(pool, list, 0) == 0x42
  {
    var list := [0, 1];
    assert list[1..] == [1];
  }

  /** A character of a hidden layer stops the drawing of one that should be seen. */
  lemma HiddenStopsWrite()
    ensures var (pool, list) := ([Layer(0, HIDDEN, [0x41]), Layer(0, -128, [0])], [0, 1]);
            && Writable(pool, list, 1) && Ordered(pool, list) && Shown(pool, list, 0) == SPACE
            && Painted(pool, list, 1, 0, 0x42, SPACE) == SPACE && Shown(Stored(pool, 1, 0x42), list, 0) == 0x42
            && !Covers(pool, list, 1, 0x42)
  {
    var (pool, list) := ([Layer(0, HIDDEN, [0x41]), Layer(0, -128, [0])], [0, 1]);
    WriteHere(pool, list, 1, 0x42);
    assert list[1..] == [1] && list[2..] == [] && [1][1..] == [];
    assert Char(pool, list[0], 0) == 0x41;
  }

  // ----- Linking layers -----

  /** Where `id` is in the list, or its end. */
  function Position(list: seq<nat>, id: nat): (k: nat)
    ensures k <= |list| && (k < |list| ==> list[k] == id)
    ensures forall j :: 0 <= j < k ==> list[j] != id
    decreases |list|
  {
    if list == [] || list[0] == id then 0 else 1 + Position(list[1..], id)
  }

  function Without(list: seq<nat>, id: nat): seq<nat> {
    var k := Position(list, id);
    if k < |list| then list[..k] + list[k + 1..] else list
  }

  /** The first place whose priority is no greater than `pri`. */
  function Place(pool: Pool, list: seq<nat>, pri: Priority): (k: nat)
    ensures k <= |list| && (k < |list| ==> Pri(pool, list[k]) <= pri)
    ensures forall j :: 0 <= j < k ==> Pri(pool, list[j]) > pri
    decreases |list|
  {
    if list == [] || Pri(pool, list[0]) <= pri then 0 else 1 + Place(pool, list[1..], pri)
  }

  function Linked(pool: Pool, list: seq<nat>, id: nat, pri: Priority): seq<nat> {
    var k := Place(pool, list, pri);
    list[..k] + [id] + list[k..]
  }

  lemma LinkedAt(pool: Pool, list: seq<nat>, id: nat, pri: Priority, i: nat)
    requires i <= |list|
    ensures var k := Place(pool, list, pri);
            Linked(pool, list, id, pri)[i] == if i < k then list[i] else if i == k then id else list[i - 1]
  {
  }

  lemma LinkedIsOrdered(p: Pool, q: Pool, list: seq<nat>, id: nat, pri: Priority)
    requires Ordered(p, list) && Pri(q, id) == pri
    requires forall i :: 0 <= i < |list| ==> Pri(p, list[i]) == Pri(q, list[i])
    ensures Ordered(q, Linked(p, list, id, pri))
  {
    var (k, r) := (Place(p, list, pri), Linked(p, list, id, pri));
    forall i, j | 0 <= i < j < |r| ensures Pri(q, r[i]) >= Pri(q, r[j]) {
      LinkedAt(p, list, id, pri, i);
      LinkedAt(p, list, id, pri, j);
      if i == k && j > k + 1 {
        assert Pri(p, list[k]) >= Pri(p, list[j - 1]);
      }
    }
  }

  lemma WithoutIsOrdered(pool: Pool, list: seq<nat>, id: nat)
    requires Ordered(pool, list)
    ensures Ordered(pool, Without(list, id))
  {
  }

  /** A transparent layer shows nothing wherever it is linked. */
  lemma LinkedShows(p: Pool, q: Pool, list: seq<nat>, id: nat, k: nat, a: nat)
    requires k <= |list| && Char(q, id, a) == 0
    requires forall i :: 0 <= i < |list| ==> Pri(p, list[i]) == Pri(q, list[i]) && Char(p, list[i], a) == Char(q, list[i], a)
    ensures Shown(q, list[..k] + [id] + list[k..], a) == Shown(p, list, a)
    decreases k
  {
    var r := list[..k] + [id] + list[k..];
    if k == 0 {
      assert r[1..] == list;
      ShownAgrees(p, q, list, a);
    } else {
      LinkedShows(p, q, list[1..], id, k - 1, a);
      assert r[1..] == list[1..][..k - 1] + [id] + list[1..][k - 1..];
    }
  }

  // ----- Both lists together -----

  /** Every layer is in one list at most. */
  ghost predicate Parted(active: seq<nat>, free: seq<nat>) {
    && Distinct(active) && Distinct(free)
    && (forall i :: 0 <= i < |active| ==> active[i] < LAYERS)
    && (forall i :: 0 <= i < |free| ==> free[i] < LAYERS)
    && forall i, j :: 0 <= i < |active| && 0 <= j < |free| ==> active[i] != free[j]
  }

  lemma WithoutLacks(list: seq<nat>, id: nat)
    requires Distinct(list)
    ensures Distinct(Without(list, id)) && forall i :: 0 <= i < |Without(list, id)| ==> Without(list, id)[i] != id
    ensures forall i :: 0 <= i < |Without(list, id)| ==> Without(list, id)[i] in list
  {
  }

  lemma WithoutIsParted(active: seq<nat>, free: seq<nat>, id: nat)
    requires Parted(active, free)
    ensures Parted(Without(active, id), Without(free, id))
    ensures id !in Without(active, id) && id !in Without(free, id)
  {
    WithoutLacks(active, id);
    WithoutLacks(free, id);
  }

  lemma InsertIsParted(active: seq<nat>, free: seq<nat>, id: nat, k: nat)
    requires Parted(active, free) && id !in active && id !in free && id < LAYERS && k <= |active|
    ensures Parted(active[..k] + [id] + active[k..], free)
  {
    var r := active[..k] + [id] + active[k..];
    forall i, j | 0 <= i < j < |r| ensures r[i] != r[j] {
      var (x, y) := (if i < k then i else i - 1, if j < k then j else j - 1);
      assert (i != k ==> r[i] == active[x]) && (j != k ==> r[j] == active[y]);
    }
  }

  lemma PrependIsParted(active: seq<nat>, free: seq<nat>, id: nat)
    requires Parted(active, free) && id !in active && id !in free && id < LAYERS
    ensures Parted(active, [id] + free)
  {
    var r := [id] + free;
    forall i, j | 0 <= i < j < |r| ensures r[i] != r[j] {
      assert r[j] == free[j - 1] && (i > 0 ==> r[i] == free[i - 1]);
    }
    forall i, j | 0 <= i < |active| && 0 <= j < |r| ensures active[i] != r[j] {
      assert j > 0 ==> r[j] == free[j - 1];
    }
  }

  lemma DeletedIsParted(active: seq<nat>, free: seq<nat>, id: nat)
    requires Parted(active, free) && id < LAYERS
    ensures Parted(Without(active, id), [id] + Without(free, id))
  {
    WithoutIsParted(active, free, id);
    PrependIsParted(Without(active, id), Without(free, id), id);
  }

  function Moved(pool: Pool, id: nat, pri: Priority): Pool
    requires id < |pool|
  {
    pool[id := pool[id].(pri := pri)]
  }

  lemma EnqueueKeeps(pool: Pool, active: seq<nat>, free: seq<nat>, id: nat, pri: Priority)
    requires |pool| == LAYERS && id < LAYERS && Parted(active, free) && Ordered(pool, active)
    ensures var list := Without(active, id);
            && (forall i :: 0 <= i < |list| ==> list[i] < LAYERS)
            && Parted(Linked(pool, list, id, pri), Without(free, id))
            && Ordered(Moved(pool, id, pri), Linked(pool, list, id, pri))
  {
    var list := Without(active, id);
    WithoutIsParted(active, free, id);
    WithoutIsOrdered(pool, active, id);
    LinkedIsOrdered(pool, Moved(pool, id, pri), list, id, pri);
    InsertIsParted(list, Without(free, id), id, Place(pool, list, pri));
  }

  lemma RelinkedIsSame(pool: Pool, active: seq<nat>, id: nat, pri: Priority)
    requires id in active
    ensures forall x :: x in Linked(pool, Without(active, id), id, pri) <==> x in active
  {
    var (k, list) := (Position(active, id), Without(active, id));
    var p := Place(pool, list, pri);
    assert active == active[..k] + [id] + active[k + 1..];
    assert list == list[..p] + list[p..];
    forall x ensures x in Linked(pool, list, id, pri) <==> x in active {
      assert x in list <==> x in list[..p] || x in list[p..];
      assert x in list <==> x in active[..k] || x in active[k + 1..];
      assert x in active <==> x in active[..k] || x == id || x in active[k + 1..];
    }
  }

  lemma WithoutIsInside(list: seq<nat>, id: nat, i: nat)
    requires i < |Without(list, id)|
    ensures Without(list, id)[i] in list
  {
  }

  lemma WithoutIsFloored(pool: Pool, list: seq<nat>, id: nat)
    requires Floored(pool, list)
    ensures Floored(pool, Without(list, id))
  {
    var r := Without(list, id);
    forall i | 0 <= i < |r| ensures Pri(pool, r[i]) >= HIDDEN {
      WithoutIsInside(list, id, i);
    }
  }

  lemma LinkedIsInside(pool: Pool, list: seq<nat>, id: nat, pri: Priority, i: nat)
    requires i < |Linked(pool, list, id, pri)|
    ensures Linked(pool, list, id, pri)[i] == id || Linked(pool, list, id, pri)[i] in list
  {
  }

  lemma RelinkedIsFloored(pool: Pool, active: seq<nat>, id: nat, pri: Priority)
    requires id < |pool| && Floored(pool, active) && pri >= HIDDEN
    ensures Floored(Moved(pool, id, pri), Linked(pool, Without(active, id), id, pri))
  {
    var (list, q) := (Without(active, id), Moved(pool, id, pri));
    var r := Linked(pool, list, id, pri);
    forall i | 0 <= i < |r| ensures Pri(q, r[i]) >= HIDDEN {
      LinkedIsInside(pool, list, id, pri, i);
      if r[i] != id {
        var j: nat :| j < |list| && list[j] == r[i];
        WithoutIsInside(active, id, j);
      }
    }
  }

  lemma StepDown(a: nat, n: nat)
    requires a >= n > 0
    ensures (a - n) % n == a % n
  {
    var (b, k) := (a - n, a / n - 1 - (a - n) / n);
    assert n * k == b % n - a % n;
    assert k >= 1 ==> n * k >= n;
    assert k <= -1 ==> n * k + n <= 0;
  }

  /** The loop of `lcd_setAddr`. */
  method Wrap(addr: nat, n: nat) returns (a: nat)
    requires n > 0
    ensures a == addr % n
  {
    a := addr;
    while a >= n
      invariant a % n == addr % n
      decreases a
    {
      StepDown(a, n);
      a := a - n;
    }
  }

  /** The pool with layer `id` blank and its position at the start. */
  function Cleared(pool: Pool, id: nat, n: nat): Pool
    requires id < |pool|
  {
    pool[id := pool[id].(addr := 0, buf := Copies(0, n))]
  }

  /** The pool with layer `id` blank and of priority `pri`. */
  function Opened(pool: Pool, id: nat, n: nat, pri: Priority): Pool
    requires id < |pool|
  {
    pool[id := Layer(0, pri, Copies(0, n))]
  }

  lemma ClearedKeeps(pool: Pool, active: seq<nat>, id: nat, n: nat, pri: Priority)
    requires id < |pool| && id !in active && Ordered(pool, active)
    ensures Ordered(Cleared(pool, id, n), active) && Without(active, id) == active
    ensures Linked(Cleared(pool, id, n), active, id, pri) == Linked(pool, active, id, pri)
    ensures Moved(Cleared(pool, id, n), id, pri) == Opened(pool, id, n, pri)
  {
    assert Position(active, id) == |active|;
    forall i | 0 <= i < |active| ensures Pri(pool, active[i]) == Pri(Cleared(pool, id, n), active[i]) {
    }
    PlaceAgrees(pool, Cleared(pool, id, n), active, pri);
  }

  lemma {:induction false} PlaceAgrees(p: Pool, q: Pool, list: seq<nat>, pri: Priority)
    requires forall i :: 0 <= i < |list| ==> Pri(p, list[i]) == Pri(q, list[i])
    ensures Place(p, list, pri) == Place(q, list, pri)
    decreases |list|
  {
    if list != [] {
      PlaceAgrees(p, q, list[1..], pri);
    }
  }

  /** A blank layer shows nothing of itself wherever it is linked. */
  lemma NewLayerShows(pool: Pool, active: seq<nat>, id: nat, n: nat, pri: Priority)
    requires id < |pool| && id !in active
    ensures forall a :: 0 <= a < n ==>
              Shown(Opened(pool, id, n, pri), Linked(pool, active, id, pri), a) == Shown(pool, active, a)
  {
    var (q, k) := (Opened(pool, id, n, pri), Place(pool, active, pri));
    forall a | 0 <= a < n ensures Shown(q, Linked(pool, active, id, pri), a) == Shown(pool, active, a) {
      LinkedShows(pool, q, active, id, k, a);
    }
  }

  lemma NewLayerIsFloored(pool: Pool, active: seq<nat>, id: nat, n: nat, pri: Priority)
    requires id < |pool| && id !in active && Floored(pool, active) && pri >= HIDDEN
    ensures Floored(Opened(pool, id, n, pri), Linked(pool, active, id, pri))
  {
    var (q, r) := (Opened(pool, id, n, pri), Linked(pool, active, id, pri));
    forall i | 0 <= i < |r| ensures Pri(q, r[i]) >= HIDDEN {
      LinkedAt(pool, active, id, pri, i);
    }
  }

  lemma HeadIsTaken(free: seq<nat>)
    requires free != []
    ensures Without(free, free[0]) == free[1..]
  {
  }

  /** The free list as `lcd_init` fills it, each layer at the head. */
  function Descending(k: nat): (s: seq<nat>)
    ensures |s| == k && forall i :: 0 <= i < k ==> s[i] == k - 1 - i
  {
    if k == 0 then [] else [k - 1] + Descending(k - 1)
  }

  /** Every layer of the pool covers the panel and has its position inside it. */
  ghost predicate Sized(pool: Pool, n: nat) {
    |pool| == LAYERS && forall id :: 0 <= id < |pool| ==> pool[id].addr < |pool[id].buf| == n
  }

  lemma StoredFloors(pool: Pool, active: seq<nat>, id: nat, c: Byte)
    requires id < |pool| && pool[id].addr < |pool[id].buf|
    ensures Floored(pool, active) <==> Floored(Stored(pool, id, c), active)
  {
    assert forall x :: Pri(pool, x) == Pri(Stored(pool, id, c), x);
  }

  /** What goes to a free layer is not part of the composition. */
  lemma FreeWriteShows(pool: Pool, active: seq<nat>, id: nat, c: Byte)
    requires id < |pool| && pool[id].addr < |pool[id].buf| && id !in active
    ensures forall a :: Shown(Stored(pool, id, c), active, a) == Shown(pool, active, a)
  {
    forall a ensures Shown(Stored(pool, id, c), active, a) == Shown(pool, active, a) {
      ShownAgrees(pool, Stored(pool, id, c), active, a);
    }
  }

  class Display {
    const panel: Panel
    var pool: Pool
    var active: seq<nat>
    var free: seq<nat>
    var defLayer: nat

    ghost predicate Valid()
      reads this, panel
    {
      && panel.Valid() && Sized(pool, |panel.screen|)
      && Parted(active, free) && Ordered(pool, active)
    }

    /** The panel shows the composition of the layers. */
    ghost predicate Drawn()
      reads this, panel
    {
      Shows(panel.screen, pool, active)
    }

    /** The panel is right, and no layer is below `HIDDEN`. */
    ghost predicate Right()
      reads this, panel
    {
      Valid() && Drawn() && Floored(pool, active)
    }

    /** `lcd_init` on a cleared panel: all layers are free but the default one, of priority 0. */
    constructor (panel: Panel)
      requires panel.Valid() && forall a :: 0 <= a < |panel.screen| ==> panel.screen[a] == SPACE
      ensures Right() && this.panel == panel
      ensures active == [defLayer] && free == Descending(LAYERS - 1)
      ensures defLayer < LAYERS && pool[defLayer] == Layer(0, 0, Copies(0, |panel.screen|))
    {
      this.panel := panel;
      pool := Copies(Layer(0, 0, Copies(0, panel.rows * panel.cols)), LAYERS);
      active, free, defLayer := [], Descending(LAYERS), 0;
      new;
      var layer := NewLayer(0);
      defLayer := layer.value;
    }

    /** Search for the first layer whose priority is no greater than `pri`. */
    method FindPlace(list: seq<nat>, pri: Priority) returns (k: nat)
      requires forall i :: 0 <= i < |list| ==> list[i] < |pool|
      ensures k == Place(pool, list, pri)
    {
      k := 0;
      while k < |list| && !(pool[list[k]].pri <= pri)
        invariant 0 <= k <= |list|
        invariant k + Place(pool, list[k..], pri) == Place(pool, list, pri)
      {
        assert list[k..][1..] == list[k + 1..];
        k := k + 1;
      }
    }

    /** `lcd_enqueueLayer`. */
    method Enqueue(id: nat, pri: Priority)
      requires Valid() && id < LAYERS
      modifies this`pool, this`active, this`free
      ensures Valid() && pool == Moved(old(pool), id, pri)
      ensures active == Linked(old(pool), Without(old(active), id), id, pri)
      ensures free == Without(old(free), id)
    {
      EnqueueKeeps(pool, active, free, id, pri);
      active, free := Without(active, id), Without(free, id);
      var k := FindPlace(active, pri);
      pool := Moved(pool, id, pri);
      active := active[..k] + [id] + active[k..];
    }

    /** `lcd_newLayer`: a transparent layer changes nothing that is seen, so nothing is drawn. */
    method NewLayer(pri: Priority) returns (layer: Option<nat>)
      requires Valid()
      modifies this`pool, this`active, this`free
      ensures Valid() && (layer.None? <==> old(free) == [])
      ensures layer.None? ==> pool == old(pool) && active == old(active) && free == old(free)
      ensures layer.Some? ==>
                && layer.value == old(free)[0] < LAYERS && free == old(free)[1..]
                && pool == Opened(old(pool), layer.value, |panel.screen|, pri)
                && active == Linked(old(pool), old(active), layer.value, pri)
      ensures old(Drawn()) ==> Drawn()
      ensures old(Floored(pool, active)) && pri >= HIDDEN ==> Floored(pool, active)
    {
      if free == [] {
        return None;
      }
      var id := free[0];
      ghost var before, n := pool, |panel.screen|;
      pool := Cleared(pool, id, panel.rows * panel.cols);
      ClearedKeeps(before, active, id, n, pri);
      HeadIsTaken(free);
      Enqueue(id, pri);
      NewLayerShows(before, old(active), id, n, pri);
      if Floored(before, old(active)) && pri >= HIDDEN {
        NewLayerIsFloored(before, old(active), id, n, pri);
      }
      layer := Some(id);
    }

    /** The inner loop of `lcd_refresh`. */
    method Topmost(a: nat) returns (c: Byte)
      requires Valid() && a < |panel.screen|
      ensures c == Refreshed(pool, active, a)
    {
      var i := 0;
      while i < |active|
        invariant 0 <= i <= |active|
        invariant Refreshed(pool, active[i..], a) == Refreshed(pool, active, a)
      {
        if pool[active[i]].pri == HIDDEN {
          return SPACE;
        }
        if pool[active[i]].buf[a] != 0 {
          return pool[active[i]].buf[a];
        }
        assert active[i..][1..] == active[i + 1..];
        i := i + 1;
      }
      c := SPACE;
    }

    /** `lcd_refresh`. */
    method Refresh()
      requires Valid()
      modifies panel
      ensures Valid() && panel.screen == Redrawn(pool, active, |old(panel.screen)|)
      ensures Drawn() <==> forall a :: 0 <= a < |panel.screen| ==> NothingLost(pool, active, a)
      ensures Floored(pool, active) ==> Drawn()
    {
      var a := 0;
      while a < panel.rows * panel.cols
        invariant 0 <= a <= |panel.screen| == |old(panel.screen)| && Valid()
        invariant forall b :: 0 <= b < a ==> panel.screen[b] == Refreshed(pool, active, b)
      {
        var c := Topmost(a);
        panel.Putc(a, c);
        a := a + 1;
      }
      assert panel.screen == Redrawn(pool, active, |old(panel.screen)|);
      RedrawnIsRight(pool, active, |panel.screen|);
    }

    /** `lcd_setLayerDepth`, of a layer in use or a free one, which it links as it is. */
    method SetLayerDepth(id: nat, pri: Priority)
      requires Valid() && id < LAYERS
      modifies this`pool, this`active, this`free, panel
      ensures Valid() && pool == Moved(old(pool), id, pri)
      ensures pri == old(pool[id].pri) ==>
                active == old(active) && free == old(free) && panel.screen == old(panel.screen)
      ensures pri != old(pool[id].pri) ==>
                && active == Linked(old(pool), Without(old(active), id), id, pri) && free == Without(old(free), id)
                && panel.screen == Redrawn(pool, active, |old(panel.screen)|)
                && (Drawn() <==> forall a :: 0 <= a < |panel.screen| ==> NothingLost(pool, active, a))
      ensures id in old(active) ==> forall x :: x in active <==> x in old(active)
      ensures Floored(pool, active) && old(Drawn()) ==> Drawn()
      ensures old(Floored(pool, active)) && pri >= HIDDEN ==> Floored(pool, active)
    {
      if pri != pool[id].pri {
        if id in active {
          RelinkedIsSame(pool, active, id, pri);
        }
        if Floored(pool, active) && pri >= HIDDEN {
          RelinkedIsFloored(pool, active, id, pri);
        }
        Enqueue(id, pri);
        Refresh();
      }
    }

    /** `lcd_deleteLayer`. */
    method DeleteLayer(id: nat)
      requires Valid() && id < LAYERS
      modifies this`pool, this`active, this`free, panel
      ensures Valid() && pool == old(pool)
      ensures active == Without(old(active), id) && free == [id] + Without(old(free), id)
      ensures panel.screen == Redrawn(pool, active, |old(panel.screen)|)
      ensures Drawn() <==> forall a :: 0 <= a < |panel.screen| ==> NothingLost(pool, active, a)
      ensures Floored(pool, active) ==> Drawn()
    {
      DeletedIsParted(active, free, id);
      WithoutIsOrdered(pool, active, id);
      active := Without(active, id);
      free := [id] + Without(free, id);
      Refresh();
    }

    /** `lcd_setAddr`. */
    method SetAddr(id: nat, addr: nat)
      requires Valid() && id < LAYERS
      modifies this`pool
      ensures Valid() && pool == old(pool)[id := old(pool)[id].(addr := addr % |panel.screen|)]
      ensures old(Floored(pool, active)) ==> Floored(pool, active)
      ensures old(Drawn()) ==> Drawn()
    {
      var a := Wrap(addr, panel.rows * panel.cols);
      ghost var before := pool;
      pool := pool[id := pool[id].(addr := a)];
      assert forall x :: Pri(before, x) == Pri(pool, x);
      forall b ensures Shown(pool, active, b) == Shown(before, active, b) {
        ShownAgrees(before, pool, active, b);
      }
    }

    /** The list a layer is in. */
    function ListOf(id: nat): seq<nat>
      reads this
    {
      if id in active then active else free
    }

    /** The walk over the layers above in whatever list the layer is in. */
    method IsObscured(list: seq<nat>, k: nat, a: nat) returns (r: bool)
      requires Valid() && (list == active || list == free) && k <= |list| && a < |panel.screen|
      ensures r <==> Obscured(pool, list, k, a)
    {
      var j := k;
      while j > 0
        invariant 0 <= j <= k
        invariant forall i :: j <= i < k ==> Char(pool, list[i], a) == 0
      {
        j := j - 1;
        if pool[list[j]].buf[a] != 0 {
          return true;
        }
      }
      r := false;
    }

    /** The first half of `lcd_putCharUnlocked`: the character goes to the layer, whose position moves on. */
    method Store(c: Byte, id: nat)
      requires Valid() && id < LAYERS
      modifies this`pool
      ensures Valid() && pool == Stored(old(pool), id, c)
    {
      var addr := pool[id].addr;
      pool := pool[id := pool[id].(buf := pool[id].buf[addr := c])];
      pool := pool[id := pool[id].(addr := addr + 1)];
      if pool[id].addr >= panel.cols * panel.rows {
        pool := pool[id := pool[id].(addr := 0)];
      }
    }

    /** The second half: what goes to the panel. */
    method Draw(c: Byte, list: seq<nat>, k: nat, addr: nat)
      requires Valid() && (list == active || list == free) && k < |list| && addr < |panel.screen|
      modifies panel
      ensures Valid() && |panel.screen| == |old(panel.screen)|
      ensures panel.screen == old(panel.screen)[addr := Painted(pool, list, k, addr, c, old(panel.screen)[addr])]
    {
      ghost var was := panel.screen;
      assert was[addr := was[addr]] == was;
      if pool[list[k]].pri == HIDDEN {
        return;
      }
      var obscured := IsObscured(list, k, addr);
      assert Painted(pool, list, k, addr, c, was[addr]) == if obscured then was[addr] else if c != 0 then c else SPACE;
      if !obscured {
        panel.Putc(addr, if c != 0 then c else SPACE);
      }
    }

    /** Both halves. */
    method Paint(c: Byte, id: nat)
      requires Valid() && (id in active || id in free)
      modifies this`pool, panel
      ensures Valid() && pool == Stored(old(pool), id, c)
      ensures panel.screen == old(panel.screen[pool[id].addr :=
                Painted(pool, ListOf(id), Position(ListOf(id), id), pool[id].addr, c, panel.screen[pool[id].addr])])
    {
      ghost var before := pool;
      var list := ListOf(id);
      var k, addr := Position(list, id), pool[id].addr;
      Store(c, id);
      Draw(c, list, k, addr);
      StoredObscures(before, list, k, c, addr);
    }

    /**
     `lcd_putCharUnlocked`. The display stays right exactly when the write covers, if the layer is in
     use, and exactly when it paints what is there already, if it is free.
     */
    method PutChar(c: Byte, id: nat)
      requires Valid() && (id in active || id in free)
      modifies this`pool, panel
      ensures Valid() && pool == Stored(old(pool), id, c)
      ensures panel.screen == old(panel.screen[pool[id].addr :=
                Painted(pool, ListOf(id), Position(ListOf(id), id), pool[id].addr, c, panel.screen[pool[id].addr])])
      ensures old(Floored(pool, active)) <==> Floored(pool, active)
      ensures id in active && old(Drawn()) ==> (Drawn() <==> Covers(old(pool), active, Position(active, id), c))
      ensures id !in active && old(Drawn()) ==> (Drawn() <==> panel.screen == old(panel.screen))
    {
      ghost var before, was := pool, panel.screen;
      Paint(c, id);
      StoredFloors(before, active, id, c);
      if id !in active {
        FreeWriteShows(before, active, id, c);
      } else if old(Drawn()) {
        DrawingIsRight(before, active, Position(active, id), c, was);
      }
    }

    /** All there is to it. */
    ghost function Now(): Picture
      reads this, panel
    {
      Picture(pool, active, free, panel.screen)
    }
  }

  // ----- Whole runs -----

  datatype Picture = Picture(pool: Pool, active: seq<nat>, free: seq<nat>, screen: seq<Byte>) {

    function ListOf(id: nat): seq<nat> {
      if id in active then active else free
    }
  }

  datatype Op = New(pri: Priority) | Delete(id: nat) | Depth(id: nat, pri: Priority) | Move(id: nat, addr: nat)
              | Put(id: nat, c: Byte)

  /** There is a free layer, or such a layer, and a character has its place. */
  predicate Usable(s: Picture, op: Op) {
    match op
    case New(_) => s.free != [] && s.free[0] < |s.pool|
    case Move(id, _) => id < |s.pool| && s.screen != []
    case Put(id, _) => id < |s.pool| && id in s.ListOf(id) && s.pool[id].addr < |s.pool[id].buf| && s.pool[id].addr < |s.screen|
    case _ => op.id < |s.pool|
  }

  /** What one operation makes of the display. */
  ghost function After(s: Picture, op: Op): Picture {
    if !Usable(s, op) then s
    else match op
      case New(pri) =>
        s.(pool := Opened(s.pool, s.free[0], |s.screen|, pri),
           active := Linked(s.pool, s.active, s.free[0], pri), free := s.free[1..])
      case Delete(id) => Refreshing(s.(active := Without(s.active, id), free := [id] + Without(s.free, id)))
      case Depth(id, pri) =>
        if pri == s.pool[id].pri then s
        else Refreshing(s.(pool := Moved(s.pool, id, pri), active := Linked(s.pool, Without(s.active, id), id, pri),
                           free := Without(s.free, id)))
      case Move(id, addr) => s.(pool := s.pool[id := s.pool[id].(addr := addr % |s.screen|)])
      case Put(id, c) =>
        var (list, a) := (s.ListOf(id), s.pool[id].addr);
        s.(pool := Stored(s.pool, id, c),
           screen := s.screen[a := Painted(s.pool, list, Position(list, id), a, c, s.screen[a])])
  }

  function Refreshing(s: Picture): Picture {
    s.(screen := Redrawn(s.pool, s.active, |s.screen|))
  }

  ghost function AfterAll(s: Picture, ops: seq<Op>): Picture
    decreases |ops|
  {
    if ops == [] then s else After(AfterAll(s, ops[..|ops| - 1]), ops[|ops| - 1])
  }

  // ----- Writing a whole string -----

  function Typed(id: nat, cs: seq<Byte>): (ops: seq<Op>)
    ensures |ops| == |cs| && forall i :: 0 <= i < |cs| ==> ops[i] == Put(id, cs[i])
  {
    seq(|cs|, i requires 0 <= i < |cs| => Put(id, cs[i]))
  }

  ghost predicate Typable(s: Picture, id: nat) {
    && id < |s.pool| && id in s.ListOf(id)
    && |s.pool[id].buf| == |s.screen| && s.pool[id].addr < |s.screen|
  }

  /** How far cell `j` is behind cell `a` going round `n` cells. */
  function Behind(a: nat, j: nat, n: nat): nat
    requires a < n && j < n
  {
    if a <= j then j - a else j + n - a
  }

  /** Nothing keeps what is written to layer `id` off the panel at `j`: it is not hidden and nothing is above it. */
  ghost predicate OnTop(s: Picture, id: nat, j: nat) {
    var list := s.ListOf(id);
    Pri(s.pool, id) != HIDDEN && !Obscured(s.pool, list, Position(list, id), j)
  }

  /**
   The string `cs` went to layer `id` cell after cell, going round at the end of the display, and
   to the panel where nothing keeps it off; the layer's position is behind it, and nothing else changed.
   */
  ghost predicate TypedTo(s: Picture, id: nat, cs: seq<Byte>, r: Picture)
    requires Typable(s, id) && |cs| <= |s.screen|
  {
    var (l, n) := (s.pool[id], |s.screen|);
    && |r.pool| == |s.pool| && r.active == s.active && r.free == s.free && |r.screen| == n
    && |r.pool[id].buf| == n && r.pool[id].pri == l.pri && r.pool[id].addr == Onward(l.addr, |cs|, n)
    && (forall x :: 0 <= x < |s.pool| && x != id ==> r.pool[x] == s.pool[x])
    && (forall j :: 0 <= j < n ==>
          r.pool[id].buf[j] == if Behind(l.addr, j, n) < |cs| then cs[Behind(l.addr, j, n)] else l.buf[j])
    && (forall j :: 0 <= j < n ==>
          r.screen[j] == if Behind(l.addr, j, n) < |cs| && OnTop(s, id, j) then Over(cs[Behind(l.addr, j, n)], SPACE)
                         else s.screen[j])
  }

  /** The cell `m` places on from cell `a`. */
  function Onward(a: nat, m: nat, n: nat): (j: nat)
    requires a < n && m <= n
    ensures j < n && (m < n ==> Behind(a, j, n) == m)
  {
    if a + m < n then a + m else a + m - n
  }

  lemma OnwardIs(a: nat, m: nat, n: nat)
    requires a < n && m <= n
    ensures Onward(a, m, n) == (a + m) % n
  {
    if a + m < n {
      Divides(0, n, a + m);
    } else {
      Divides(1, n, a + m - n);
    }
  }

  lemma OnTopStays(s: Picture, id: nat, r: Picture, j: nat)
    requires id < |s.pool| == |r.pool| && r.active == s.active && r.free == s.free && r.pool[id].pri == s.pool[id].pri
    requires forall x :: 0 <= x < |s.pool| && x != id ==> r.pool[x] == s.pool[x]
    ensures OnTop(r, id, j) == OnTop(s, id, j)
  {
    var list := s.ListOf(id);
    var k := Position(list, id);
    assert forall i :: 0 <= i < k ==> Char(r.pool, list[i], j) == Char(s.pool, list[i], j);
  }

  lemma TypeOne(s: Picture, id: nat, cs: seq<Byte>, c: Byte, mid: Picture)
    requires Typable(s, id) && |cs| < |s.screen| && TypedTo(s, id, cs, mid)
    ensures TypedTo(s, id, cs + [c], After(mid, Put(id, c)))
  {
    var (a, n, m) := (s.pool[id].addr, |s.screen|, |cs|);
    var r := After(mid, Put(id, c));
    var here := mid.pool[id].addr;
    assert Usable(mid, Put(id, c));
    OnTopStays(s, id, mid, here);
    forall j | 0 <= j < n
      ensures r.pool[id].buf[j] ==
              if Behind(a, j, n) < m + 1 then (cs + [c])[Behind(a, j, n)] else s.pool[id].buf[j]
      ensures r.screen[j] ==
              if Behind(a, j, n) < m + 1 && OnTop(s, id, j) then Over((cs + [c])[Behind(a, j, n)], SPACE) else s.screen[j]
    {
      assert Behind(a, j, n) == m <==> j == here;
    }
  }

  lemma {:induction false} TypingFills(s: Picture, id: nat, cs: seq<Byte>)
    requires Typable(s, id) && |cs| <= |s.screen|
    ensures TypedTo(s, id, cs, AfterAll(s, Typed(id, cs)))
    decreases |cs|
  {
    if cs == [] {
      TypedNothing(s, id);
      assert Typed(id, cs) == [];
    } else {
      var m := |cs| - 1;
      TypingFills(s, id, cs[..m]);
      assert Typed(id, cs)[..m] == Typed(id, cs[..m]);
      assert cs == cs[..m] + [cs[m]];
      TypeOne(s, id, cs[..m], cs[m], AfterAll(s, Typed(id, cs[..m])));
    }
  }

  lemma TypedNothing(s: Picture, id: nat)
    requires Typable(s, id)
    ensures TypedTo(s, id, [], s)
  {
  }

  /** So character `i` of a string is in its layer `i` cells on, and there on the panel if nothing is above. */
  lemma StringIsWritten(s: Picture, id: nat, cs: seq<Byte>, r: Picture, i: nat)
    requires Typable(s, id) && i < |cs| <= |s.screen| && TypedTo(s, id, cs, r)
    ensures var j := Onward(s.pool[id].addr, i, |s.screen|);
            && j < |r.pool[id].buf| == |r.screen| && r.pool[id].buf[j] == cs[i]
            && (OnTop(s, id, j) && cs[i] != 0 ==> r.screen[j] == cs[i])
  {
  }

  /** Priorities from `HIDDEN` up, and characters other than NUL to layers in use. */
  predicate Proper(s: Picture, op: Op) {
    match op
    case New(pri) => pri >= HIDDEN
    case Depth(_, pri) => pri >= HIDDEN
    case Put(id, c) => c != 0 && id in s.active
    case _ => true
  }

  ghost predicate ProperAll(s: Picture, ops: seq<Op>)
    decreases |ops|
  {
    ops == [] || (ProperAll(s, ops[..|ops| - 1]) && Proper(AfterAll(s, ops[..|ops| - 1]), ops[|ops| - 1]))
  }

  method Arrange(d: Display, op: Op)
    requires d.Valid() && op.Depth?
    modifies d, d.panel
    ensures d.Valid() && d.Now() == After(old(d.Now()), op)
    ensures old(d.Right()) && Proper(old(d.Now()), op) ==> d.Right()
  {
    if op.id < LAYERS {
      assert d.pool[op.id := d.pool[op.id].(pri := d.pool[op.id].pri)] == d.pool;
      d.SetLayerDepth(op.id, op.pri);
    }
  }

  method Remove(d: Display, op: Op)
    requires d.Valid() && op.Delete?
    modifies d, d.panel
    ensures d.Valid() && d.Now() == After(old(d.Now()), op)
    ensures old(d.Right()) ==> d.Right()
  {
    if op.id < LAYERS {
      if Floored(d.pool, d.active) {
        WithoutIsFloored(d.pool, d.active, op.id);
      }
      d.DeleteLayer(op.id);
    }
  }

  method Create(d: Display, op: Op)
    requires d.Valid() && op.New?
    modifies d
    ensures d.Valid() && d.Now() == After(old(d.Now()), op)
    ensures old(d.Right()) && Proper(old(d.Now()), op) ==> d.Right()
  {
    var _ := d.NewLayer(op.pri);
  }

  method Address(d: Display, op: Op)
    requires d.Valid() && op.Move?
    modifies d, d.panel
    ensures d.Valid() && d.Now() == After(old(d.Now()), op)
    ensures old(d.Right()) ==> d.Right()
  {
    if op.id < LAYERS {
      d.SetAddr(op.id, op.addr);
    }
  }

  method Write(d: Display, op: Op)
    requires d.Valid() && op.Put?
    modifies d, d.panel
    ensures d.Valid() && d.Now() == After(old(d.Now()), op)
    ensures old(d.Right()) && Proper(old(d.Now()), op) ==> d.Right()
  {
    if op.id in d.active || op.id in d.free {
      if d.Right() && Proper(d.Now(), op) {
        CharCovers(d.pool, d.active, Position(d.active, op.id), op.c);
      }
      d.PutChar(op.c, op.id);
    }
  }

  /**
   Over every sequence of operations the layers and the panel are the specified ones; with proper
   operations the panel shows the composition of the layers all the time.
   */
  method Run(d: Display, ops: seq<Op>)
    requires d.Valid()
    modifies d, d.panel
    ensures d.Valid() && d.Now() == AfterAll(old(d.Now()), ops)
    ensures old(d.Right()) && ProperAll(old(d.Now()), ops) ==> d.Right()
  {
    for i := 0 to |ops|
      invariant d.Valid() && d.Now() == AfterAll(old(d.Now()), ops[..i])
      invariant old(d.Right()) && ProperAll(old(d.Now()), ops[..i]) ==> d.Right()
    {
      assert ops[..i + 1][..i] == ops[..i];
      if ops[i].Move? {
        Address(d, ops[i]);
      } else if ops[i].Put? {
        Write(d, ops[i]);
      } else if ops[i].New? {
        Create(d, ops[i]);
      } else if ops[i].Delete? {
        Remove(d, ops[i]);
      } else {
        Arrange(d, ops[i]);
      }
    }
    assert ops[..|ops|] == ops;
  }
}
