/**
 The two lines of an I2C bus, a decoder of START and STOP conditions and acknowledged bytes
 (sections 3.1.3 to 3.1.6 of NXP UM10204), and when what it makes of the bus is what the master
 meant: exactly when the slave leaves the data line alone wherever the master marks a START or STOP.
 */
module I2cBus {

  /** The clock, and what the master and the slave put on the data line (true: released). */
  datatype Level = Level(scl: bool, sda: bool, slave: bool)

  /** What the bus shows of it: the line is low if anyone pulls it, and nobody can tell who does. */
  function Wired(l: Level): Level {
    Level(l.scl, l.sda && l.slave, true)
  }

  datatype Event =
    | Start
    | Stop
    | Byte(bits: seq<bool>, ack: bool)

  // ----- The decoder -----

  /**
   `prev` is the last level seen; `marked` tells that a START or STOP was seen since the clock
   rose; `bits` are the clocked bits of an incomplete byte.
   */
  datatype Decoder = Decoder(prev: Level, marked: bool, bits: seq<bool>, events: seq<Event>)

  const IDLE := Level(true, true, true)

  function Collect(d: Decoder, bit: bool): Decoder {
    if |d.bits| < 8 then d.(bits := d.bits + [bit])
    else d.(bits := [], events := d.events + [Byte(d.bits, !bit)])
  }

  /**
   Data moving while the clock is high is a START or a STOP; a bit counts when the clock falls,
   unless the same clock pulse carried a START or STOP.
   */
  function Feed(d: Decoder, l: Level): Decoder {
    if d.prev.scl && l.scl then
      if d.prev.sda && !l.sda then Decoder(l, true, [], d.events + [Start])
      else if !d.prev.sda && l.sda then Decoder(l, true, [], d.events + [Stop])
      else d.(prev := l)
    else if d.prev.scl then
      if d.marked then d.(prev := l) else Collect(d.(prev := l), d.prev.sda && d.prev.slave)
    else
      d.(prev := l, marked := d.marked && !l.scl)
  }

  /** The data line falling under a high clock is a START and rising a STOP, whatever came before; a level that stays is neither. */
  lemma MarksAreRead(d: Decoder, data: bool)
    requires d.prev.scl
    ensures var e := Feed(d, Level(true, data, true)).events;
            e == d.events + if d.prev.sda && !data then [Start] else if !d.prev.sda && data then [Stop] else []
  {
  }

  /** What a decoder makes of the levels it is shown, starting from the first one. */
  function Decode(trace: seq<Level>): Decoder
    decreases |trace|
  {
    if |trace| < 2 then Decoder(if trace == [] then IDLE else trace[0], false, [], [])
    else Feed(Decode(trace[..|trace| - 1]), trace[|trace| - 1])
  }

  function WiredAll(trace: seq<Level>): (r: seq<Level>)
    ensures |r| == |trace|
    decreases |trace|
  {
    if trace == [] then [] else WiredAll(trace[..|trace| - 1]) + [Wired(trace[|trace| - 1])]
  }

  /** What an observer of the bus makes of it; `Decode(trace)` knows the master's own pin besides. */
  function OnBus(trace: seq<Level>): Decoder {
    Decode(WiredAll(trace))
  }

  // ----- When the bus shows what the master meant -----

  /** The slave leaves the line alone while the clock stays high. */
  predicate Keeps(a: Level, l: Level) {
    a.scl && l.scl ==> a.slave == l.slave
  }

  /** The slave moves the line only while the clock is low. */
  ghost predicate Steady(trace: seq<Level>)
    decreases |trace|
  {
    var n := |trace|;
    n < 2 || (Steady(trace[..n - 1]) && Keeps(trace[n - 2], trace[n - 1]))
  }

  /** The master moves its pin while the clock is high. */
  predicate Marks(a: Level, b: Level) {
    a.scl && b.scl && a.sda != b.sda
  }

  /** The slave has released the line wherever the master marked a START or a STOP. */
  ghost predicate Undisturbed(trace: seq<Level>)
    decreases |trace|
  {
    var n := |trace|;
    n < 2 || (Undisturbed(trace[..n - 1]) && (Marks(trace[n - 2], trace[n - 1]) ==> trace[n - 1].slave))
  }

  lemma {:induction false} LastSeen(trace: seq<Level>)
    requires trace != []
    ensures Decode(trace).prev == trace[|trace| - 1] && OnBus(trace).prev == Wired(trace[|trace| - 1])
    decreases |trace|
  {
    var n := |trace| - 1;
    assert WiredAll(trace)[..n] == WiredAll(trace[..n]);
    if n > 0 {
      LastSeen(trace[..n]);
    }
  }

  /** The decoder on the bus moves by the last level of a trace. */
  lemma BusSteps(trace: seq<Level>)
    requires |trace| >= 2
    ensures OnBus(trace) == Feed(OnBus(trace[..|trace| - 1]), Wired(trace[|trace| - 1]))
  {
    assert WiredAll(trace)[..|trace| - 1] == WiredAll(trace[..|trace| - 1]);
  }

  lemma BusGrows(trace: seq<Level>, l: Level)
    requires trace != []
    ensures OnBus(trace + [l]) == Feed(OnBus(trace), Wired(l)) && Decode(trace + [l]) == Feed(Decode(trace), l)
  {
    var r := trace + [l];
    assert r[..|trace|] == trace;
    BusSteps(r);
  }

  /** Two decoders that differ only in the level they saw last. */
  ghost predicate Agree(d: Decoder, b: Decoder) {
    b.marked == d.marked && b.bits == d.bits && b.events == d.events
  }

  lemma FeedAgrees(d: Decoder, b: Decoder, l: Level)
    requires Agree(d, b) && b.prev == Wired(d.prev) && Keeps(d.prev, l)
    requires Marks(d.prev, l) ==> l.slave
    ensures Agree(Feed(d, l), Feed(b, Wired(l)))
  {
  }

  /** An undisturbed bus shows everything the master meant. */
  lemma {:induction false} UndisturbedAgrees(trace: seq<Level>)
    requires Steady(trace) && Undisturbed(trace)
    ensures Agree(Decode(trace), OnBus(trace))
    decreases |trace|
  {
    var n := |trace| - 1;
    if n > 0 {
      UndisturbedAgrees(trace[..n]);
      LastSeen(trace[..n]);
      BusSteps(trace);
      FeedAgrees(Decode(trace[..n]), OnBus(trace[..n]), trace[n]);
    }
  }

  /** The number of STARTs and STOPs. */
  function MarkCount(events: seq<Event>): nat
    decreases |events|
  {
    if events == [] then 0
    else MarkCount(events[..|events| - 1]) + if events[|events| - 1].Byte? then 0 else 1
  }

  lemma OneMoreEvent(events: seq<Event>, e: Event)
    ensures MarkCount(events + [e]) == MarkCount(events) + if e.Byte? then 0 else 1
  {
    assert (events + [e])[..|events|] == events;
  }

  lemma FeedCounts(d: Decoder, l: Level)
    ensures MarkCount(Feed(d, l).events) == MarkCount(d.events) + if Marks(d.prev, l) then 1 else 0
  {
    OneMoreEvent(d.events, Start);
    OneMoreEvent(d.events, Stop);
    OneMoreEvent(d.events, Byte(d.bits, !(d.prev.sda && d.prev.slave)));
  }

  lemma WiredMarks(a: Level, l: Level)
    requires Keeps(a, l)
    ensures Marks(Wired(a), Wired(l)) <==> Marks(a, l) && l.slave
  {
  }

  /** The bus never shows more marks than the master made, and fewer as soon as it is disturbed. */
  lemma {:induction false} DisturbedLoses(trace: seq<Level>)
    requires Steady(trace)
    ensures MarkCount(OnBus(trace).events) <= MarkCount(Decode(trace).events)
    ensures !Undisturbed(trace) ==> MarkCount(OnBus(trace).events) < MarkCount(Decode(trace).events)
    decreases |trace|
  {
    var n := |trace| - 1;
    if n > 0 {
      DisturbedLoses(trace[..n]);
      LastSeen(trace[..n]);
      BusSteps(trace);
      FeedCounts(Decode(trace[..n]), trace[n]);
      FeedCounts(OnBus(trace[..n]), Wired(trace[n]));
      WiredMarks(trace[n - 1], trace[n]);
    }
  }

  /** The bus shows exactly what the master meant if and only if it is undisturbed. */
  lemma BusAgrees(trace: seq<Level>)
    requires Steady(trace)
    ensures OnBus(trace).events == Decode(trace).events <==> Undisturbed(trace)
  {
    DisturbedLoses(trace);
    if Undisturbed(trace) {
      UndisturbedAgrees(trace);
    }
  }

  /** All of it in one account of a trace. */
  datatype Story = Story(dec: Decoder, clear: bool, steady: bool)

  function Begun(l: Level): Story {
    Story(Decoder(l, false, [], []), true, true)
  }

  function Told(s: Story, l: Level): Story {
    Story(Feed(s.dec, l), s.clear && (Marks(s.dec.prev, l) ==> l.slave),
          s.steady && Keeps(s.dec.prev, l))
  }

  function Tell(trace: seq<Level>): Story
    requires trace != []
    decreases |trace|
  {
    if |trace| == 1 then Begun(trace[0]) else Told(Tell(trace[..|trace| - 1]), trace[|trace| - 1])
  }

  lemma TellGrows(trace: seq<Level>, l: Level)
    requires trace != []
    ensures Tell(trace + [l]) == Told(Tell(trace), l)
  {
    assert (trace + [l])[..|trace|] == trace;
  }

  lemma {:induction false} TellIs(trace: seq<Level>)
    requires trace != []
    ensures Tell(trace) == Story(Decode(trace), Undisturbed(trace), Steady(trace))
    decreases |trace|
  {
    if |trace| > 1 {
      TellIs(trace[..|trace| - 1]);
      LastSeen(trace[..|trace| - 1]);
    }
  }

  /**
   What a stretch of a trace adds: if everything was shown before it, the bus shows exactly what the
   master meant by it if and only if it was undisturbed.
   */
  lemma BusShows(before: seq<Level>, s: Story, trace: seq<Level>, r: Story, more: seq<Event>, cond: bool)
    requires before != [] && Tell(before) == s && s.steady && trace != [] && Tell(trace) == r && r.steady
    requires r.dec.events == s.dec.events + more && r.clear == (s.clear && cond)
    ensures s.clear ==> (OnBus(trace).events == OnBus(before).events + more <==> cond)
  {
    TellIs(before);
    TellIs(trace);
    BusAgrees(before);
    BusAgrees(trace);
  }

  /** A slave that holds the line through the pulse of a STOP: the master marks it and the bus does not show it. */
  lemma HeldStopIsLost()
    ensures var trace := [Level(false, false, true), Level(true, false, false), Level(true, true, false)];
            Decode(trace).events == [Stop] && OnBus(trace).events == []
  {
    var (a, b, c) := (Level(false, false, true), Level(true, false, false), Level(true, true, false));
    assert [a, b, c] == [a] + [b] + [c];
    BusGrows([a], b);
    BusGrows([a] + [b], c);
    assert OnBus([a]) == Decoder(Wired(a), false, [], []) by {
      assert WiredAll([a]) == [Wired(a)];
    }
  }

  // ----- The lines -----

  /** Whether the slave leaves the data line released, for each pulse of the clock; it does so at the end. */
  type Slave = seq<bool>

  predicate Released(slave: Slave, p: nat) {
    p < |slave| ==> slave[p]
  }

  /**
   The lines, the number of clock pulses so far, what the master meant by them, and whether the
   bus was undisturbed.
   */
  datatype Wire = Wire(scl: bool, sda: bool, pulse: nat, dec: Decoder, clear: bool) {
    ghost predicate Seen(slave: Slave) {
      dec.prev == Level(scl, sda, Released(slave, pulse)) && |dec.bits| <= 8
    }

    function SetSda(slave: Slave, v: bool): Wire {
      Wire(scl, v, pulse, Feed(dec, Level(scl, v, Released(slave, pulse))),
           clear && (scl && v != sda ==> Released(slave, pulse)))
    }

    /** A slave changes the data line only while the clock is low, so at the latest when it rises. */
    function SetScl(slave: Slave, v: bool): Wire {
      var p := if v && !scl then pulse + 1 else pulse;
      Wire(v, sda, p, Feed(dec, Level(v, sda, Released(slave, p))), clear)
    }
  }

  /** One clocked bit, from clock low to clock low. */
  function Push(w: Wire, slave: Slave, v: bool): Wire {
    var d := Collect(w.dec, v && Released(slave, w.pulse + 1));
    Wire(false, v, w.pulse + 1, d.(prev := Level(false, v, Released(slave, w.pulse + 1)), marked := false), w.clear)
  }

  function PushAll(w: Wire, slave: Slave, vs: seq<bool>): Wire
    decreases |vs|
  {
    if vs == [] then w else Push(PushAll(w, slave, vs[..|vs| - 1]), slave, vs[|vs| - 1])
  }

  lemma ClockIsPush(w: Wire, slave: Slave, v: bool)
    requires w.Seen(slave) && !w.scl
    ensures w.SetSda(slave, v).SetScl(slave, true).SetScl(slave, false) == Push(w, slave, v)
    ensures Push(w, slave, v).Seen(slave)
  {
  }

  /** The same when the data line is left released. */
  lemma ReleasedClockIsPush(w: Wire, slave: Slave)
    requires w.Seen(slave) && !w.scl && w.sda
    ensures w.SetScl(slave, true).SetScl(slave, false) == Push(w, slave, true)
    ensures Push(w, slave, true).Seen(slave)
  {
  }

  /** The bits on the line when the master sends `vs` from pulse `p` on. */
  function OnLine(slave: Slave, p: nat, vs: seq<bool>): (bits: seq<bool>)
    ensures |bits| == |vs|
    decreases |vs|
  {
    if vs == [] then [] else OnLine(slave, p, vs[..|vs| - 1]) + [vs[|vs| - 1] && Released(slave, p + |vs|)]
  }

  lemma {:induction false} PushAllCollects(w: Wire, slave: Slave, vs: seq<bool>)
    requires w.Seen(slave) && !w.scl && w.dec.bits == [] && |vs| <= 8
    ensures var r := PushAll(w, slave, vs);
            && r.Seen(slave) && !r.scl && r.pulse == w.pulse + |vs|
            && r.dec.bits == OnLine(slave, w.pulse, vs) && r.dec.events == w.dec.events && r.clear == w.clear
            && (vs != [] ==> r.sda == vs[|vs| - 1])
    decreases |vs|
  {
    if vs != [] {
      PushAllCollects(w, slave, vs[..|vs| - 1]);
    }
  }

  /** Nine clocked bits are one byte with its acknowledge bit. */
  lemma NineBitsAreAByte(w: Wire, slave: Slave, vs: seq<bool>, last: bool)
    requires w.Seen(slave) && !w.scl && w.dec.bits == [] && |vs| == 8
    ensures var r := PushAll(w, slave, vs + [last]);
            && r.Seen(slave) && !r.scl && r.sda == last && r.pulse == w.pulse + 9 && r.dec.bits == []
            && r.clear == w.clear
            && r.dec.events == w.dec.events + [Byte(OnLine(slave, w.pulse, vs), !(last && Released(slave, w.pulse + 9)))]
  {
    PushAllCollects(w, slave, vs);
    assert (vs + [last])[..8] == vs;
  }
}
