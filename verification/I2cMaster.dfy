/**
 The bit-banging I2C master of bertos/drv/i2c_bitbang.c (its current interface), together with
 the sessions of bertos/drv/i2c.h and the loops of bertos/drv/i2c.c.
 */
module I2cMaster {
  import opened I2cBus

  /** A byte as its eight bits, the most significant first: the order in which the masks walk over it. */
  type Octet = b: seq<bool> | |b| == 8 witness [false, false, false, false, false, false, false, false]

  function Low(w: Wire, slave: Slave): Wire {
    w.SetScl(slave, false)
  }

  class I2c {
    const slave: Slave
    var scl: bool
    var sda: bool
    var pulse: nat
    ghost var trace: seq<Level>  // every level the lines ever had
    ghost var dec: Decoder       // what the master means by them
    ghost var clear: bool        // whether the bus has shown exactly that, by `ClearIsShown`
    // errors
    var noAck: bool
    var arbLost: bool
    var startTimeout: bool
    // flags and transfer size
    var stopFlag: bool
    var readFlag: bool
    var xferSize: nat

    ghost function W(): Wire
      reads this
    {
      Wire(scl, sda, pulse, dec, clear)
    }

    predicate HasErrors()
      reads this
    {
      noAck || arbLost || startTimeout
    }

    /** What an observer of the bus has seen so far. */
    ghost function Bus(): seq<Event>
      reads this
    {
      OnBus(trace).events
    }

    ghost function Present(): Level
      reads this
    {
      Level(scl, sda, Released(slave, pulse))
    }

    ghost predicate Followed()
      reads this
    {
      trace != [] && Tell(trace) == Story(dec, clear, true)
    }

    ghost predicate Watched()
      reads this
    {
      Followed() && W().Seen(slave)
    }

    /** The bus has shown everything the master meant, and nothing else, if and only if it was undisturbed. */
    lemma ClearIsShown()
      requires Followed()
      ensures Bus() == dec.events <==> clear
    {
      TellIs(trace);
      BusAgrees(trace);
    }

    /** Between any two calls: the data line is released and no byte is half clocked. */
    ghost predicate Valid()
      reads this
    {
      Watched() && sda && dec.bits == []
    }

    /** `i2c_hw_bitbangInit` releases both lines. */
    constructor (slave: Slave)
      ensures Valid() && scl && this.slave == slave && dec.events == [] && clear
      ensures Ready() && Full() == INITIAL
    {
      this.slave := slave;
      scl, sda, pulse, clear := true, true, 0, true;
      trace := [Level(true, true, Released(slave, 0))];
      dec := Begun(Level(true, true, Released(slave, 0))).dec;
      noAck, arbLost, startTimeout := false, false, false;
      stopFlag, readFlag, xferSize := false, false, 0;
      new;
      SetSda(true);
      SetScl(true);
    }

    method SetSda(v: bool)
      requires Followed() && dec.prev == Present()
      modifies this`sda, this`trace, this`dec, this`clear
      ensures Followed() && dec.prev == Present() && W() == old(W()).SetSda(slave, v)
    {
      sda := v;
      Watch();
    }

    /** Shows the present level to the decoders. */
    ghost method Watch()
      requires Followed() && (dec.prev.scl && scl ==> dec.prev.slave == Released(slave, pulse))
      modifies this`trace, this`dec, this`clear
      ensures Followed() && dec == Feed(old(dec), Present())
      ensures clear == (old(clear) && (Marks(old(dec.prev), Present()) ==> Released(slave, pulse)))
    {
      TellGrows(trace, Present());
      trace := trace + [Present()];
      clear := clear && (Marks(dec.prev, Present()) ==> Released(slave, pulse));
      dec := Feed(dec, Present());
    }

    method SetScl(v: bool)
      requires Followed() && dec.prev == Present()
      modifies this`scl, this`pulse, this`trace, this`dec, this`clear
      ensures Followed() && dec.prev == Present() && W() == old(W()).SetScl(slave, v)
    {
      if v && !scl {
        pulse := pulse + 1;
      }
      scl := v;
      Watch();
    }

    /** Reads the data line: low if the master or the slave pulls it. */
    method SdaIn() returns (v: bool)
      ensures v == (sda && Released(slave, pulse))
    {
      v := sda && Released(slave, pulse);
    }

    /** The bus shows the STOP if and only if the slave releases the line in that pulse. */
    method Stop1()
      requires Watched() && dec.bits == []
      requires scl ==> dec.marked || !sda
      modifies this`sda, this`scl, this`pulse, this`trace, this`dec, this`clear
      ensures Valid() && scl && dec.marked
      ensures pulse == if old(scl) then old(pulse) else old(pulse) + 1
      ensures dec.events == old(dec.events) + (if old(scl && sda) then [Start, Stop] else [Stop])
      ensures clear == (old(clear) && Released(slave, pulse))
    {
      SetSda(false);
      SetScl(true);
      SetSda(true);
    }

    /** The same for the START. */
    method Start1(lost: bool) returns (ok: bool)
      requires Valid()
      modifies this`sda, this`scl, this`pulse, this`trace, this`dec, this`clear, this`noAck, this`arbLost
      ensures Watched() && scl && !sda && dec.marked && dec.bits == []
      ensures pulse == if old(scl) then old(pulse) else old(pulse) + 1
      ensures dec.events == old(dec.events) + [Start]
      ensures clear == (old(clear) && Released(slave, pulse))
      ensures ok == !lost && !noAck && !arbLost
    {
      noAck, arbLost := false, false;
      SetSda(true);
      SetScl(true);
      SetSda(false);
      ok := !lost;
    }

    /** One round of the bit loops: the clock goes low, the data line settles, the clock rises. */
    method Clock(v: bool)
      requires Watched()
      modifies this`sda, this`scl, this`pulse, this`trace, this`dec, this`clear
      ensures Watched() && scl && sda == v && pulse == old(pulse) + 1
      ensures Low(W(), slave) == Push(Low(old(W()), slave), slave, v)
    {
      LowIsSeen(W(), slave);
      ClockIsPush(Low(W(), slave), slave, v);
      SetScl(false);
      SetSda(v);
      SetScl(true);
    }

    /** The bit loop of `i2c_bitbang_putcStop` over the bits its mask selects. */
    method PutBits(bits: seq<bool>)
      requires Watched() && bits != []
      modifies this`sda, this`scl, this`pulse, this`trace, this`dec, this`clear
      ensures Watched() && scl
      ensures Low(W(), slave) == PushAll(Low(old(W()), slave), slave, bits)
    {
      ghost var w := Low(W(), slave);
      for n := 0 to |bits|
        invariant Watched() && Low(W(), slave) == PushAll(w, slave, bits[..n])
        invariant n > 0 ==> scl
      {
        assert bits[..n + 1][..n] == bits[..n];
        Clock(bits[n]);
      }
      assert bits[..|bits|] == bits;
    }

    /** Eight data bits and a released acknowledge bit. */
    method PutByte(b: Octet)
      requires Watched() && dec.bits == [] && (scl ==> dec.marked)
      modifies this`sda, this`scl, this`pulse, this`trace, this`dec, this`clear
      ensures Watched() && scl && sda && pulse == old(pulse) + 9 && clear == old(clear)
      ensures Low(W(), slave).dec.bits == []
      ensures Low(W(), slave).dec.events == old(dec.events) + [Sent(slave, old(pulse), b)]
    {
      LowIsSeen(W(), slave);
      NineBitsAreAByte(Low(W(), slave), slave, b, true);
      PutBits(b + [true]);
    }

    /** `i2c_bitbang_putcStop`. */
    method PutcStop(b: Octet, stop: bool)
      requires Watched() && dec.bits == [] && (scl ==> dec.marked)
      modifies this`sda, this`scl, this`pulse, this`trace, this`dec, this`clear, this`noAck
      ensures Valid()
      ensures var e := Sent(slave, old(pulse), b);
              && noAck == (old(noAck) || !e.ack)
              && scl == (stop || HasErrors()) && (scl ==> dec.marked)
              && pulse == old(pulse) + (if scl then 10 else 9)
              && dec.events == old(dec.events) + [e] + (if scl then [Stop] else [])
      ensures clear == (old(clear) && (scl ==> Released(slave, pulse)))
    {
      PutByte(b);
      var level := SdaIn();
      LowIsSeen(W(), slave);
      SetScl(false);
      if level {
        noAck := true;
      }
      if stop || HasErrors() {
        Stop1();
      }
    }

    /** One round of the read loop: the clock goes low and high again, and the line is sampled. */
    method Sample() returns (bit: bool)
      requires Watched() && sda
      modifies this`scl, this`pulse, this`trace, this`dec, this`clear
      ensures Watched() && scl && pulse == old(pulse) + 1
      ensures Low(W(), slave) == Push(Low(old(W()), slave), slave, true)
      ensures bit == Released(slave, old(pulse) + 1)
    {
      LowIsSeen(W(), slave);
      ReleasedClockIsPush(Low(W(), slave), slave);
      SetScl(false);
      SetScl(true);
      bit := SdaIn();
    }

    /** The lines after `n` bits were read from `w` on. */
    ghost predicate Reading(w: Wire, p: nat, n: nat)
      reads this
    {
      Watched() && sda && pulse == p + n && (n > 0 ==> scl) && Low(W(), slave) == PushAll(w, slave, Ones(n))
    }

    method GetBit(ghost w: Wire, ghost p: nat, ghost n: nat) returns (bit: bool)
      requires Reading(w, p, n)
      modifies this`scl, this`pulse, this`trace, this`dec, this`clear
      ensures Reading(w, p, n + 1) && bit == Released(slave, p + n + 1)
    {
      OneMore(w, slave, n);
      bit := Sample();
    }

    /** The read loop of `i2c_bitbang_getc`. */
    method GetBits() returns (bits: seq<bool>)
      requires Watched() && sda
      modifies this`scl, this`pulse, this`trace, this`dec, this`clear
      ensures Reading(old(Low(W(), slave)), old(pulse), OCTET) && bits == ReadAt(slave, old(pulse))
    {
      ghost var (w, p) := (Low(W(), slave), pulse);
      bits := [];
      for n := 0 to OCTET
        invariant Reading(w, p, n) && bits == SlaveBits(slave, p, n)
      {
        var bit := GetBit(w, p, n);
        bits := bits + [bit];
      }
    }

    /** The acknowledge slot of `i2c_bitbang_getc`; the data line is released afterwards. */
    method AckSlot(v: bool)
      requires Watched()
      modifies this`sda, this`scl, this`pulse, this`trace, this`dec, this`clear
      ensures Watched() && !scl && sda
      ensures var w := Push(Low(old(W()), slave), slave, v);
              pulse == w.pulse && dec.bits == w.dec.bits && dec.events == w.dec.events && clear == w.clear
    {
      LowIsSeen(W(), slave);
      ClockIsPush(Low(W(), slave), slave, v);
      SetScl(false);
      SetSda(v);
      SetScl(true);
      SetScl(false);
      SetSda(true);
    }

    method GetByte(more: bool) returns (bits: seq<bool>)
      requires Valid() && (scl ==> dec.marked)
      modifies this`sda, this`scl, this`pulse, this`trace, this`dec, this`clear
      ensures Valid() && !scl && pulse == old(pulse) + 9 && clear == old(clear)
      ensures bits == ReadAt(slave, old(pulse))
      ensures dec.events == old(dec.events) + [Received(slave, old(pulse), more)]
    {
      LowIsSeen(W(), slave);
      NineBitsAreAByte(Low(W(), slave), slave, Ones(8), !more);
      assert (Ones(8) + [!more])[..8] == Ones(8);
      SlaveBitsAreOnLine(slave, pulse, OCTET);
      bits := GetBits();
      AckSlot(!more);
    }

    /** `i2c_bitbang_getc`. */
    method Getc() returns (data: Octet)
      requires Valid() && (scl ==> dec.marked)
      modifies this`sda, this`scl, this`pulse, this`trace, this`dec, this`clear
      ensures Valid()
      ensures data == ReadAt(slave, old(pulse))
      ensures scl == (xferSize == 1 && stopFlag) && (scl ==> dec.marked)
      ensures pulse == old(pulse) + (if scl then 10 else 9)
      ensures dec.events ==
              old(dec.events) + [Received(slave, old(pulse), xferSize > 1)] + (if scl then [Stop] else [])
      ensures clear == (old(clear) && (scl ==> Released(slave, pulse)))
    {
      var bits := GetByte(xferSize > 1);
      data := bits;
      if xferSize == 1 && stopFlag {
        Stop1();
      }
    }

    /** `i2c_bitbang_putc`. */
    method Putc(b: Octet)
      requires Valid() && (scl ==> dec.marked)
      modifies this`sda, this`scl, this`pulse, this`trace, this`dec, this`clear, this`noAck
      ensures Valid()
      ensures var e := Sent(slave, old(pulse), b);
              && noAck == (old(noAck) || !e.ack)
              && scl == ((xferSize == 1 && stopFlag) || HasErrors()) && (scl ==> dec.marked)
              && pulse == old(pulse) + (if scl then 10 else 9)
              && dec.events == old(dec.events) + [e] + (if scl then [Stop] else [])
      ensures clear == (old(clear) && (scl ==> Released(slave, pulse)))
    {
      PutcStop(b, xferSize == 1 && stopFlag);
    }

    /** The body of the loop of `i2c_bitbang_start_2`, up to its two returns. */
    method Attempt(b: Octet, expired: bool) returns (done: bool)
      requires Watched() && scl && dec.marked && dec.bits == []
      requires !HasErrors()
      modifies this`sda, this`scl, this`pulse, this`trace, this`dec, this`clear, this`noAck, this`startTimeout
      ensures Valid() && (scl ==> dec.marked)
      ensures done == (scl ==> expired)
      ensures dec.events == old(dec.events) + (if done then LastAttempt(Sent(slave, old(pulse), b))
                                               else [Sent(slave, old(pulse), b), Stop])
      ensures && scl == !Sent(slave, old(pulse), b).ack && pulse == old(pulse) + (if scl then 10 else 9)
              && noAck == scl && startTimeout == (scl && expired)
      ensures clear == (old(clear) && (scl ==> Released(slave, pulse)))
    {
      PutcStop(b, false);
      if !noAck {
        return true;
      } else if expired {
        startTimeout := true;
        Stop1();
        return true;
      }
      done := false;
    }

    /** Attempts 0 to `k - 1` were refused and the START of attempt `k` is out. */
    ghost predicate Trying(s: Line, b: Octet, k: nat)
      reads this
    {
      var q := First(s.pulse, s.idle);
      && Watched() && scl && !sda && dec.marked && dec.bits == [] && !HasErrors()
      && AllRefused(slave, q, b, k) && pulse == q + 10 * k
      && dec.events == s.events + Opened(slave, q, b, k) && clear == (s.clear && ClearTo(slave, q, k))
    }

    /** Attempt `k` was refused too, and its STOP is out. */
    ghost predicate Refused(s: Line, b: Octet, k: nat)
      reads this
    {
      var q := First(s.pulse, s.idle);
      && Valid() && scl && dec.marked && !startTimeout
      && AllRefused(slave, q, b, k + 1) && pulse == q + 10 * k + 10
      && dec.events == s.events + Opened(slave, q, b, k) + [Sent(slave, q + 10 * k, b), Stop]
      && clear == (s.clear && ClearTo(slave, q, k) && Released(slave, pulse))
    }

    /** The next START. */
    method Retry(lost: bool, ghost s: Line, ghost b: Octet, ghost k: nat) returns (ok: bool)
      requires Refused(s, b, k)
      modifies this`sda, this`scl, this`pulse, this`trace, this`dec, this`clear, this`noAck, this`arbLost
      ensures Trying(s, b, k + 1) && ok == !lost
    {
      RefusedOnce(s.events, slave, First(s.pulse, s.idle), b, k);
      ok := Start1(lost);
    }

    /** A whole round of the loop: after a refusal the next START is tried. */
    method Round(b: Octet, expired: bool, lost: bool, ghost s: Line, k: nat)
      returns (done: bool, ok: bool, next: nat)
      requires Trying(s, b, k)
      modifies this`sda, this`scl, this`pulse, this`trace, this`dec, this`clear, this`noAck, this`arbLost, this`startTimeout
      ensures done ==> Valid() && (scl ==> dec.marked) && Ended(s, b, k, false) && (noAck ==> expired)
      ensures next == k + 1 && (!done ==> Trying(s, b, next) && ok == !lost && !expired)
    {
      done := Attempt(b, expired);
      ok, next := false, k + 1;
      if !done {
        ok := Retry(lost, s, b, k);
      }
    }

    /** The branch behind the loop: the line could not be pulled low. */
    method Lose(ghost s: Line, ghost b: Octet, ghost k: nat)
      requires Trying(s, b, k)
      modifies this`sda, this`scl, this`pulse, this`trace, this`dec, this`clear, this`arbLost
      ensures Valid() && scl && dec.marked && Ended(s, b, k, true)
    {
      arbLost := true;
      Stop1();
    }

    /**
     The loop of `i2c_bitbang_start_2`. The timer has run out when attempt `deadline` is
     answered, and the line reads high after attempt `lostAt` pulled it low. The last attempt
     is attempt `n`.
     */
    method Attempts(b: Octet, deadline: nat, lostAt: nat) returns (ghost n: nat)
      requires Valid() && !HasErrors()
      modifies this`sda, this`scl, this`pulse, this`trace, this`dec, this`clear, this`noAck, this`arbLost, this`startTimeout
      ensures Valid() && (scl ==> dec.marked)
      ensures n <= deadline && n <= lostAt && Ended(old(Lines()), b, n, n == lostAt) && (noAck ==> n == deadline)
    {
      ghost var s := Lines();
      var k := 0;
      n := 0;
      var ok := Start1(lostAt == 0);
      while ok
        invariant Trying(s, b, k)
        invariant 0 <= k <= deadline && k <= lostAt && ok == (k != lostAt) && n == k
        decreases deadline - k, ok
      {
        var done;
        done, ok, k := Round(b, k == deadline, lostAt == k + 1, s, k);
        if done {
          return;
        }
        n := k;
      }
      Lose(s, b, k);
    }

    /**
     `i2c_bitbang_start_2`: the address is refused in all attempts before the last, each closed by
     a STOP, and what the last one comes to is in the session and in the errors.
     */
    method Start2(slaveAddr: seq<bool>, deadline: nat, lostAt: nat)
      requires Valid() && !HasErrors() && |slaveAddr| == 16
      modifies this`sda, this`scl, this`pulse, this`trace, this`dec, this`clear, this`noAck, this`arbLost, this`startTimeout
      ensures Valid() && (scl ==> dec.marked)
      ensures Now() == Opening(slave, old(Lines()), Address(slaveAddr, readFlag), xferSize, deadline, lostAt)
      ensures ErrorsNow() == OpeningErrors(slave, old(Lines()), Address(slaveAddr, readFlag), deadline, lostAt)
    {
      ghost var (s, b) := (Lines(), Address(slaveAddr, readFlag));
      ghost var n := Attempts(Address(slaveAddr, readFlag), deadline, lostAt);
      TriesIs(slave, First(s.pulse, s.idle), b, 0, n, deadline, lostAt);
    }

    /** Attempt `n` ended the start: by an answer, by the timer, or by a line that could not be pulled low. */
    ghost predicate Ended(s: Line, b: Octet, n: nat, lost: bool)
      reads this
    {
      && AllRefused(slave, First(s.pulse, s.idle), b, n)
      && Now() == OpeningAt(slave, s, b, xferSize, n, lost) && ErrorsNow() == OpeningErrorsAt(slave, s, b, n, lost)
    }

    // ----- Sessions: i2c.h and i2c.c -----

    /** Between requests; after a STOP the clock is high and the pulse is marked. */
    ghost predicate Ready()
      reads this
    {
      Valid() && (scl && xferSize > 0 ==> dec.marked)
    }

    ghost function Full(): State
      reads this
    {
      State(Now(), readFlag, stopFlag, ErrorsNow())
    }

    /** The fields a start sets before it touches the lines. */
    method Configure(size: nat, read: bool, stop: bool)
      requires Valid()
      modifies this`readFlag, this`stopFlag, this`noAck, this`arbLost, this`startTimeout, this`xferSize
      ensures Valid() && !HasErrors() && xferSize == size && readFlag == read && stopFlag == stop
    {
      readFlag, stopFlag, xferSize := read, stop, size;
      noAck, arbLost, startTimeout := false, false, false;
    }

    /** `i2c_start`, and `i2c_start_r_4` and `i2c_start_w_4` which only set the flags before it. */
    method Begin(slaveAddr: seq<bool>, size: nat, read: bool, stop: bool, deadline: nat, lostAt: nat)
      requires Ready() && (HasErrors() || xferSize == 0) && |slaveAddr| == 16
      modifies this
      ensures Ready() && readFlag == read && stopFlag == stop
      ensures Now() == Opening(slave, old(Lines()), Address(slaveAddr, read), size, deadline, lostAt)
      ensures ErrorsNow() == OpeningErrors(slave, old(Lines()), Address(slaveAddr, read), deadline, lostAt)
    {
      Configure(size, read, stop);
      Start2(slaveAddr, deadline, lostAt);
    }

    ghost function Lines(): Line
      reads this
    {
      Line(scl, pulse, dec.events, clear)
    }

    function ErrorsNow(): Errors
      reads this
    {
      Errors(noAck, arbLost, startTimeout)
    }

    /** The session as far as it shows on the lines and in the transfer size. */
    ghost function Now(): Session
      reads this
    {
      Session(scl, pulse, dec.events, xferSize, HasErrors(), clear)
    }

    /** `i2c_putc`. */
    method SessionPutc(b: Octet)
      requires Ready() && xferSize > 0 && !readFlag
      modifies this`sda, this`scl, this`pulse, this`trace, this`dec, this`clear, this`noAck, this`xferSize
      ensures Ready() && Now() == Put(slave, stopFlag, old(Now()), b)
      ensures ErrorsNow() == Refusing(old(ErrorsNow()), Now())
    {
      if !HasErrors() {
        Putc(b);
        xferSize := xferSize - 1;
      }
    }

    /** `i2c_getc`. */
    method SessionGetc() returns (data: Octet)
      requires Ready() && xferSize > 0 && readFlag
      modifies this`sda, this`scl, this`pulse, this`trace, this`dec, this`clear, this`xferSize
      ensures Ready() && Now() == Get(slave, stopFlag, old(Now()))
      ensures data == if HasErrors() then Ones(8) else ReadAt(slave, old(pulse))
    {
      if !HasErrors() {
        data := Getc();
        xferSize := xferSize - 1;
      } else {
        data := Ones(8);
      }
    }

    /** `i2c_error`: reports the errors and clears them; the lines and the transfer size stay. */
    method Error() returns (err: Errors)
      requires Ready()
      modifies this`noAck, this`arbLost, this`startTimeout
      ensures err == old(ErrorsNow())
      ensures Ready() && Now() == old(Now()).(failed := false)
    {
      err := ErrorsNow();
      noAck, arbLost, startTimeout := false, false, false;
    }

    /** `i2c_write` through `i2c_genericWrite`. */
    method Write(buf: array<Octet>, count: nat)
      requires Ready() && !readFlag
      requires 0 < count <= xferSize && count <= buf.Length
      modifies this`sda, this`scl, this`pulse, this`trace, this`dec, this`clear, this`noAck, this`xferSize
      ensures Ready() && Now() == PutAll(slave, stopFlag, old(Now()), buf[..count])
      ensures ErrorsNow() == Refusing(old(ErrorsNow()), Now())
    {
      ghost var s := Now();
      PutAllFailed(slave, stopFlag, s, buf[..count]);
      if HasErrors() {
        return;
      }
      for i := 0 to count
        invariant Ready() && Now() == PutAll(slave, stopFlag, s, buf[..i]) && xferSize >= count - i
      {
        assert buf[..i + 1][..i] == buf[..i];
        PutAllLeft(slave, stopFlag, s, buf[..i + 1]);
        SessionPutc(buf[i]);
      }
    }

    /** `i2c_read` through `i2c_genericRead`: the bytes stored in the buffer, none after an error. */
    method Read(count: nat) returns (data: seq<Octet>)
      requires Ready() && readFlag
      requires 0 < count <= xferSize
      modifies this`sda, this`scl, this`pulse, this`trace, this`dec, this`clear, this`xferSize
      ensures Ready() && Now() == GetAll(slave, stopFlag, old(Now()), count)
      ensures data == if old(HasErrors()) then [] else ReadAll(slave, old(pulse), count)
    {
      GetAllFailed(slave, stopFlag, Now(), count);
      data := [];
      if !HasErrors() {
        data := ReadLoop(count);
      }
    }

    method GetNext(ghost s: Session, i: nat, before: seq<Octet>) returns (next: nat, data: seq<Octet>)
      requires Ready() && Now() == GetAll(slave, stopFlag, s, i) && readFlag && !s.failed && i < s.left
      requires before == ReadAll(slave, s.pulse, i)
      modifies this`sda, this`scl, this`pulse, this`trace, this`dec, this`clear, this`xferSize
      ensures next == i + 1 && Ready() && Now() == GetAll(slave, stopFlag, s, next)
      ensures data == ReadAll(slave, s.pulse, next)
    {
      GetAllState(slave, stopFlag, s, i);
      ReadAllGrows(slave, s.pulse, i);
      GetAllGrows(slave, stopFlag, s, i);
      assert !HasErrors() && pulse == s.pulse + 9 * i;
      var b := SessionGetc();
      next, data := i + 1, before + [b];
    }

    method ReadLoop(count: nat) returns (data: seq<Octet>)
      requires Ready() && readFlag && !HasErrors() && count <= xferSize
      modifies this`sda, this`scl, this`pulse, this`trace, this`dec, this`clear, this`xferSize
      ensures Ready() && Now() == GetAll(slave, stopFlag, old(Now()), count)
      ensures data == ReadAll(slave, old(pulse), count)
    {
      ghost var s := Now();
      data := [];
      var i := 0;
      while i < count
        invariant 0 <= i <= count && Ready() && Now() == GetAll(slave, stopFlag, s, i)
        invariant data == ReadAll(slave, s.pulse, i)
      {
        i, data := GetNext(s, i, data);
      }
    }

    /** A start whose address the slave accepts. */
    method Call(slaveAddr: seq<bool>, size: nat, read: bool, stop: bool, deadline: nat, lostAt: nat)
      requires Ready() && (HasErrors() || xferSize == 0) && |slaveAddr| == 16
      requires lostAt > 0 && Accepts(slave, First(pulse, scl))
      modifies this
      ensures Ready() && readFlag == read && stopFlag == stop
      ensures Now() == Accepted(slave, old(Lines()), Address(slaveAddr, read), size)
    {
      ghost var (q, b) := (First(pulse, scl), Address(slaveAddr, read));
      AcceptedOpening(slave, Lines(), b, size, deadline, lostAt);
      Begin(slaveAddr, size, read, stop, deadline, lostAt);
    }

    /**
     A whole write session with a slave that accepts its address and every byte: the bus shows
     START, the address with a write bit, exactly the bytes, and a STOP if asked for, if and only
     if the slave also leaves the line alone in the pulses of that START and STOP.
     */
    method Send(slaveAddr: seq<bool>, buf: array<Octet>, count: nat, stop: bool, deadline: nat, lostAt: nat)
      requires Ready() && (HasErrors() || xferSize == 0) && |slaveAddr| == 16
      requires 0 < count <= buf.Length && lostAt > 0
      requires AcceptsAll(slave, First(pulse, scl), count + 1)
      modifies this
      ensures Ready() && !HasErrors() && xferSize == 0 && scl == stop
      ensures old(clear) ==>
              (Bus() == old(Bus()) + WriteFrame(Address(slaveAddr, false), buf[..count], stop) <==>
               Unheld(slave, First(old(pulse), old(scl)), count + 1, stop))
      ensures ShowsWrite(WriteFrame(Address(slaveAddr, false), buf[..count], stop), Number(slaveAddr) % 256 / 2 * 2,
                         buf[..count], stop)
    {
      WriteFrameShows(Address(slaveAddr, false), buf[..count], stop);
      AddressNumber(slaveAddr, false);
      ghost var frame := WriteFrame(Address(slaveAddr, false), buf[..count], stop);
      ghost var unheld := Unheld(slave, First(pulse, scl), count + 1, stop);
      SendAll(slaveAddr, buf, count, stop, deadline, lostAt);
      BusShows(old(trace), old(Story(dec, clear, true)), trace, Story(dec, clear, true), frame, unheld);
    }

    method SendAll(slaveAddr: seq<bool>, buf: array<Octet>, count: nat, stop: bool, deadline: nat, lostAt: nat)
      requires Ready() && (HasErrors() || xferSize == 0) && |slaveAddr| == 16
      requires 0 < count <= buf.Length && lostAt > 0
      requires AcceptsAll(slave, First(pulse, scl), count + 1)
      modifies this
      ensures Ready() && !HasErrors() && xferSize == 0 && scl == stop
      ensures dec.events == old(dec.events) + WriteFrame(Address(slaveAddr, false), buf[..count], stop)
      ensures clear == (old(clear) && Unheld(slave, First(old(pulse), old(scl)), count + 1, stop))
    {
      SendSession(slave, Lines(), Address(slaveAddr, false), buf[..count], stop);
      AcceptsNext(slave, First(pulse, scl), count);
      Call(slaveAddr, count, false, stop, deadline, lostAt);
      Write(buf, count);
    }

    /**
     A whole read session: START, the address with a read bit, and the slave's own bytes, all
     but the last acknowledged by the master, under the same condition.
     */
    method Fetch(slaveAddr: seq<bool>, count: nat, stop: bool, deadline: nat, lostAt: nat) returns (data: seq<Octet>)
      requires Ready() && (HasErrors() || xferSize == 0) && |slaveAddr| == 16
      requires 0 < count && lostAt > 0 && Accepts(slave, First(pulse, scl))
      modifies this
      ensures Ready() && !HasErrors() && xferSize == 0 && scl == stop
      ensures data == ReadAll(slave, First(old(pulse), old(scl)) + 9, count)
      ensures old(clear) ==>
              (Bus() == old(Bus()) + ReadFrame(slave, First(old(pulse), old(scl)), Address(slaveAddr, true), count, stop) <==>
               Unheld(slave, First(old(pulse), old(scl)), count + 1, stop))
      ensures ShowsRead(ReadFrame(slave, First(old(pulse), old(scl)), Address(slaveAddr, true), count, stop),
                        Number(slaveAddr) % 256 / 2 * 2 + 1, data, stop)
    {
      ReadFrameShows(slave, First(pulse, scl), Address(slaveAddr, true), count, stop);
      AddressNumber(slaveAddr, true);
      ghost var frame := ReadFrame(slave, First(pulse, scl), Address(slaveAddr, true), count, stop);
      ghost var unheld := Unheld(slave, First(pulse, scl), count + 1, stop);
      data := FetchAll(slaveAddr, count, stop, deadline, lostAt);
      BusShows(old(trace), old(Story(dec, clear, true)), trace, Story(dec, clear, true), frame, unheld);
    }

    method FetchAll(slaveAddr: seq<bool>, count: nat, stop: bool, deadline: nat, lostAt: nat)
      returns (data: seq<Octet>)
      requires Ready() && (HasErrors() || xferSize == 0) && |slaveAddr| == 16
      requires 0 < count && lostAt > 0 && Accepts(slave, First(pulse, scl))
      modifies this
      ensures Ready() && !HasErrors() && xferSize == 0 && scl == stop
      ensures data == ReadAll(slave, First(old(pulse), old(scl)) + 9, count)
      ensures dec.events ==
              old(dec.events) + ReadFrame(slave, First(old(pulse), old(scl)), Address(slaveAddr, true), count, stop)
      ensures clear == (old(clear) && Unheld(slave, First(old(pulse), old(scl)), count + 1, stop))
    {
      FetchSession(slave, Lines(), Address(slaveAddr, true), count, stop);
      Call(slaveAddr, count, true, stop, deadline, lostAt);
      data := Read(count);
    }
  }

  /** An accepted address is accepted at the first attempt. */
  lemma AcceptedOpening(slave: Slave, s: Line, b: Octet, size: nat, deadline: nat, lostAt: nat)
    requires Accepts(slave, First(s.pulse, s.idle)) && lostAt > 0
    ensures Opening(slave, s, b, size, deadline, lostAt) == Accepted(slave, s, b, size)
  {
    AcceptedByte(slave, First(s.pulse, s.idle), b);
    assert s.events + [Start] + [Byte(b, true)] == s.events + [Start, Byte(b, true)];
  }

  lemma {:induction false} AcceptsNext(slave: Slave, q: nat, count: nat)
    requires AcceptsAll(slave, q, count + 1)
    ensures Accepts(slave, q) && AcceptsAll(slave, q + 9, count)
  {
    if count > 0 {
      AcceptsNext(slave, q, count - 1);
    }
  }

  /** The frame of a session: START, the address, the bytes, and a STOP if asked for. */
  function FrameAround(b: Octet, bytes: seq<Event>, stop: bool): seq<Event> {
    [Start, Byte(b, true)] + bytes + (if stop then [Stop] else [])
  }

  function WriteFrame(b: Octet, data: seq<Octet>, stop: bool): seq<Event> {
    FrameAround(b, AcceptedBytes(data), stop)
  }

  function ReadFrame(slave: Slave, q: nat, b: Octet, count: nat, stop: bool): seq<Event> {
    FrameAround(b, ReceivedAll(slave, q + 9, count, count), stop)
  }

  /** START, a byte of number `first`, the bytes of `data`, all acknowledged, and a STOP if asked for. */
  ghost predicate ShowsWrite(f: seq<Event>, first: nat, data: seq<Octet>, stop: bool) {
    && |f| == 2 + |data| + (if stop then 1 else 0) && f[0] == Start
    && f[1].Byte? && |f[1].bits| == 8 && Number(f[1].bits) == first && f[1].ack
    && (forall i :: 0 <= i < |data| ==> f[2 + i] == Byte(data[i], true))
    && (stop ==> f[2 + |data|] == Stop)
  }

  predicate ShowsByte(e: Event, b: Octet, acknowledged: bool) {
    e.Byte? && e.bits == b && (acknowledged ==> e.ack)
  }

  /** START, an acknowledged byte of number `first`, the bytes of `data`, acknowledged but for the last, and a STOP if asked for. */
  ghost predicate ShowsRead(f: seq<Event>, first: nat, data: seq<Octet>, stop: bool) {
    && |f| == 2 + |data| + (if stop then 1 else 0) && f[0] == Start
    && f[1].Byte? && |f[1].bits| == 8 && Number(f[1].bits) == first && f[1].ack
    && (forall i :: 0 <= i < |data| ==> ShowsByte(f[2 + i], data[i], i < |data| - 1))
    && (stop ==> f[2 + |data|] == Stop)
  }

  lemma {:induction false} AcceptedBytesAt(data: seq<Octet>, i: nat)
    requires i < |data|
    ensures |AcceptedBytes(data)| == |data| && AcceptedBytes(data)[i] == Byte(data[i], true)
    decreases |data|
  {
    var n := |data| - 1;
    if n > 0 {
      AcceptedBytesAt(data[..n], if i < n then i else 0);
    }
  }

  lemma WriteFrameShows(b: Octet, data: seq<Octet>, stop: bool)
    requires data != []
    ensures ShowsWrite(WriteFrame(b, data, stop), Number(b), data, stop)
  {
    AcceptedBytesAt(data, 0);
    var f := WriteFrame(b, data, stop);
    forall i | 0 <= i < |data| ensures f[2 + i] == Byte(data[i], true) {
      AcceptedBytesAt(data, i);
    }
  }

  lemma ReadFrameShows(slave: Slave, q: nat, b: Octet, count: nat, stop: bool)
    ensures ShowsRead(ReadFrame(slave, q, b, count, stop), Number(b), ReadAll(slave, q + 9, count), stop)
  {
    var (f, data) := (ReadFrame(slave, q, b, count, stop), ReadAll(slave, q + 9, count));
    forall i | 0 <= i < count ensures ShowsByte(f[2 + i], data[i], i < count - 1) {
      ReadAcknowledges(slave, q + 9, count, count, i);
      assert f[2 + i] == ReceivedAll(slave, q + 9, count, count)[i];
    }
  }

  lemma Framing(events: seq<Event>, begun: seq<Event>, b: Octet, bytes: seq<Event>, stop: bool)
    requires begun == events + [Start, Byte(b, true)]
    ensures begun + bytes + (if stop then [Stop] else []) == events + FrameAround(b, bytes, stop)
  {
  }

  /** The slave does not hold the line in the pulse of the START, nor in that of the STOP behind `n` bytes. */
  predicate Unheld(slave: Slave, q: nat, n: nat, stop: bool) {
    Released(slave, q) && (stop ==> Released(slave, q + 9 * n + 1))
  }

  datatype Errors = Errors(noAck: bool, arbLost: bool, startTimeout: bool) {

    predicate Any() {
      noAck || arbLost || startTimeout
    }
  }

  const NO_ERRORS := Errors(false, false, false)

  /** The error bits after bytes went out, if `s` is the session then: a refusal is the only new one. */
  function Refusing(before: Errors, s: Session): Errors {
    if before.Any() then before else before.(noAck := s.failed)
  }

  /**
   A session as far as it shows on the lines and in the transfer size; `clear` is whether the bus
   has shown exactly `events`.
   */
  datatype Session = Session(idle: bool, pulse: nat, events: seq<Event>, left: nat, failed: bool, clear: bool)

  /** The lines alone. */
  datatype Line = Line(idle: bool, pulse: nat, events: seq<Event>, clear: bool)

  function LineOf(s: Session): Line {
    Line(s.idle, s.pulse, s.events, s.clear)
  }

  /** One more byte out: a STOP follows a refusal, and the last byte if asked for. */
  function Put(slave: Slave, stop: bool, s: Session, b: Octet): Session {
    if s.failed then s
    else
      var e := Sent(slave, s.pulse, b);
      var close := !e.ack || (s.left == 1 && stop);
      var p := s.pulse + (if close then 10 else 9);
      Session(close, p, s.events + [e] + (if close then [Stop] else []),
              if s.left == 0 then 0 else s.left - 1, !e.ack, s.clear && (close ==> Released(slave, p)))
  }

  function PutAll(slave: Slave, stop: bool, s: Session, data: seq<Octet>): Session
    decreases |data|
  {
    if data == [] then s else Put(slave, stop, PutAll(slave, stop, s, data[..|data| - 1]), data[|data| - 1])
  }

  lemma {:induction false} PutAllFailed(slave: Slave, stop: bool, s: Session, data: seq<Octet>)
    ensures s.failed ==> PutAll(slave, stop, s, data) == s
    decreases |data|
  {
    if data != [] {
      PutAllFailed(slave, stop, s, data[..|data| - 1]);
    }
  }

  /** The byte the slave sends in the eight pulses behind `p`. */
  function ReadAt(slave: Slave, p: nat): Octet {
    SlaveBits(slave, p, OCTET)
  }

  const OCTET: nat := 8

  function SlaveBits(slave: Slave, p: nat, n: nat): (bits: seq<bool>)
    ensures |bits| == n
  {
    if n == 0 then [] else SlaveBits(slave, p, n - 1) + [Released(slave, p + n)]
  }

  lemma {:induction false} SlaveBitsAreOnLine(slave: Slave, p: nat, n: nat)
    ensures OnLine(slave, p, Ones(n)) == SlaveBits(slave, p, n)
  {
    if n > 0 {
      assert Ones(n)[..n - 1] == Ones(n - 1);
      SlaveBitsAreOnLine(slave, p, n - 1);
    }
  }

  function ReadAll(slave: Slave, p: nat, n: nat): (r: seq<Octet>)
    ensures |r| == n
  {
    if n == 0 then [] else ReadAll(slave, p, n - 1) + [ReadAt(slave, p + 9 * (n - 1))]
  }

  lemma ReadAllGrows(slave: Slave, p: nat, n: nat)
    ensures ReadAll(slave, p, n + 1) == ReadAll(slave, p, n) + [ReadAt(slave, p + 9 * n)]
  {
  }

  /** One more byte in: acknowledged if more are wanted, and followed by a STOP if it is the last and one is asked for. */
  function Get(slave: Slave, stop: bool, s: Session): Session {
    if s.failed then s
    else
      var close := s.left == 1 && stop;
      var p := s.pulse + (if close then 10 else 9);
      Session(close, p, s.events + [Received(slave, s.pulse, s.left > 1)] + (if close then [Stop] else []),
              if s.left == 0 then 0 else s.left - 1, false, s.clear && (close ==> Released(slave, p)))
  }

  function GetAll(slave: Slave, stop: bool, s: Session, n: nat): Session {
    if n == 0 then s else Get(slave, stop, GetAll(slave, stop, s, n - 1))
  }

  lemma GetAllGrows(slave: Slave, stop: bool, s: Session, n: nat)
    ensures GetAll(slave, stop, s, n + 1) == Get(slave, stop, GetAll(slave, stop, s, n))
  {
  }

  /** How far a read of `n` bytes has come. */
  lemma {:induction false} GetAllState(slave: Slave, stop: bool, s: Session, n: nat)
    requires !s.failed && n <= s.left
    ensures var r := GetAll(slave, stop, s, n);
            !r.failed && r.left == s.left - n && (n < s.left ==> r.pulse == s.pulse + 9 * n)
  {
    if n > 0 {
      GetAllState(slave, stop, s, n - 1);
    }
  }

  lemma {:induction false} GetAllFailed(slave: Slave, stop: bool, s: Session, n: nat)
    ensures s.failed ==> GetAll(slave, stop, s, n) == s
  {
    if n > 0 {
      GetAllFailed(slave, stop, s, n - 1);
    }
  }

  /** The pulse before the address: a START with the clock held low takes one pulse itself. */
  function First(p: nat, scl: bool): nat {
    if scl then p else p + 1
  }

  ghost predicate AllRefused(slave: Slave, q: nat, b: Octet, n: nat) {
    n > 0 ==> AllRefused(slave, q, b, n - 1) && !Sent(slave, q + 10 * (n - 1), b).ack
  }

  /** The slave releases the line in the pulses of the STARTs of attempts 0 to `n`, and so of the STOPs between them. */
  predicate ClearTo(slave: Slave, q: nat, n: nat) {
    Released(slave, q + 10 * n) && (n > 0 ==> ClearTo(slave, q, n - 1))
  }

  /** The STARTs of attempts 0 to `n`, with the refusals in between. */
  function Opened(slave: Slave, q: nat, b: Octet, n: nat): seq<Event> {
    if n == 0 then [Start] else Opened(slave, q, b, n - 1) + [Sent(slave, q + 10 * (n - 1), b), Stop, Start]
  }

  lemma RefusedOnce(events: seq<Event>, slave: Slave, q: nat, b: Octet, k: nat)
    ensures events + Opened(slave, q, b, k) + [Sent(slave, q + 10 * k, b), Stop] + [Start] ==
            events + Opened(slave, q, b, k + 1)
  {
  }

  /** One more released bit. */
  lemma OneMore(w: Wire, slave: Slave, n: nat)
    ensures PushAll(w, slave, Ones(n + 1)) == Push(PushAll(w, slave, Ones(n)), slave, true)
  {
    assert Ones(n + 1)[..n] == Ones(n);
  }

  function Ones(n: nat): seq<bool> {
    seq(n, _ => true)
  }

  /** The number that bits stand for, the most significant one first. */
  function Number(bits: seq<bool>): nat
    decreases |bits|
  {
    if bits == [] then 0 else 2 * Number(bits[..|bits| - 1]) + if bits[|bits| - 1] then 1 else 0
  }

  /** The low byte of a 16-bit address with the direction in bit 0. */
  function Address(slaveAddr: seq<bool>, read: bool): Octet
    requires |slaveAddr| == 16
  {
    slaveAddr[8..15] + [read]
  }

  lemma NumberGrows(bits: seq<bool>, b: bool)
    ensures Number(bits + [b]) == 2 * Number(bits) + if b then 1 else 0
  {
    assert (bits + [b])[..|bits|] == bits;
  }

  /** Eight more bits make room for a byte. */
  lemma NumberOfByte(high: seq<bool>, low: seq<bool>)
    requires |low| == 8
    ensures Number(high + low) == 256 * Number(high) + Number(low) && Number(low) < 256
  {
    NumberOfBits(high, low, 256);
  }

  lemma {:induction false} NumberOfBits(high: seq<bool>, low: seq<bool>, scale: nat)
    requires scale == Scale(|low|)
    ensures Number(high + low) == scale * Number(high) + Number(low) && Number(low) < scale
    decreases |low|
  {
    if low == [] {
      assert high + low == high;
    } else {
      var n := |low| - 1;
      NumberOfBits(high, low[..n], Scale(n));
      assert high + low == high + low[..n] + [low[n]];
      assert low == low[..n] + [low[n]];
      NumberGrows(high + low[..n], low[n]);
      NumberGrows(low[..n], low[n]);
      Doubles(scale, Scale(n), Number(high));
    }
  }

  lemma Doubles(a: nat, b: nat, h: nat)
    requires a == 2 * b
    ensures a * h == 2 * (b * h)
  {
  }

  function Scale(n: nat): nat {
    if n == 0 then 1 else 2 * Scale(n - 1)
  }

  lemma EvenPart(h: nat, s: nat, l: nat)
    requires l <= 1 && 2 * s + l < 256
    ensures (256 * h + (2 * s + l)) % 256 / 2 * 2 == 2 * s
  {
    assert (256 * h + (2 * s + l)) % 256 == 2 * s + l;
  }

  /** The byte behind a START is the even part of the low byte of the address, and one more for a read. */
  lemma AddressNumber(slaveAddr: seq<bool>, read: bool)
    requires |slaveAddr| == 16
    ensures Number(Address(slaveAddr, read)) == Number(slaveAddr) % 256 / 2 * 2 + if read then 1 else 0
  {
    var (high, seven, l) := (slaveAddr[..8], slaveAddr[8..15], slaveAddr[15]);
    assert slaveAddr == high + (seven + [l]);
    NumberOfByte(high, seven + [l]);
    NumberGrows(seven, l);
    NumberGrows(seven, read);
    EvenPart(Number(high), Number(seven), if l then 1 else 0);
  }

  /** The byte a decoder sees when the master reads; it acknowledges when it wants more. */
  function Received(slave: Slave, p: nat, more: bool): Event {
    Byte(ReadAt(slave, p), more || !Released(slave, p + 9))
  }

  /** The events of the last attempt behind its START: answered, or refused and out of time. */
  function LastAttempt(e: Event): seq<Event>
    requires e.Byte?
  {
    if e.ack then [e] else [e, Stop, Start, Stop]
  }

  /** The byte a decoder sees when the master sends `b` with the next pulse being `p + 1`. */
  function Sent(slave: Slave, p: nat, b: Octet): Event {
    Byte(OnLine(slave, p, b), !Released(slave, p + 9))
  }

  lemma LowIsSeen(w: Wire, slave: Slave)
    requires w.Seen(slave) && |w.dec.bits| <= 8
    ensures Low(w, slave).Seen(slave) && !Low(w, slave).scl && Low(w, slave).pulse == w.pulse
    ensures w.dec.bits == [] && (w.scl ==> w.dec.marked) ==>
            Low(w, slave).dec.bits == [] && Low(w, slave).dec.events == w.dec.events
    ensures Low(w, slave).clear == w.clear
    ensures !w.scl ==> Low(w, slave) == w
  {
  }

  // ----- What the sessions mean on the bus -----

  /** The slave leaves the line alone for eight bits and acknowledges in the ninth. */
  ghost predicate Accepts(slave: Slave, p: nat) {
    (forall i :: p < i <= p + 8 ==> Released(slave, i)) && !Released(slave, p + 9)
  }

  /** The slave does so for `n` bytes in a row. */
  ghost predicate AcceptsAll(slave: Slave, p: nat, n: nat) {
    n > 0 ==> AcceptsAll(slave, p, n - 1) && Accepts(slave, p + 9 * (n - 1))
  }

  lemma {:induction false} ReleasedBits(slave: Slave, p: nat, vs: seq<bool>)
    requires forall i :: p < i <= p + |vs| ==> Released(slave, i)
    ensures OnLine(slave, p, vs) == vs
    decreases |vs|
  {
    if vs != [] {
      ReleasedBits(slave, p, vs[..|vs| - 1]);
    }
  }

  /** A decoder recovers exactly the byte sent to a slave that accepts it. */
  lemma AcceptedByte(slave: Slave, p: nat, b: Octet)
    requires Accepts(slave, p)
    ensures Sent(slave, p, b) == Byte(b, true)
  {
    ReleasedBits(slave, p, b);
  }

  function AcceptedBytes(data: seq<Octet>): seq<Event>
    decreases |data|
  {
    if data == [] then [] else AcceptedBytes(data[..|data| - 1]) + [Byte(data[|data| - 1], true)]
  }

  /** The bytes a decoder sees when all of `data` goes out from pulse `p` on. */
  function SentAll(slave: Slave, p: nat, data: seq<Octet>): seq<Event>
    decreases |data|
  {
    if data == [] then []
    else SentAll(slave, p, data[..|data| - 1]) + [Sent(slave, p + 9 * (|data| - 1), data[|data| - 1])]
  }

  lemma {:induction false} AnsweredBytes(slave: Slave, stop: bool, s: Session, data: seq<Octet>)
    requires !s.failed && !s.idle && |data| < s.left
    requires forall j :: 0 <= j < |data| ==> Sent(slave, s.pulse + 9 * j, data[j]).ack
    ensures PutAll(slave, stop, s, data) ==
            Session(false, s.pulse + 9 * |data|, s.events + SentAll(slave, s.pulse, data), s.left - |data|, false, s.clear)
    decreases |data|
  {
    if data != [] {
      AnsweredBytes(slave, stop, s, data[..|data| - 1]);
    }
  }

  lemma {:induction false} AcceptsAt(slave: Slave, p: nat, n: nat, j: nat)
    requires j < n && AcceptsAll(slave, p, n)
    ensures Accepts(slave, p + 9 * j)
    decreases n
  {
    if j < n - 1 {
      AcceptsAt(slave, p, n - 1, j);
    }
  }

  lemma {:induction false} AcceptedEvents(slave: Slave, p: nat, data: seq<Octet>)
    requires AcceptsAll(slave, p, |data|)
    ensures SentAll(slave, p, data) == AcceptedBytes(data)
    decreases |data|
  {
    if data != [] {
      var n := |data| - 1;
      AcceptedEvents(slave, p, data[..n]);
      AcceptedByte(slave, p + 9 * n, data[n]);
    }
  }

  lemma AcceptedAll(slave: Slave, p: nat, data: seq<Octet>)
    requires AcceptsAll(slave, p, |data|)
    ensures SentAll(slave, p, data) == AcceptedBytes(data)
    ensures forall j :: 0 <= j < |data| ==> Sent(slave, p + 9 * j, data[j]).ack
  {
    AcceptedEvents(slave, p, data);
    forall j | 0 <= j < |data| ensures Sent(slave, p + 9 * j, data[j]).ack {
      AcceptsAt(slave, p, |data|, j);
      AcceptedByte(slave, p + 9 * j, data[j]);
    }
  }

  /**
   A write that the slave accepts means exactly its bytes, and a STOP exactly when one is asked
   for and the transfer is complete; the bus shows that STOP exactly if the slave lets it.
   */
  lemma AcceptedWrite(slave: Slave, stop: bool, s: Session, data: seq<Octet>)
    requires !s.failed && !s.idle && 0 < |data| <= s.left && AcceptsAll(slave, s.pulse, |data|)
    ensures var close := stop && |data| == s.left;
            PutAll(slave, stop, s, data) ==
            Session(close, s.pulse + 9 * |data| + (if close then 1 else 0),
                    s.events + AcceptedBytes(data) + (if close then [Stop] else []), s.left - |data|, false,
                    s.clear && (close ==> Released(slave, s.pulse + 9 * |data| + 1)))
  {
    var n := |data| - 1;
    AcceptedAll(slave, s.pulse, data[..n]);
    AnsweredBytes(slave, stop, s, data[..n]);
    AcceptedByte(slave, s.pulse + 9 * n, data[n]);
    assert s.events + AcceptedBytes(data[..n]) + [Byte(data[n], true)] == s.events + AcceptedBytes(data);
  }

  /** The session that a slave accepts at once. */
  function Accepted(slave: Slave, s: Line, b: Octet, size: nat): Session {
    var q := First(s.pulse, s.idle);
    Session(false, q + 9, s.events + [Start, Byte(b, true)], size, false, s.clear && Released(slave, q))
  }

  lemma SendSession(slave: Slave, s: Line, b: Octet, data: seq<Octet>, stop: bool)
    requires data != [] && AcceptsAll(slave, First(s.pulse, s.idle), |data| + 1)
    ensures var q := First(s.pulse, s.idle);
            var r := PutAll(slave, stop, Accepted(slave, s, b, |data|), data);
            && r.idle == stop && r.left == 0 && !r.failed && r.events == s.events + WriteFrame(b, data, stop)
            && r.clear == (s.clear && Unheld(slave, q, |data| + 1, stop))
  {
    AcceptsNext(slave, First(s.pulse, s.idle), |data|);
    var a := Accepted(slave, s, b, |data|);
    Framing(s.events, a.events, b, AcceptedBytes(data), stop);
    AcceptedWrite(slave, stop, a, data);
  }

  lemma FetchSession(slave: Slave, s: Line, b: Octet, count: nat, stop: bool)
    requires count > 0
    ensures var q := First(s.pulse, s.idle);
            var r := GetAll(slave, stop, Accepted(slave, s, b, count), count);
            && r.idle == stop && r.left == 0 && !r.failed && r.events == s.events + ReadFrame(slave, q, b, count, stop)
            && r.clear == (s.clear && Unheld(slave, q, count + 1, stop))
  {
    var (q, a) := (First(s.pulse, s.idle), Accepted(slave, s, b, count));
    Framing(s.events, a.events, b, ReceivedAll(slave, q + 9, count, count), stop);
    ReadEvents(slave, stop, a, count);
  }

  /** A slave that accepts an address and a byte but holds the line in the pulses of the START and the STOP. */
  const HOLDING: Slave := [false] + Ones(8) + [false] + Ones(8) + [false, false]

  /** Such a slave is what the condition of a session excludes: the bus shows neither mark. */
  lemma HoldingIsHeld()
    ensures AcceptsAll(HOLDING, First(0, true), 2) && !Unheld(HOLDING, First(0, true), 2, true)
  {
    assert Accepts(HOLDING, 0) && Accepts(HOLDING, 9);
    assert AcceptsAll(HOLDING, 0, 1);
  }

  lemma {:induction false} PutAllAppends(slave: Slave, stop: bool, s: Session, a: seq<Octet>, b: seq<Octet>)
    ensures PutAll(slave, stop, s, a + b) == PutAll(slave, stop, PutAll(slave, stop, s, a), b)
    decreases |b|
  {
    if b == [] {
      assert a + b == a;
    } else {
      PutAllAppends(slave, stop, s, a, b[..|b| - 1]);
      assert (a + b)[..|a + b| - 1] == a + b[..|b| - 1];
    }
  }

  /**
   A write refused at byte `m` ends there with a STOP: later bytes never reach the lines, and
   the transfer size stays above zero unless the refused byte was the last of the transfer. The
   bus shows the STOP exactly if the slave does not hold the line in its pulse.
   */
  lemma RefusedWrite(slave: Slave, stop: bool, s: Session, data: seq<Octet>, m: nat)
    requires !s.failed && !s.idle && m < |data| <= s.left
    requires forall j :: 0 <= j < m ==> Sent(slave, s.pulse + 9 * j, data[j]).ack
    requires !Sent(slave, s.pulse + 9 * m, data[m]).ack
    ensures PutAll(slave, stop, s, data) ==
            Session(true, s.pulse + 9 * m + 10, s.events + SentAll(slave, s.pulse, data[..m + 1]) + [Stop],
                    s.left - m - 1, true, s.clear && Released(slave, s.pulse + 9 * m + 10))
  {
    RefusedByte(slave, stop, s, data[..m + 1]);
    assert data == data[..m + 1] + data[m + 1..];
    PutAllAppends(slave, stop, s, data[..m + 1], data[m + 1..]);
    PutAllFailed(slave, stop, PutAll(slave, stop, s, data[..m + 1]), data[m + 1..]);
  }

  lemma RefusedByte(slave: Slave, stop: bool, s: Session, data: seq<Octet>)
    requires !s.failed && !s.idle && 0 < |data| <= s.left
    requires forall j :: 0 <= j < |data| - 1 ==> Sent(slave, s.pulse + 9 * j, data[j]).ack
    requires !Sent(slave, s.pulse + 9 * (|data| - 1), data[|data| - 1]).ack
    ensures PutAll(slave, stop, s, data) ==
            Session(true, s.pulse + 9 * |data| + 1, s.events + SentAll(slave, s.pulse, data) + [Stop],
                    s.left - |data|, true, s.clear && Released(slave, s.pulse + 9 * |data| + 1))
  {
    var m := |data| - 1;
    AnsweredBytes(slave, stop, s, data[..m]);
    assert s.events + SentAll(slave, s.pulse, data[..m]) + [Sent(slave, s.pulse + 9 * m, data[m])] ==
           s.events + SentAll(slave, s.pulse, data);
  }

  /** The bytes a decoder sees when `n` of `size` bytes are read from pulse `p` on. */
  function ReceivedAll(slave: Slave, p: nat, size: nat, n: nat): (r: seq<Event>)
    ensures |r| == n
  {
    if n == 0 then []
    else ReceivedAll(slave, p, size, n - 1) + [Received(slave, p + 9 * (n - 1), size - (n - 1) > 1)]
  }

  lemma ReceivedGrows(events: seq<Event>, slave: Slave, p: nat, size: nat, n: nat)
    ensures events + ReceivedAll(slave, p, size, n) + [Received(slave, p + 9 * n, size - n > 1)] ==
            events + ReceivedAll(slave, p, size, n + 1)
  {
  }

  /** A read that does not reach the end of the transfer. */
  lemma {:induction false} ReadMiddle(slave: Slave, stop: bool, s: Session, n: nat)
    requires !s.failed && !s.idle && n < s.left
    ensures GetAll(slave, stop, s, n) ==
            Session(false, s.pulse + 9 * n, s.events + ReceivedAll(slave, s.pulse, s.left, n), s.left - n, false, s.clear)
    decreases n
  {
    if n > 0 {
      ReadMiddle(slave, stop, s, n - 1);
    }
  }

  /**
   A read means a STOP behind its last byte exactly when one is asked for; the bus shows that
   STOP exactly if the slave does not hold the line.
   */
  lemma ReadEvents(slave: Slave, stop: bool, s: Session, n: nat)
    requires !s.failed && !s.idle && n <= s.left
    ensures var close := stop && n > 0 && n == s.left;
            var p := s.pulse + 9 * n + (if close then 1 else 0);
            GetAll(slave, stop, s, n) ==
            Session(close, p, s.events + ReceivedAll(slave, s.pulse, s.left, n) + (if close then [Stop] else []),
                    s.left - n, false, s.clear && (close ==> Released(slave, p)))
  {
    if n > 0 {
      ReadMiddle(slave, stop, s, n - 1);
      GetAllGrows(slave, stop, s, n - 1);
      ReceivedGrows(s.events, slave, s.pulse, s.left, n - 1);
    } else {
      assert s.events + [] + [] == s.events;
    }
  }

  /** The master acknowledges every byte but the last of the transfer, and the bytes are the slave's. */
  lemma {:induction false} ReadAcknowledges(slave: Slave, p: nat, size: nat, n: nat, j: nat)
    requires j < n <= size
    ensures ReceivedAll(slave, p, size, n)[j].Byte? && ReceivedAll(slave, p, size, n)[j].bits == ReadAt(slave, p + 9 * j)
    ensures j < size - 1 ==> ReceivedAll(slave, p, size, n)[j].ack
    ensures j == size - 1 && Released(slave, p + 9 * j + 9) ==> !ReceivedAll(slave, p, size, n)[j].ack
    ensures ReadAll(slave, p, n)[j] == ReadAt(slave, p + 9 * j)
  {
    if j < n - 1 {
      ReadAcknowledges(slave, p, size, n - 1, j);
    }
  }

  // ----- Every run is a sequence of frames -----

  datatype Frame = Closed | Open | Broken

  /** START opens a frame and STOP closes it; bytes only travel inside one. */
  function FrameStep(f: Frame, e: Event): Frame {
    match e
    case Start => if f.Broken? then Broken else Open
    case Byte(_, _) => if f.Open? then Open else Broken
    case Stop => if f.Open? then Closed else Broken
  }

  function FrameOf(events: seq<Event>): Frame
    decreases |events|
  {
    if events == [] then Closed else FrameStep(FrameOf(events[..|events| - 1]), events[|events| - 1])
  }

  /** The clock is held low exactly inside a frame. */
  ghost predicate Framed(s: Session) {
    FrameOf(s.events) == if s.idle then Closed else Open
  }

  /** Bytes remain to be moved, no error is set, and yet no frame is open: an error was cleared half way. */
  predicate Stale(s: Session) {
    !s.failed && s.left > 0 && s.idle
  }

  lemma {:induction false} FrameGrows(events: seq<Event>, more: seq<Event>)
    ensures FrameOf(events + more) == FrameFrom(FrameOf(events), more)
    decreases |more|
  {
    if more == [] {
      assert events + more == events;
    } else {
      FrameGrows(events, more[..|more| - 1]);
      assert (events + more)[..|events + more| - 1] == events + more[..|more| - 1];
    }
  }

  function FrameFrom(f: Frame, more: seq<Event>): Frame
    decreases |more|
  {
    if more == [] then f else FrameStep(FrameFrom(f, more[..|more| - 1]), more[|more| - 1])
  }

  lemma ByteKeepsFrame(f: Frame, e: Event)
    requires f.Open? && e.Byte?
    ensures FrameFrom(f, [e]) == Open && FrameFrom(f, [e] + [Stop]) == Closed
    ensures FrameFrom(f, [e, Stop, Start]) == Open && FrameFrom(f, [e, Stop, Start, Stop]) == Closed
  {
    assert [e][..0] == [] && ([e] + [Stop])[..1] == [e];
    assert [e, Stop, Start][..2] == [e] + [Stop] && [e, Stop, Start, Stop][..3] == [e, Stop, Start];
  }

  lemma ByteBreaksFrame(f: Frame, e: Event, more: seq<Event>)
    requires !f.Open? && e.Byte? && (more == [] || more == [Stop])
    ensures FrameFrom(f, [e] + more) == Broken
  {
    assert [e][..0] == [] && FrameFrom(f, [e]) == Broken;
    if more == [] {
      assert [e] + more == [e];
    } else {
      assert ([e] + more)[..1] == [e];
    }
  }

  /** A byte with or without a STOP keeps an open frame, and breaks anything else. */
  lemma ByteInFrame(events: seq<Event>, e: Event, close: bool)
    requires e.Byte?
    ensures var f := FrameOf(events + [e] + (if close then [Stop] else []));
            f == if FrameOf(events) != Open then Broken else if close then Closed else Open
  {
    var more := if close then [Stop] else [];
    assert events + [e] + more == events + ([e] + more);
    FrameGrows(events, [e] + more);
    if FrameOf(events) == Open {
      ByteKeepsFrame(Open, e);
      assert [e] + [] == [e];
    } else {
      ByteBreaksFrame(FrameOf(events), e, more);
    }
  }

  /** A byte out keeps the frames of a session that is not stale, and breaks those of one that is. */
  lemma PutKeepsFrame(slave: Slave, stop: bool, s: Session, b: Octet)
    requires s.left > 0
    ensures !Stale(s) ==> !Stale(Put(slave, stop, s, b))
    ensures Framed(s) && !Stale(s) ==> Framed(Put(slave, stop, s, b))
    ensures Framed(s) && Stale(s) ==> FrameOf(Put(slave, stop, s, b).events) == Broken
  {
    if !s.failed {
      var e := Sent(slave, s.pulse, b);
      ByteInFrame(s.events, e, !e.ack || (s.left == 1 && stop));
    }
  }

  /** So does a byte in. */
  lemma GetKeepsFrame(slave: Slave, stop: bool, s: Session)
    requires s.left > 0
    ensures !Stale(s) ==> !Stale(Get(slave, stop, s))
    ensures Framed(s) && !Stale(s) ==> Framed(Get(slave, stop, s))
    ensures Framed(s) && Stale(s) ==> FrameOf(Get(slave, stop, s).events) == Broken
  {
    if !s.failed {
      ByteInFrame(s.events, Received(slave, s.pulse, s.left > 1), s.left == 1 && stop);
    }
  }

  lemma {:induction false} PutAllLeft(slave: Slave, stop: bool, s: Session, data: seq<Octet>)
    requires |data| <= s.left
    ensures PutAll(slave, stop, s, data).left >= s.left - |data|
    decreases |data|
  {
    if data != [] {
      PutAllLeft(slave, stop, s, data[..|data| - 1]);
    }
  }

  lemma {:induction false} PutAllKeepsFrame(slave: Slave, stop: bool, s: Session, data: seq<Octet>)
    requires |data| <= s.left
    ensures Framed(s) && !Stale(s) ==> Framed(PutAll(slave, stop, s, data)) && !Stale(PutAll(slave, stop, s, data))
    ensures Framed(s) && Stale(s) && data != [] ==> FrameOf(PutAll(slave, stop, s, data).events) == Broken
    decreases |data|
  {
    if data != [] {
      var (before, b) := (data[..|data| - 1], data[|data| - 1]);
      var r := PutAll(slave, stop, s, before);
      PutAllLeft(slave, stop, s, before);
      PutAllKeepsFrame(slave, stop, s, before);
      PutKeepsFrame(slave, stop, r, b);
      if before != [] && FrameOf(r.events) == Broken && !r.failed {
        ByteInFrame(r.events, Sent(slave, r.pulse, b), !Sent(slave, r.pulse, b).ack || (r.left == 1 && stop));
      }
    }
  }

  lemma {:induction false} GetAllKeepsFrame(slave: Slave, stop: bool, s: Session, n: nat)
    requires n <= s.left
    ensures GetAll(slave, stop, s, n).left >= s.left - n
    ensures Framed(s) && !Stale(s) ==> Framed(GetAll(slave, stop, s, n)) && !Stale(GetAll(slave, stop, s, n))
    ensures Framed(s) && Stale(s) && n > 0 ==> FrameOf(GetAll(slave, stop, s, n).events) == Broken
    decreases n
  {
    if n > 0 {
      var r := GetAll(slave, stop, s, n - 1);
      GetAllKeepsFrame(slave, stop, s, n - 1);
      GetKeepsFrame(slave, stop, r);
      if n > 1 && FrameOf(r.events) == Broken && !r.failed {
        ByteInFrame(r.events, Received(slave, r.pulse, r.left > 1), r.left == 1 && stop);
      }
    }
  }

  lemma {:induction false} OpenedFrame(events: seq<Event>, slave: Slave, q: nat, b: Octet, n: nat)
    requires FrameOf(events) != Broken
    ensures FrameOf(events + Opened(slave, q, b, n)) == Open
  {
    if n == 0 {
      assert [Start][..0] == [];
      FrameGrows(events, [Start]);
    } else {
      OpenedFrame(events, slave, q, b, n - 1);
      var e := Sent(slave, q + 10 * (n - 1), b);
      ByteKeepsFrame(Open, e);
      FrameGrows(events + Opened(slave, q, b, n - 1), [e, Stop, Start]);
      assert events + Opened(slave, q, b, n) == events + Opened(slave, q, b, n - 1) + [e, Stop, Start];
    }
  }

  /** However a start ends, it leaves an open frame after an answer and a closed one after a failure. */
  lemma StartFrame(events: seq<Event>, slave: Slave, q: nat, b: Octet, n: nat, lost: bool)
    requires FrameOf(events) != Broken
    ensures var e := Sent(slave, q + 10 * n, b);
            FrameOf(events + Opened(slave, q, b, n) + (if lost then [Stop] else LastAttempt(e))) ==
            if !lost && e.ack then Open else Closed
  {
    var e := Sent(slave, q + 10 * n, b);
    OpenedFrame(events, slave, q, b, n);
    ByteKeepsFrame(Open, e);
    assert [Stop][..0] == [];
    FrameGrows(events + Opened(slave, q, b, n), if lost then [Stop] else LastAttempt(e));
  }

  // ----- Starts as a function of what the slave answers -----

  /** The attempt that ends a start: answered, out of time, or lost. */
  function Tries(slave: Slave, q: nat, b: Octet, k: nat, deadline: nat, lostAt: nat): (n: nat)
    requires k <= deadline && k <= lostAt
    ensures k <= n <= deadline && n <= lostAt
    ensures n == lostAt || Sent(slave, q + 10 * n, b).ack || n == deadline
    decreases deadline - k
  {
    if k == lostAt || Sent(slave, q + 10 * k, b).ack || k == deadline then k
    else Tries(slave, q, b, k + 1, deadline, lostAt)
  }

  lemma {:induction false} RefusedAt(slave: Slave, q: nat, b: Octet, k: nat, n: nat)
    requires k < n && AllRefused(slave, q, b, n)
    ensures !Sent(slave, q + 10 * k, b).ack
    decreases n
  {
    if k < n - 1 {
      RefusedAt(slave, q, b, k, n - 1);
    }
  }

  lemma {:induction false} TriesIs(slave: Slave, q: nat, b: Octet, k: nat, n: nat, deadline: nat, lostAt: nat)
    requires k <= n <= deadline && n <= lostAt && AllRefused(slave, q, b, n)
    requires n == lostAt || Sent(slave, q + 10 * n, b).ack || n == deadline
    ensures Tries(slave, q, b, k, deadline, lostAt) == n
    decreases n - k
  {
    if k < n {
      RefusedAt(slave, q, b, k, n);
      TriesIs(slave, q, b, k + 1, n, deadline, lostAt);
    }
  }

  /** The session a start opens, or fails to open. */
  function Opening(slave: Slave, s: Line, b: Octet, size: nat, deadline: nat, lostAt: nat): Session {
    var n := Tries(slave, First(s.pulse, s.idle), b, 0, deadline, lostAt);
    OpeningAt(slave, s, b, size, n, n == lostAt)
  }

  /** The same when attempt `n` is the one that ends it. */
  function OpeningAt(slave: Slave, s: Line, b: Octet, size: nat, n: nat, lost: bool): Session {
    var q := First(s.pulse, s.idle);
    var e := Sent(slave, q + 10 * n, b);
    var refused := !lost && !e.ack;
    Session(lost || refused, q + 10 * n + (if lost then 0 else if refused then 10 else 9),
            s.events + Opened(slave, q, b, n) + (if lost then [Stop] else LastAttempt(e)), size, lost || refused,
            s.clear && ClearTo(slave, q, n) && (refused ==> Released(slave, q + 10 * n + 10)))
  }

  function OpeningErrors(slave: Slave, s: Line, b: Octet, deadline: nat, lostAt: nat): Errors {
    var n := Tries(slave, First(s.pulse, s.idle), b, 0, deadline, lostAt);
    OpeningErrorsAt(slave, s, b, n, n == lostAt)
  }

  function OpeningErrorsAt(slave: Slave, s: Line, b: Octet, n: nat, lost: bool): Errors {
    var refused := !lost && !Sent(slave, First(s.pulse, s.idle) + 10 * n, b).ack;
    Errors(refused, lost, refused)
  }

  lemma OpeningAtKeepsFrame(slave: Slave, s: Line, b: Octet, size: nat, n: nat, lost: bool)
    requires FrameOf(s.events) != Broken
    ensures Framed(OpeningAt(slave, s, b, size, n, lost)) && !Stale(OpeningAt(slave, s, b, size, n, lost))
  {
    StartFrame(s.events, slave, First(s.pulse, s.idle), b, n, lost);
  }

  lemma OpeningKeepsFrame(slave: Slave, s: Line, b: Octet, size: nat, deadline: nat, lostAt: nat)
    ensures var r := Opening(slave, s, b, size, deadline, lostAt);
            FrameOf(s.events) != Broken ==> Framed(r) && !Stale(r)
  {
    var n := Tries(slave, First(s.pulse, s.idle), b, 0, deadline, lostAt);
    if FrameOf(s.events) != Broken {
      OpeningAtKeepsFrame(slave, s, b, size, n, n == lostAt);
    }
  }

  // ----- Whole runs of requests -----

  datatype State = State(s: Session, read: bool, stop: bool, errors: Errors)

  type SlaveAddress = a: seq<bool> | |a| == 16 witness seq(16, _ => false)

  datatype Request =
    | AskStart(addr: SlaveAddress, size: nat, read: bool, stop: bool, deadline: nat, lostAt: nat)
    | AskPut(b: Octet)
    | AskGet
    | AskWrite(data: seq<Octet>)
    | AskRead(n: nat)
    | AskError

  /** The assertions of the source. */
  predicate Permits(st: State, r: Request) {
    match r
    case AskStart(_, _, _, _, _, _) => st.s.failed || st.s.left == 0
    case AskPut(_) => st.s.left > 0 && !st.read
    case AskGet => st.s.left > 0 && st.read
    case AskWrite(data) => 0 < |data| <= st.s.left && !st.read
    case AskRead(n) => 0 < n <= st.s.left && st.read
    case AskError => true
  }

  function After(slave: Slave, st: State, r: Request): State {
    match r
    case AskStart(addr, size, read, stop, deadline, lostAt) =>
      State(Opening(slave, LineOf(st.s), Address(addr, read), size, deadline, lostAt), read, stop,
            OpeningErrors(slave, LineOf(st.s), Address(addr, read), deadline, lostAt))
    case AskPut(b) =>
      var s := Put(slave, st.stop, st.s, b);
      st.(s := s, errors := Refusing(st.errors, s))
    case AskGet => st.(s := Get(slave, st.stop, st.s))
    case AskWrite(data) =>
      var s := PutAll(slave, st.stop, st.s, data);
      st.(s := s, errors := Refusing(st.errors, s))
    case AskRead(n) => st.(s := GetAll(slave, st.stop, st.s, n))
    case AskError => st.(s := st.s.(failed := false), errors := NO_ERRORS)
  }

  /** What a request returns. */
  datatype Reply = Nothing | Data(bytes: seq<Octet>) | Bits(err: Errors)

  /** After an error a single byte reads as 0xFF and a buffer is left alone. */
  function Answer(slave: Slave, st: State, r: Request): Reply {
    match r
    case AskGet => Data([if st.s.failed then Ones(8) else ReadAt(slave, st.s.pulse)])
    case AskRead(n) => Data(if st.s.failed then [] else ReadAll(slave, st.s.pulse, n))
    case AskError => Bits(st.errors)
    case _ => Nothing
  }

  function AfterAll(slave: Slave, st: State, rs: seq<Request>): State
    decreases |rs|
  {
    if rs == [] then st else After(slave, AfterAll(slave, st, rs[..|rs| - 1]), rs[|rs| - 1])
  }

  predicate PermitsAll(slave: Slave, st: State, rs: seq<Request>)
    decreases |rs|
  {
    rs == [] || (PermitsAll(slave, st, rs[..|rs| - 1]) && Permits(AfterAll(slave, st, rs[..|rs| - 1]), rs[|rs| - 1]))
  }

  function AnswerAll(slave: Slave, st: State, rs: seq<Request>): seq<Reply>
    decreases |rs|
  {
    if rs == [] then []
    else AnswerAll(slave, st, rs[..|rs| - 1]) + [Answer(slave, AfterAll(slave, st, rs[..|rs| - 1]), rs[|rs| - 1])]
  }

  method Perform(i2c: I2c, r: Request) returns (reply: Reply)
    requires i2c.Ready() && Permits(i2c.Full(), r)
    modifies i2c
    ensures i2c.Ready() && i2c.Full() == After(i2c.slave, old(i2c.Full()), r)
    ensures reply == Answer(i2c.slave, old(i2c.Full()), r)
  {
    reply := Nothing;
    match r {
      case AskStart(addr, size, read, stop, deadline, lostAt) =>
        i2c.Begin(addr, size, read, stop, deadline, lostAt);
      case AskPut(b) =>
        i2c.SessionPutc(b);
      case AskGet =>
        var b := i2c.SessionGetc();
        reply := Data([b]);
      case AskWrite(bytes) =>
        var buf := new Octet[|bytes|](i requires 0 <= i < |bytes| => bytes[i]);
        assert buf[..|bytes|] == bytes;
        i2c.Write(buf, |bytes|);
      case AskRead(n) =>
        var data := i2c.Read(n);
        reply := Data(data);
      case AskError =>
        var err := i2c.Error();
        reply := Bits(err);
    }
  }

  /** The requests `rs` lead from `st` to `now` with the `replies`. */
  predicate Leads(slave: Slave, st: State, rs: seq<Request>, now: State, replies: seq<Reply>) {
    PermitsAll(slave, st, rs) && now == AfterAll(slave, st, rs) && replies == AnswerAll(slave, st, rs)
  }

  lemma LeadsFurther(slave: Slave, st: State, rs: seq<Request>, done: nat, now: State, replies: seq<Reply>)
    requires done < |rs| && Leads(slave, st, rs[..done], now, replies) && Permits(now, rs[done])
    ensures Leads(slave, st, rs[..done + 1], After(slave, now, rs[done]), replies + [Answer(slave, now, rs[done])])
  {
    assert rs[..done + 1][..done] == rs[..done];
  }

  method PerformAll(i2c: I2c, rs: seq<Request>) returns (done: nat, replies: seq<Reply>)
    requires i2c.Ready()
    modifies i2c
    ensures i2c.Ready() && done <= |rs| && Leads(i2c.slave, old(i2c.Full()), rs[..done], i2c.Full(), replies)
    ensures done < |rs| ==> !Permits(i2c.Full(), rs[done])
  {
    done, replies := 0, [];
    while done < |rs|
      invariant done <= |rs| && i2c.Ready() && Leads(i2c.slave, old(i2c.Full()), rs[..done], i2c.Full(), replies)
    {
      if !Allowed(i2c, rs[done]) {
        break;
      }
      LeadsFurther(i2c.slave, old(i2c.Full()), rs, done, i2c.Full(), replies);
      var reply := Perform(i2c, rs[done]);
      done, replies := done + 1, replies + [reply];
    }
  }

  /**
   Any sequence of requests, with any slave, up to the first one that trips an assertion of the
   source: what the master meant, what was returned, whether the bus shows it, and whether it makes
   well-bracketed frames.
   */
  method Run(i2c: I2c, rs: seq<Request>) returns (done: nat, replies: seq<Reply>)
    requires i2c.Ready()
    modifies i2c
    ensures i2c.Ready() && done <= |rs| && Leads(i2c.slave, old(i2c.Full()), rs[..done], i2c.Full(), replies)
    ensures done < |rs| ==> !Permits(i2c.Full(), rs[done])
    ensures i2c.Bus() == i2c.dec.events <==> i2c.Now().clear
    ensures old(Framed(i2c.Now())) ==>
            (FrameOf(i2c.dec.events) != Broken <==> !MovesStale(i2c.slave, old(i2c.Full()), rs[..done]))
  {
    ghost var st := i2c.Full();
    done, replies := PerformAll(i2c, rs);
    i2c.ClearIsShown();
    if Framed(st.s) {
      RunIsFramed(i2c.slave, st, rs[..done]);
    }
  }

  /** The assertions, on the fields themselves. */
  predicate Allowed(i2c: I2c, r: Request)
    reads i2c
    ensures Allowed(i2c, r) == Permits(i2c.Full(), r)
  {
    match r
    case AskStart(_, _, _, _, _, _) => i2c.HasErrors() || i2c.xferSize == 0
    case AskPut(_) => i2c.xferSize > 0 && !i2c.readFlag
    case AskGet => i2c.xferSize > 0 && i2c.readFlag
    case AskWrite(data) => 0 < |data| <= i2c.xferSize && !i2c.readFlag
    case AskRead(n) => 0 < n <= i2c.xferSize && i2c.readFlag
    case AskError => true
  }

  // ----- Frames over whole runs -----

  predicate Transfers(r: Request) {
    r.AskPut? || r.AskGet? || r.AskWrite? || r.AskRead?
  }

  /** Some request moves bytes on a stale session. */
  predicate MovesStale(slave: Slave, st: State, rs: seq<Request>)
    decreases |rs|
  {
    rs != [] && (MovesStale(slave, st, rs[..|rs| - 1])
                 || (Transfers(rs[|rs| - 1]) && Stale(AfterAll(slave, st, rs[..|rs| - 1]).s)))
  }

  lemma {:induction false} BrokenFrom(more: seq<Event>)
    ensures FrameFrom(Broken, more) == Broken
    decreases |more|
  {
    if more != [] {
      BrokenFrom(more[..|more| - 1]);
    }
  }

  lemma BrokenGrows(events: seq<Event>, more: seq<Event>)
    requires FrameOf(events) == Broken
    ensures FrameOf(events + more) == Broken
  {
    FrameGrows(events, more);
    BrokenFrom(more);
  }

  lemma {:induction false} PutAllStaysBroken(slave: Slave, stop: bool, s: Session, data: seq<Octet>)
    requires FrameOf(s.events) == Broken
    ensures FrameOf(PutAll(slave, stop, s, data).events) == Broken
    decreases |data|
  {
    if data != [] {
      PutAllStaysBroken(slave, stop, s, data[..|data| - 1]);
      PutStaysBroken(slave, stop, PutAll(slave, stop, s, data[..|data| - 1]), data[|data| - 1]);
    }
  }

  lemma PutStaysBroken(slave: Slave, stop: bool, s: Session, b: Octet)
    requires FrameOf(s.events) == Broken
    ensures FrameOf(Put(slave, stop, s, b).events) == Broken
  {
    var e := Sent(slave, s.pulse, b);
    ByteInFrame(s.events, e, !e.ack || (s.left == 1 && stop));
  }

  lemma GetStaysBroken(slave: Slave, stop: bool, s: Session)
    requires FrameOf(s.events) == Broken
    ensures FrameOf(Get(slave, stop, s).events) == Broken
  {
    ByteInFrame(s.events, Received(slave, s.pulse, s.left > 1), s.left == 1 && stop);
  }

  lemma {:induction false} GetAllStaysBroken(slave: Slave, stop: bool, s: Session, n: nat)
    requires FrameOf(s.events) == Broken
    ensures FrameOf(GetAll(slave, stop, s, n).events) == Broken
    decreases n
  {
    if n > 0 {
      GetAllStaysBroken(slave, stop, s, n - 1);
      GetStaysBroken(slave, stop, GetAll(slave, stop, s, n - 1));
    }
  }

  lemma OpeningStaysBroken(slave: Slave, s: Line, b: Octet, size: nat, deadline: nat, lostAt: nat)
    requires FrameOf(s.events) == Broken
    ensures FrameOf(Opening(slave, s, b, size, deadline, lostAt).events) == Broken
  {
    var q := First(s.pulse, s.idle);
    var n := Tries(slave, q, b, 0, deadline, lostAt);
    BrokenGrows(s.events, Opened(slave, q, b, n));
    BrokenGrows(s.events + Opened(slave, q, b, n), if n == lostAt then [Stop] else LastAttempt(Sent(slave, q + 10 * n, b)));
  }

  lemma StaysBroken(slave: Slave, st: State, r: Request)
    requires FrameOf(st.s.events) == Broken
    ensures FrameOf(After(slave, st, r).s.events) == Broken
  {
    match r
    case AskStart(addr, size, read, _, deadline, lostAt) =>
      OpeningStaysBroken(slave, LineOf(st.s), Address(addr, read), size, deadline, lostAt);
    case AskPut(b) => PutStaysBroken(slave, st.stop, st.s, b);
    case AskGet => GetStaysBroken(slave, st.stop, st.s);
    case AskWrite(data) => PutAllStaysBroken(slave, st.stop, st.s, data);
    case AskRead(n) => GetAllStaysBroken(slave, st.stop, st.s, n);
    case AskError =>
  }

  /** One permitted request keeps the frames, unless it moves bytes on a stale session: then it breaks them. */
  lemma RequestFrames(slave: Slave, st: State, r: Request)
    requires Framed(st.s) && Permits(st, r)
    ensures var f := After(slave, st, r).s;
            if Transfers(r) && Stale(st.s) then FrameOf(f.events) == Broken else Framed(f)
  {
    match r
    case AskStart(addr, size, read, _, deadline, lostAt) =>
      OpeningKeepsFrame(slave, LineOf(st.s), Address(addr, read), size, deadline, lostAt);
    case AskPut(b) => PutKeepsFrame(slave, st.stop, st.s, b);
    case AskGet => GetKeepsFrame(slave, st.stop, st.s);
    case AskWrite(data) => PutAllKeepsFrame(slave, st.stop, st.s, data);
    case AskRead(n) => GetAllKeepsFrame(slave, st.stop, st.s, n);
    case AskError =>
  }

  /**
   Over every run with every slave the data line moves under a high clock only as STARTs and
   STOPs that bracket their bytes, if and only if no request moves bytes after `i2c_error` has
   cleared an error half way through a transfer.
   */
  lemma {:induction false} RunIsFramed(slave: Slave, st: State, rs: seq<Request>)
    requires Framed(st.s) && PermitsAll(slave, st, rs)
    ensures var r := AfterAll(slave, st, rs).s;
            && (FrameOf(r.events) != Broken <==> !MovesStale(slave, st, rs))
            && (!MovesStale(slave, st, rs) ==> Framed(r))
    decreases |rs|
  {
    if rs != [] {
      var before := AfterAll(slave, st, rs[..|rs| - 1]);
      RunIsFramed(slave, st, rs[..|rs| - 1]);
      if MovesStale(slave, st, rs[..|rs| - 1]) {
        StaysBroken(slave, before, rs[|rs| - 1]);
      } else {
        RequestFrames(slave, before, rs[|rs| - 1]);
      }
    }
  }

  /** The assertion of a start behind `i2c_error`: the cleared transfer must have been complete. */
  lemma StartAfterError(slave: Slave, st: State, start: Request)
    requires start.AskStart?
    ensures Permits(After(slave, st, AskError), start) <==> st.s.left == 0
  {
  }

  /** So behind a refused write it passes if and only if the refused byte was the last of the transfer. */
  lemma StartAfterRefusal(slave: Slave, st: State, data: seq<Octet>, m: nat, start: Request)
    requires start.AskStart? && !st.s.failed && !st.s.idle && m < |data| <= st.s.left
    requires forall j :: 0 <= j < m ==> Sent(slave, st.s.pulse + 9 * j, data[j]).ack
    requires !Sent(slave, st.s.pulse + 9 * m, data[m]).ack
    ensures Permits(After(slave, After(slave, st, AskWrite(data)), AskError), start) <==> m + 1 == st.s.left
  {
    RefusedWrite(slave, st.stop, st.s, data, m);
  }

  /** And behind a failed start it passes if and only if that start was for no bytes. */
  lemma StartAfterFailedStart(slave: Slave, st: State, first: Request, start: Request)
    requires first.AskStart? && start.AskStart? && After(slave, st, first).s.failed
    ensures Permits(After(slave, After(slave, st, first), AskError), start) <==> first.size == 0
  {
  }

  // ----- Stale sessions -----

  /** Behind a refused write and `i2c_error` bytes may still be asked for if and only if some were left. */
  lemma StaleAfterRefusal(slave: Slave, st: State, data: seq<Octet>, m: nat)
    requires !st.s.failed && !st.s.idle && m < |data| <= st.s.left
    requires forall j :: 0 <= j < m ==> Sent(slave, st.s.pulse + 9 * j, data[j]).ack
    requires !Sent(slave, st.s.pulse + 9 * m, data[m]).ack
    ensures Stale(After(slave, After(slave, st, AskWrite(data)), AskError).s) <==> m + 1 < st.s.left
  {
    RefusedWrite(slave, st.stop, st.s, data, m);
  }

  /** The state of a master that has done nothing yet. */
  const INITIAL := State(Session(true, 0, [], 0, false, true), false, false, NO_ERRORS)

  /** A write to a bus without slaves, the error fetched, and a byte after all: it goes out behind the STOP. */
  lemma StaleSessionBreaks(addr: SlaveAddress, b: Octet)
    ensures var rs := [AskStart(addr, 1, false, true, 0, 1), AskError, AskPut(b)];
            PermitsAll([], INITIAL, rs) && FrameOf(AfterAll([], INITIAL, rs).s.events) == Broken
  {
    var rs := [AskStart(addr, 1, false, true, 0, 1), AskError, AskPut(b)];
    var st1 := After([], INITIAL, rs[0]);
    var st2 := After([], st1, rs[1]);
    assert rs[..1] == [rs[0]] && rs[..2] == [rs[0], rs[1]] && rs[..2][..1] == rs[..1] && rs[..3] == rs;
    assert rs[..1][..0] == [];
    assert AfterAll([], INITIAL, rs[..1]) == st1 && PermitsAll([], INITIAL, rs[..1]);
    assert AfterAll([], INITIAL, rs[..2]) == st2 && PermitsAll([], INITIAL, rs[..2]);
    RequestFrames([], INITIAL, rs[0]);
    RequestFrames([], st1, rs[1]);
    RequestFrames([], st2, rs[2]);
  }

  // ----- What requests have to do with each other -----

  lemma StartShowsByte(slave: Slave, s: Line, b: Octet, size: nat, deadline: nat, lostAt: nat)
    requires lostAt > 0
    ensures var (n, events) := (|s.events|, Opening(slave, s, b, size, deadline, lostAt).events);
            && |events| >= n + 2 && events[..n] == s.events && events[n] == Start
            && events[n + 1] == Sent(slave, First(s.pulse, s.idle), b)
  {
    var q := First(s.pulse, s.idle);
    var k := Tries(slave, q, b, 0, deadline, lostAt);
    OpenedBegins(slave, q, b, k);
    var (o, e) := (Opened(slave, q, b, k), if k == lostAt then [Stop] else LastAttempt(Sent(slave, q + 10 * k, b)));
    assert Opening(slave, s, b, size, deadline, lostAt).events == s.events + o + e;
    assert k == 0 ==> o == [Start] && e[0] == Sent(slave, q, b);
  }

  /** The first two events of a start whose line is not lost: a START and the address byte as the line has it. */
  lemma StartShowsAddress(slave: Slave, st: State, start: Request)
    requires start.AskStart? && start.lostAt > 0
    requires forall i :: First(st.s.pulse, st.s.idle) < i <= First(st.s.pulse, st.s.idle) + 8 ==> Released(slave, i)
    ensures var (n, events) := (|st.s.events|, After(slave, st, start).s.events);
            && |events| >= n + 2 && events[..n] == st.s.events && events[n] == Start && events[n + 1].Byte?
            && Number(events[n + 1].bits) == Number(start.addr) % 256 / 2 * 2 + if start.read then 1 else 0
  {
    var b := Address(start.addr, start.read);
    StartShowsByte(slave, LineOf(st.s), b, start.size, start.deadline, start.lostAt);
    ReleasedBits(slave, First(st.s.pulse, st.s.idle), b);
    AddressNumber(start.addr, start.read);
  }

  lemma {:induction false} OpenedBegins(slave: Slave, q: nat, b: Octet, n: nat)
    ensures Opened(slave, q, b, n) != [] && Opened(slave, q, b, n)[0] == Start
    ensures n > 0 ==> |Opened(slave, q, b, n)| >= 2 && Opened(slave, q, b, n)[1] == Sent(slave, q, b)
  {
    if n > 0 {
      OpenedBegins(slave, q, b, n - 1);
    }
  }

  /** The slave does not answer attempt `k` of a start. */
  predicate Refuses(slave: Slave, st: State, start: Request, k: nat)
    requires start.AskStart?
  {
    !Sent(slave, First(st.s.pulse, st.s.idle) + 10 * k, Address(start.addr, start.read)).ack
  }

  /** The line was lost before anything was answered in time. */
  ghost predicate Loses(slave: Slave, st: State, start: Request)
    requires start.AskStart?
  {
    start.lostAt <= start.deadline && forall k: nat :: k < start.lostAt ==> Refuses(slave, st, start, k)
  }

  /** Nothing was answered before time ran out. */
  ghost predicate Expires(slave: Slave, st: State, start: Request)
    requires start.AskStart?
  {
    start.deadline < start.lostAt && forall k: nat :: k <= start.deadline ==> Refuses(slave, st, start, k)
  }

  lemma EndsBy(slave: Slave, st: State, start: Request, n: nat)
    requires start.AskStart? && n <= start.deadline && n <= start.lostAt
    requires forall k: nat :: k < n ==> Refuses(slave, st, start, k)
    requires n == start.lostAt || n == start.deadline || !Refuses(slave, st, start, n)
    ensures n == start.lostAt <==> Loses(slave, st, start)
    ensures n != start.lostAt && Refuses(slave, st, start, n) <==> Expires(slave, st, start)
  {
  }

  /** What the error bits of a start mean. */
  lemma StartErrors(slave: Slave, st: State, start: Request)
    requires start.AskStart?
    ensures var err := After(slave, st, start).errors;
            && (err.arbLost <==> Loses(slave, st, start)) && (err.startTimeout <==> Expires(slave, st, start))
            && err.noAck == err.startTimeout && After(slave, st, start).s.failed == (err.arbLost || err.startTimeout)
  {
    var (q, b) := (First(st.s.pulse, st.s.idle), Address(start.addr, start.read));
    var n := Tries(slave, q, b, 0, start.deadline, start.lostAt);
    forall k: nat | k < n ensures Refuses(slave, st, start, k) {
      TriedInVain(slave, q, b, 0, start.deadline, start.lostAt, k);
    }
    EndsBy(slave, st, start, n);
  }

  lemma {:induction false} TriedInVain(slave: Slave, q: nat, b: Octet, from: nat, deadline: nat, lostAt: nat, k: nat)
    requires from <= deadline && from <= lostAt && from <= k < Tries(slave, q, b, from, deadline, lostAt)
    ensures !Sent(slave, q + 10 * k, b).ack
    decreases deadline - from
  {
    if k > from {
      TriedInVain(slave, q, b, from + 1, deadline, lostAt, k);
    }
  }

  function Puts(data: seq<Octet>): (rs: seq<Request>)
    ensures |rs| == |data| && forall i :: 0 <= i < |data| ==> rs[i] == AskPut(data[i])
  {
    seq(|data|, i requires 0 <= i < |data| => AskPut(data[i]))
  }

  function Nothings(n: nat): seq<Reply> {
    if n == 0 then [] else Nothings(n - 1) + [Nothing]
  }

  lemma WriteGrows(slave: Slave, st: State, data: seq<Octet>, b: Octet)
    requires st.s.failed == st.errors.Any()
    ensures After(slave, st, AskWrite(data + [b])) == After(slave, After(slave, st, AskWrite(data)), AskPut(b))
  {
    assert (data + [b])[..|data|] == data;
    PutAllFailed(slave, st.stop, st.s, data);
  }

  lemma PutIsPermitted(slave: Slave, st: State, data: seq<Octet>, b: Octet)
    requires |data| < st.s.left && !st.read
    ensures Permits(After(slave, st, AskWrite(data)), AskPut(b))
    ensures Answer(slave, After(slave, st, AskWrite(data)), AskPut(b)) == Nothing
  {
    PutAllLeft(slave, st.stop, st.s, data);
  }

  lemma PutLeads(slave: Slave, st: State, rs: seq<Request>, d: seq<Octet>, b: Octet, replies: seq<Reply>)
    requires |d| < |rs| && rs[|d|] == AskPut(b) && |d| < st.s.left && !st.read && st.s.failed == st.errors.Any()
    requires Leads(slave, st, rs[..|d|], After(slave, st, AskWrite(d)), replies)
    ensures Leads(slave, st, rs[..|d| + 1], After(slave, st, AskWrite(d + [b])), replies + [Nothing])
  {
    PutIsPermitted(slave, st, d, b);
    LeadsFurther(slave, st, rs, |d|, After(slave, st, AskWrite(d)), replies);
    WriteGrows(slave, st, d, b);
  }

  lemma PutsBegin(slave: Slave, st: State, rs: seq<Request>)
    requires st.s.failed == st.errors.Any()
    ensures Leads(slave, st, rs[..0], After(slave, st, AskWrite([])), Nothings(0))
  {
    assert rs[..0] == [];
    assert Refusing(st.errors, st.s) == st.errors;
  }

  /** A write of several bytes is as many single ones. */
  lemma {:induction false} WriteIsPuts(slave: Slave, st: State, data: seq<Octet>, rs: seq<Request>, d: seq<Octet>,
      replies: seq<Reply>)
    requires |data| <= st.s.left && !st.read && st.s.failed == st.errors.Any()
    requires rs == Puts(data) && d <= data && replies == Nothings(|d|)
    ensures Leads(slave, st, rs[..|d|], After(slave, st, AskWrite(d)), replies)
    decreases |d|
  {
    if d == [] {
      PutsBegin(slave, st, rs);
    } else {
      var n := |d| - 1;
      WriteIsPuts(slave, st, data, rs, d[..n], Nothings(n));
      PutLeads(slave, st, rs, d[..n], d[n], Nothings(n));
      assert d == d[..n] + [d[n]];
    }
  }

  function Gets(n: nat): (rs: seq<Request>)
    ensures |rs| == n && forall i :: 0 <= i < n ==> rs[i] == AskGet
  {
    seq(n, _ => AskGet)
  }

  /** A reply for each of the `n` bytes that the slave sends from pulse `p` on. */
  function Singles(slave: Slave, p: nat, n: nat): seq<Reply> {
    if n == 0 then [] else Singles(slave, p, n - 1) + [Data([ReadAt(slave, p + 9 * (n - 1))])]
  }

  lemma GetIsPermitted(slave: Slave, st: State, n: nat)
    requires n < st.s.left && st.read && !st.s.failed
    ensures Permits(After(slave, st, AskRead(n)), AskGet)
    ensures Answer(slave, After(slave, st, AskRead(n)), AskGet) == Data([ReadAt(slave, st.s.pulse + 9 * n)])
    ensures After(slave, st, AskRead(n + 1)) == After(slave, After(slave, st, AskRead(n)), AskGet)
  {
    GetAllState(slave, st.stop, st.s, n);
    GetAllGrows(slave, st.stop, st.s, n);
  }

  lemma GetLeads(slave: Slave, st: State, rs: seq<Request>, n: nat, replies: seq<Reply>)
    requires n < |rs| && rs[n] == AskGet && n < st.s.left && st.read && !st.s.failed
    requires Leads(slave, st, rs[..n], After(slave, st, AskRead(n)), replies)
    ensures Leads(slave, st, rs[..n + 1], After(slave, st, AskRead(n + 1)),
                  replies + [Data([ReadAt(slave, st.s.pulse + 9 * n)])])
  {
    GetIsPermitted(slave, st, n);
    LeadsFurther(slave, st, rs, n, After(slave, st, AskRead(n)), replies);
  }

  lemma GetsBegin(slave: Slave, st: State, rs: seq<Request>)
    ensures Leads(slave, st, rs[..0], After(slave, st, AskRead(0)), Singles(slave, st.s.pulse, 0))
  {
    assert rs[..0] == [];
  }

  /** A read of several bytes is as many single ones, and returns theirs in order. */
  lemma {:induction false} ReadIsGets(slave: Slave, st: State, rs: seq<Request>, n: nat, replies: seq<Reply>)
    requires n <= |rs| <= st.s.left && st.read && !st.s.failed && rs == Gets(|rs|)
    requires replies == Singles(slave, st.s.pulse, n)
    ensures Leads(slave, st, rs[..n], After(slave, st, AskRead(n)), replies)
    decreases n
  {
    if n == 0 {
      GetsBegin(slave, st, rs);
    } else {
      ReadIsGets(slave, st, rs, n - 1, Singles(slave, st.s.pulse, n - 1));
      GetLeads(slave, st, rs, n - 1, Singles(slave, st.s.pulse, n - 1));
    }
  }

  lemma {:induction false} ReadReturnsGets(slave: Slave, st: State, n: nat, i: nat)
    requires i < n && !st.s.failed
    ensures |Singles(slave, st.s.pulse, n)| == n && Answer(slave, st, AskRead(n)).Data?
    ensures Singles(slave, st.s.pulse, n)[i] == Data([Answer(slave, st, AskRead(n)).bytes[i]])
    decreases n
  {
    if n > 1 {
      ReadReturnsGets(slave, st, n - 1, if i < n - 1 then i else 0);
    }
  }
}
