/**
 The fixed-point low-pass filter of common/adc_mgr.c: it never leaves its range, and under a steady
 input it settles on that input or one below it.
 */
module Iir {
  import opened Registers

  /** One channel: the last two inputs and outputs, `int32_t` each. */
  datatype Filter = Filter(x0: int, x1: int, y0: int, y1: int)

  const GAIN := 2
  const SHIFT := 512
  const FULL := 4095
  const TOP := 4095 * 512

  /** `INT_MULT(y, IIR_CONST, 8)`: the constant 0.9916015598 in 1/256ths is 254. */
  function Decay(y: int): int {
    Int32(254 * y) / 256
  }

  /** One sample through the filter. */
  function Step(f: Filter, s: int): Filter {
    var x := Int32(s * GAIN);
    Filter(f.x1, x, f.y1, Int32(f.x1 + x + Decay(f.y1)))
  }

  /** `adc_mgr_read`. */
  function Reading(f: Filter): int {
    f.y1 / SHIFT
  }

  predicate Sampled(s: int) {
    0 <= s <= FULL
  }

  predicate InRange(f: Filter) {
    0 <= f.x1 <= FULL * GAIN && 0 <= f.y1 <= TOP
  }

  // ----- Range -----

  /** The same step without registers. */
  function Exact(f: Filter, s: int): Filter {
    Filter(f.x1, s * GAIN, f.y1, f.x1 + s * GAIN + 254 * f.y1 / 256)
  }

  /** Nothing wraps and the range is kept. */
  lemma StepKeepsRange(f: Filter, s: int)
    requires InRange(f) && Sampled(s)
    ensures Step(f, s) == Exact(f, s) && InRange(Step(f, s))
    ensures 254 * f.y1 < 0x8000_0000
  {
  }

  function Run(f: Filter, samples: seq<int>): Filter
    decreases |samples|
  {
    if samples == [] then f else Step(Run(f, samples[..|samples| - 1]), samples[|samples| - 1])
  }

  /** Over every run of 12-bit samples the state stays in range and the reading in 12 bits. */
  lemma {:induction false} RunKeepsRange(f: Filter, samples: seq<int>)
    requires InRange(f) && forall i :: 0 <= i < |samples| ==> Sampled(samples[i])
    ensures InRange(Run(f, samples)) && 0 <= Reading(Run(f, samples)) <= FULL
    decreases |samples|
  {
    if samples != [] {
      var before := samples[..|samples| - 1];
      RunKeepsRange(f, before);
      StepKeepsRange(Run(f, before), samples[|samples| - 1]);
    }
  }

  /** The filter as a recurrence: twice the last two samples and 254/256 of the last output. */
  lemma RunRecurs(f: Filter, samples: seq<int>, a: int, b: int)
    requires InRange(f) && forall i :: 0 <= i < |samples| ==> Sampled(samples[i])
    requires Sampled(a) && Sampled(b)
    ensures Run(f, samples + [a] + [b]).y1 == 2 * a + 2 * b + 254 * Run(f, samples + [a]).y1 / 256
    ensures Reading(Run(f, samples)) == Run(f, samples).y1 / 512
  {
    var (s, t) := (samples + [a], samples + [a] + [b]);
    assert s[..|samples|] == samples && t[..|s|] == s;
    RunKeepsRange(f, samples);
    StepKeepsRange(Run(f, samples), a);
    StepKeepsRange(Run(f, s), b);
  }

  // ----- Settling -----

  /** The output under a steady input `s`, once both inputs are in. */
  function Next(s: nat, y: nat): nat {
    4 * s + 254 * y / 256
  }

  function Iterate(s: nat, y: nat, n: nat): nat
    decreases n
  {
    if n == 0 then y else Iterate(s, Next(s, y), n - 1)
  }

  /** The outputs that a steady input leaves alone. */
  predicate Fixed(s: nat, y: nat) {
    512 * s - 127 <= y <= 512 * s
  }

  /** Where the output ends up: at the nearest fixed value. */
  function Limit(s: nat, y: nat): nat {
    if y > 512 * s then 512 * s else if y >= 512 * s - 127 then y else 512 * s - 127
  }

  function Distance(s: nat, y: nat): nat {
    if y > Limit(s, y) then y - Limit(s, y) else Limit(s, y) - y
  }

  lemma FixedIsFixed(s: nat, y: nat)
    ensures Next(s, y) == y <==> Fixed(s, y)
  {
  }

  /** Outside the fixed values every step comes nearer, and to the same limit. */
  lemma NextComesNearer(s: nat, y: nat)
    requires !Fixed(s, y)
    ensures Limit(s, Next(s, y)) == Limit(s, y) && Distance(s, Next(s, y)) < Distance(s, y)
  {
  }

  lemma {:induction false} IterateSettles(s: nat, y: nat, n: nat)
    requires n >= Distance(s, y)
    ensures Iterate(s, y, n) == Limit(s, y)
    decreases n
  {
    if n > 0 {
      if Fixed(s, y) {
        FixedIsFixed(s, y);
      } else {
        NextComesNearer(s, y);
      }
      IterateSettles(s, Next(s, y), n - 1);
    }
  }

  function Steady(f: Filter, s: int, n: nat): Filter
    decreases n
  {
    if n == 0 then f else Steady(Step(f, s), s, n - 1)
  }

  /** Both inputs are in after one more sample, and then the filter iterates. */
  lemma {:induction false} SteadyIterates(f: Filter, s: nat, n: nat)
    requires InRange(f) && Sampled(s) && f.x1 == s * GAIN
    ensures Steady(f, s, n).y1 == Iterate(s, f.y1, n)
    decreases n
  {
    if n > 0 {
      StepKeepsRange(f, s);
      assert Step(f, s).y1 == Next(s, f.y1);
      SteadyIterates(Step(f, s), s, n - 1);
    }
  }

  /**
   From any state a steady sample `s` makes the filter settle: after the first sample, as many more
   as the distance to the limit are enough, and the reading is then `s` or one less.
   */
  lemma Settles(f: Filter, s: nat, n: nat)
    requires InRange(f) && Sampled(s) && n >= Distance(s, Step(f, s).y1)
    ensures Step(f, s).y1 >= 0 && Steady(f, s, n + 1).y1 == Limit(s, Step(f, s).y1)
    ensures Reading(Steady(f, s, n + 1)) == s || Reading(Steady(f, s, n + 1)) == s - 1
  {
    StepKeepsRange(f, s);
    var g := Step(f, s);
    SteadyIterates(g, s, n);
    IterateSettles(s, g.y1, n);
  }

  /** It reads the sample exactly when it came from above or was already there. */
  lemma SettledReading(s: nat, y: nat)
    ensures Limit(s, y) / SHIFT == s <==> y >= 512 * s
  {
  }

  // ----- The interrupt handler -----

  /** The body of the channel loop. */
  method Update(filter: Filter, s: int) returns (f: Filter)
    requires InRange(filter) && Sampled(s)
    ensures f == Exact(filter, s) && InRange(f)
  {
    StepKeepsRange(filter, s);
    f := filter.(x0 := filter.x1);
    f := f.(x1 := Int32(s * GAIN));
    f := f.(y0 := f.y1);
    f := f.(y1 := Int32(f.x0 + f.x1 + Decay(f.y0)));
  }

  /** One sample for every channel. */
  method Isr(filters: array<Filter>, buf: seq<int>)
    requires |buf| == filters.Length && forall i :: 0 <= i < |buf| ==> Sampled(buf[i])
    requires forall i :: 0 <= i < filters.Length ==> InRange(filters[i])
    modifies filters
    ensures forall i :: 0 <= i < filters.Length ==> filters[i] == Exact(old(filters[i]), buf[i]) && InRange(filters[i])
  {
    for i := 0 to filters.Length
      invariant forall j :: 0 <= j < i ==> filters[j] == Exact(old(filters[j]), buf[j]) && InRange(filters[j])
      invariant forall j :: i <= j < filters.Length ==> filters[j] == old(filters[j])
    {
      var f := Update(filters[i], buf[i]);
      filters[i] := f;
    }
  }
}
