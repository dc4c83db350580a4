/**
 The fixed-point acceleration ramp of bertos/algo/ramp.c, widths written out: `uint16_t` and
 `uint32_t` stores keep the low bits.
 */
module Ramp {
  import opened Division
  import opened Wrappers

  const U16: nat := 0x1_0000

  /** `>> RAMP_CLOCK_SHIFT_PRECISION`. */
  function Ticks(clocks: nat): nat {
    clocks / 4
  }

  class Ramp {
    var clocksRamp: nat
    var clocksMinWL: nat
    var clocksMaxWL: nat
    var maxDivMin: nat
    var invTotalTime: nat

    /** The fields as `ramp_compute` leaves them under its assertions. */
    ghost predicate Valid()
      reads this
    {
      && clocksMinWL <= clocksMaxWL < U16 && 0 < clocksMaxWL
      && 256 <= Ticks(clocksRamp) < 0x100_0000
      && maxDivMin == clocksMinWL * U16 / clocksMaxWL % U16
      && invTotalTime == 0xFFFF_FFFF / Ticks(clocksRamp)
    }

    /** `ramp_compute`. The last assertion of the source asks for a ramp of at least 1024 clocks. */
    constructor (clocksRamp: nat, clocksMinWL: nat, clocksMaxWL: nat)
      requires clocksMinWL <= clocksMaxWL < U16 && 0 < clocksMaxWL
      requires clocksRamp < 0x400_0000 && Ticks(clocksRamp) > 0
      requires 0xFFFF_FFFF / Ticks(clocksRamp) < 0x100_0000
      ensures Valid()
      ensures this.clocksRamp == clocksRamp && this.clocksMinWL == clocksMinWL && this.clocksMaxWL == clocksMaxWL
    {
      this.clocksRamp, this.clocksMinWL, this.clocksMaxWL := clocksRamp, clocksMinWL, clocksMaxWL;
      maxDivMin := (clocksMinWL * U16 / clocksMaxWL) % U16;
      invTotalTime := 0xFFFF_FFFF / Ticks(clocksRamp);
    }

    /** `ramp_evaluate`, or nothing where it divides by zero. */
    method Evaluate(curClock: nat) returns (r: Option<nat>)
      requires Valid()
      ensures r == Value(clocksMinWL, maxDivMin, Time(Ticks(curClock), invTotalTime))
      ensures 1 <= clocksMinWL < clocksMaxWL && curClock <= clocksRamp ==>
              OnRamp(clocksMinWL, clocksMaxWL, clocksRamp / 4, curClock / 4, r)
    {
      if 1 <= clocksMinWL < clocksMaxWL && curClock <= clocksRamp {
        ValueIsOnRamp(clocksMinWL, clocksMaxWL, Ticks(clocksRamp), Ticks(curClock));
      }
      var t := Ticks(curClock) * invTotalTime / U16 % U16;
      var denom := (FixMult16(((U16 - 1 - t) + 1) % U16, maxDivMin) + t) % U16;
      if denom == 0 {
        return None;
      }
      r := Some(clocksMinWL * U16 / denom % U16);
    }
  }

  // ----- The pieces of `ramp_evaluate` -----

  /** The time as a fraction of the ramp in 1/65536ths. */
  function Time(ticks: nat, inv: nat): nat {
    ticks * inv / U16 % U16
  }

  /** `fix_mult16`, whose first argument and result are 16 bits. */
  function FixMult16(a: nat, b: nat): nat {
    b * a / U16 % U16
  }

  function Denominator(mdm: nat, t: nat): nat
    requires t < U16
  {
    (FixMult16(((U16 - 1 - t) + 1) % U16, mdm) + t) % U16
  }

  function Value(min: nat, mdm: nat, t: nat): Option<nat>
    requires t < U16
  {
    var d := Denominator(mdm, t);
    if d == 0 then None else Some(min * U16 / d % U16)
  }

  // ----- Arithmetic -----

  lemma Small(x: nat)
    requires x < U16
    ensures x % U16 == x
  {
  }

  // ----- Time -----

  /** Up to the end of the ramp the time fits 16 bits. */
  lemma TimeFits(ramp: nat, ticks: nat)
    requires 0 < ramp && ticks <= ramp
    ensures Time(ticks, 0xFFFF_FFFF / ramp) == ticks * (0xFFFF_FFFF / ramp) / U16 < U16
  {
    var inv := 0xFFFF_FFFF / ramp;
    DivBounds(0xFFFF_FFFF, ramp);
    Scales(ticks, ramp, inv);
    DivAtMost(ticks * inv, U16, U16 - 1);
    Small(ticks * inv / U16);
  }

  /** And it does not go back. */
  lemma TimeGrows(ramp: nat, a: nat, b: nat)
    requires 0 < ramp && a <= b <= ramp
    ensures Time(a, 0xFFFF_FFFF / ramp) <= Time(b, 0xFFFF_FFFF / ramp)
  {
    TimeFits(ramp, a);
    TimeFits(ramp, b);
    Scales(a, b, 0xFFFF_FFFF / ramp);
  }

  // ----- Denominator -----

  /** `max_div_min` keeps all its bits when the wavelengths differ. */
  lemma RatioFits(min: nat, max: nat)
    requires 1 <= min < max < U16
    ensures min * U16 / max % U16 == min * U16 / max && 1 <= min <= min * U16 / max < U16
  {
    DivAtMost(min * U16, max, U16 - 1);
    DivAtLeast(min * U16, max, min);
    Small(min * U16 / max);
  }

  /** With equal wavelengths it does not: the ratio of one becomes zero. */
  lemma EqualWavelengthsWrap(wl: nat)
    requires 1 <= wl < U16
    ensures wl * U16 / wl % U16 == 0
  {
    DivAtMost(wl * U16, wl, U16);
    DivAtLeast(wl * U16, wl, U16);
  }

  /** What the ratio contributes to the denominator. */
  lemma WeighedRatio(mdm: nat, t: nat)
    requires mdm < U16 && 1 <= t < U16
    ensures mdm <= mdm * (U16 - t) / U16 + t && mdm * (U16 - t) / U16 <= U16 - 1 - t
  {
    var x := mdm * (U16 - t);
    assert x == mdm * U16 - mdm * t;
    Scales(mdm, U16, t);
    Scales(mdm, U16 - 1, U16 - t);
    DivAtMost(x, U16, U16 - 1 - t);
    if t <= mdm {
      DivAtLeast(x, U16, mdm - t);
    }
  }

  lemma ProductFits(mdm: nat, a: nat)
    requires mdm * a / U16 < U16
    ensures FixMult16(a, mdm) == mdm * a / U16
  {
    Small(mdm * a / U16);
  }

  /** `(uint16_t)~t + 1` as an argument of 16 bits. */
  lemma ComplementIs(t: nat)
    requires 1 <= t < U16
    ensures ((U16 - 1 - t) + 1) % U16 == U16 - t
  {
    Small(U16 - t);
  }

  /** Without truncation: the ratio weighed by the time left, and the time. */
  lemma DenominatorIs(mdm: nat, t: nat)
    requires mdm < U16 && 1 <= t < U16
    ensures Denominator(mdm, t) == mdm * (U16 - t) / U16 + t
    ensures mdm <= Denominator(mdm, t) < U16
  {
    var a := U16 - t;
    WeighedRatio(mdm, t);
    ProductFits(mdm, a);
    ComplementIs(t);
    Small(mdm * a / U16 + t);
  }

  /** The division is by zero exactly at time zero. */
  lemma ZeroExactlyAtZero(mdm: nat, t: nat)
    requires mdm < U16 && t < U16
    ensures Denominator(mdm, t) == 0 <==> t == 0
  {
    if t > 0 {
      DenominatorIs(mdm, t);
    }
  }

  /** Not only the clock zero is at time zero, as the header has it. */
  lemma NonzeroClockDividesByZero()
    ensures Time(Ticks(1023), 0xFFFF_FFFF / Ticks(0x3FF_FFFF)) == 0
  {
  }

  lemma {:induction false} DenominatorGrows(mdm: nat, t: nat, u: nat)
    requires mdm < U16 && 1 <= t <= u < U16
    ensures Denominator(mdm, t) <= Denominator(mdm, u)
  {
    DenominatorIs(mdm, t);
    DenominatorIs(mdm, u);
    WeightShrinks(mdm, U16 - t, U16 - u);
  }

  lemma WeightShrinks(mdm: nat, a: nat, b: nat)
    requires mdm < U16 && b <= a
    ensures mdm * a / U16 <= mdm * b / U16 + (a - b)
  {
    var (y, k) := (mdm * b, a - b);
    assert mdm * a == y + mdm * k;
    Scales(mdm, U16, k);
    DivBounds(y, U16);
    DivAtMost(mdm * a, U16, y / U16 + k);
  }

  // ----- The wavelength -----

  lemma LeastQuotient(min: nat, d: nat)
    requires 0 < d < U16
    ensures min <= min * U16 / d
  {
    Scales(d, U16, min);
    DivAtLeast(min * U16, d, min);
  }

  lemma MostQuotient(x: nat, max: nat, mdm: nat, d: nat)
    requires 0 < max && 0 < mdm <= d && x < mdm * max + max
    ensures x / d <= max + (max - 1) / mdm
  {
    var extra := (max - 1) / mdm;
    DivBounds(max - 1, mdm);
    assert (max + extra + 1) * mdm == mdm * max + (extra * mdm + mdm);
    Scales(mdm, d, max + extra + 1);
    DivAtMost(x, d, max + extra);
  }

  /** The quotient lies between the shortest and, but for rounding, the longest wavelength. */
  lemma QuotientBounds(min: nat, max: nat, d: nat)
    requires 1 <= min < max < U16 && min * U16 / max <= d < U16
    ensures min * U16 / max >= 1 && min <= min * U16 / d <= max + (max - 1) / (min * U16 / max)
  {
    RatioFits(min, max);
    DivBounds(min * U16, max);
    LeastQuotient(min, d);
    MostQuotient(min * U16, max, min * U16 / max, d);
  }

  /** It fits 16 bits exactly when the denominator is greater than the shortest wavelength. */
  lemma QuotientFits(min: nat, d: nat)
    requires 1 <= min < U16 && 1 <= d < U16
    ensures min * U16 / d < U16 <==> min < d
  {
    if min < d {
      assert min * U16 < d * U16;
      DivAtMost(min * U16, d, U16 - 1);
    } else {
      assert d * U16 <= min * U16;
      DivAtLeast(min * U16, d, U16);
    }
  }

  /** The ramp at a tick: the wavelength before it is stored in 16 bits. */
  function Wavelength(min: nat, max: nat, ramp: nat, ticks: nat): nat
    requires 1 <= min < max < U16 && 0 < ramp && ticks <= ramp
    requires Time(ticks, 0xFFFF_FFFF / ramp) > 0
  {
    var (mdm, t) := (min * U16 / max % U16, Time(ticks, 0xFFFF_FFFF / ramp));
    ZeroExactlyAtZero(mdm, t);
    min * U16 / Denominator(mdm, t)
  }

  /**
   The wavelength in closed form: the frequency, the ratio of the shortest wavelength to it, goes
   from the ratio of the two wavelengths to one as the time goes from 0 to 65536.
   */
  lemma WavelengthIs(min: nat, max: nat, ramp: nat, ticks: nat, t: nat, d: nat)
    requires 1 <= min < max < U16 && 0 < ramp && ticks <= ramp
    requires t == ticks * (0xFFFF_FFFF / ramp) / 65536 && t > 0
    requires d == t + min * 65536 / max * (65536 - t) / 65536
    ensures Time(ticks, 0xFFFF_FFFF / ramp) == t < 65536 && d > 0
    ensures Wavelength(min, max, ramp, ticks) == min * 65536 / d
  {
    TimeFits(ramp, ticks);
    RatioFits(min, max);
    DenominatorIs(min * U16 / max, t);
  }

  /** Range of the ramp, and exactly when the stored value is the computed one. */
  lemma RampIsBounded(min: nat, max: nat, ramp: nat, ticks: nat)
    requires 1 <= min < max < U16 && 0 < ramp && ticks <= ramp
    requires Time(ticks, 0xFFFF_FFFF / ramp) > 0
    ensures var (mdm, t) := (min * U16 / max % U16, Time(ticks, 0xFFFF_FFFF / ramp));
            var w := Wavelength(min, max, ramp, ticks);
            && 1 <= mdm <= Denominator(mdm, t) < U16
            && min <= w <= max + (max - 1) / mdm
            && (Value(min, mdm, t) == Some(w) <==> min < Denominator(mdm, t))
  {
    var (mdm, t) := (min * U16 / max % U16, Time(ticks, 0xFFFF_FFFF / ramp));
    RatioFits(min, max);
    DenominatorIs(mdm, t);
    var d := Denominator(mdm, t);
    QuotientBounds(min, max, d);
    QuotientFits(min, d);
    Stored(min * U16 / d);
  }

  lemma Stored(q: nat)
    ensures q % U16 == q <==> q < U16
  {
  }

  /** The motor only ever speeds up. */
  lemma RampSpeedsUp(min: nat, max: nat, ramp: nat, a: nat, b: nat)
    requires 1 <= min < max < U16 && 0 < ramp && a <= b <= ramp
    requires Time(a, 0xFFFF_FFFF / ramp) > 0 && Time(b, 0xFFFF_FFFF / ramp) > 0
    ensures Wavelength(min, max, ramp, b) <= Wavelength(min, max, ramp, a)
  {
    var (mdm, t, u) := (min * U16 / max % U16, Time(a, 0xFFFF_FFFF / ramp), Time(b, 0xFFFF_FFFF / ramp));
    TimeGrows(ramp, a, b);
    DenominatorGrows(mdm, t, u);
    ZeroExactlyAtZero(mdm, t);
    DivShrinks(min * U16, Denominator(mdm, t), Denominator(mdm, u));
  }

  lemma DivShrinks(x: nat, d: nat, e: nat)
    requires 0 < d <= e
    ensures x / e <= x / d
  {
    DivBounds(x, d);
    Scales(d, e, x / d + 1);
    DivAtMost(x, e, x / d);
  }

  lemma DivReaches(x: nat, d: nat, k: nat)
    requires d > 0
    ensures x / d >= k <==> x >= k * d
  {
    if x >= k * d {
      DivAtLeast(x, d, k);
    } else if k > 0 {
      DivAtMost(x, d, k - 1);
    }
  }

  /** The ratio exceeds the shortest wavelength, or is that wavelength itself. */
  lemma RatioExceeds(min: nat, max: nat)
    requires 1 <= min < max < U16
    ensures min * U16 / max > min <==> (min + 1) * max <= min * U16
  {
    DivReaches(min * U16, max, min + 1);
  }

  lemma Remaining(min: nat, t: nat)
    requires t < U16
    ensures min * (U16 - t) == min * U16 - min * t && min * t <= min * U16
  {
    Scales(t, U16, min);
  }

  lemma EarlyExceeds(min: nat, t: nat, gone: nat)
    requires 1 <= t <= min + 1 && gone <= min * U16
    ensures t + (min * U16 - gone) / U16 > min <==> gone <= (t - 1) * U16
  {
    DivReaches(min * U16 - gone, U16, min + 1 - t);
  }

  lemma LateIsEnough(min: nat, t: nat)
    requires min < U16 && 1 <= t < U16 && min + 1 < t
    ensures min * t <= (t - 1) * U16
  {
    Scales(min, t - 1, t);
    Scales(t, U16, t - 1);
  }

  /** With the smallest ratio there is the denominator exceeds it exactly when a whole unit of time has gone. */
  lemma SmallRatioExceeds(min: nat, t: nat)
    requires min < U16 && 1 <= t < U16
    ensures Denominator(min, t) > min <==> min * t <= (t - 1) * U16
  {
    DenominatorIs(min, t);
    if t <= min + 1 {
      Remaining(min, t);
      EarlyExceeds(min, t, min * t);
    } else {
      LateIsEnough(min, t);
    }
  }

  /** Exactly when the wavelength fits the 16 bits it is stored in: something known before the call. */
  predicate FitsAt(min: nat, max: nat, t: nat) {
    (min + 1) * max <= min * U16 || min * t <= (t - 1) * U16
  }

  lemma StoredExactly(min: nat, max: nat, t: nat)
    requires 1 <= min < max < U16 && 1 <= t < U16
    ensures Denominator(min * U16 / max % U16, t) > min <==> FitsAt(min, max, t)
  {
    RatioFits(min, max);
    RatioExceeds(min, max);
    var mdm := min * U16 / max;
    DenominatorIs(mdm, t);
    if mdm == min {
      SmallRatioExceeds(min, t);
    }
  }

  /**
   What an evaluation up to the end of the ramp gives: nothing exactly where less than a unit of
   time has gone, and otherwise a wavelength within its bounds, whole exactly where it fits.
   */
  ghost predicate OnRamp(min: nat, max: nat, ramp: nat, ticks: nat, r: Option<nat>)
    requires 1 <= min < max < U16 && 0 < ramp && ticks <= ramp
  {
    var t := Time(ticks, 0xFFFF_FFFF / ramp);
    && (r.None? <==> ticks * (0xFFFF_FFFF / ramp) < U16)
    && (r.None? <==> t == 0)
    && (r.Some? ==>
          var w := Wavelength(min, max, ramp, ticks);
          && min <= w <= max + (max - 1) / Ratio(min, max) && r.value == w % U16
          && (r.value == w <==> FitsAt(min, max, t)))
  }

  function Ratio(min: nat, max: nat): (m: nat)
    requires 1 <= min < max < U16
    ensures 1 <= m < U16 && m == min * U16 / max % U16
  {
    RatioFits(min, max);
    min * U16 / max
  }

  lemma ValueIsOnRamp(min: nat, max: nat, ramp: nat, ticks: nat)
    requires 1 <= min < max < U16 && 0 < ramp && ticks <= ramp
    ensures OnRamp(min, max, ramp, ticks, Value(min, min * U16 / max % U16, Time(ticks, 0xFFFF_FFFF / ramp)))
  {
    var (mdm, t) := (min * U16 / max % U16, Time(ticks, 0xFFFF_FFFF / ramp));
    TimeFits(ramp, ticks);
    DivReaches(ticks * (0xFFFF_FFFF / ramp), U16, 1);
    RatioFits(min, max);
    ZeroExactlyAtZero(mdm, t);
    if t > 0 {
      RampIsBounded(min, max, ramp, ticks);
      StoredExactly(min, max, t);
    }
  }

  /** A ramp from one clock to the longest wavelength starts with a stored value of zero. */
  lemma StoredValueIsCut()
    ensures Time(2, 0xFFFF_FFFF / U16) == 1 && Wavelength(1, U16 - 1, U16, 2) == U16
    ensures Value(1, 1 * U16 / (U16 - 1) % U16, 1) == Some(0)
  {
  }
}
