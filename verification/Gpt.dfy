/**
 The phase controller of the 2 ms timer (gpt.c): an integer PI controller with saturation that
 keeps the phase of the EtherCAT clock seen at its first call.
 */
module PhaseControl {
  import opened Options

  newtype int64 = x: int | -0x8000_0000_0000_0000 <= x < 0x8000_0000_0000_0000
  newtype uint32 = x: int | 0 <= x < 0x1_0000_0000

  const CYCLE := 2000000
  const NOMINAL := 800000
  const MAX_ADJUST := 2000
  const MAX_INTEGRAL := 20000

  /** Division and remainder of C, truncated toward zero. */
  function Quotient(a: int, b: nat): int
    requires b > 0
  {
    if a >= 0 then a / b else -(-a / b)
  }

  function Remainder(a: int, b: nat): int
    requires b > 0
  {
    a - b * Quotient(a, b)
  }

  function Clamp(x: int, limit: int): int {
    if x > limit then limit else if x < -limit then -limit else x
  }

  function Sign(x: int): int {
    if x > 0 then 1 else if x < 0 then -1 else 0
  }

  /** The static variables. */
  datatype Memory = Memory(initialized: bool, target: int, integral: int)

  const START := Memory(false, 0, 0)

  /** The place of a time within the cycle, never negative. */
  function Phase(time: int): int {
    time % CYCLE
  }

  /** The phase error brought into the half cycle around the target. */
  function Error(phase: int, target: int): int {
    var d := phase - target;
    if d > CYCLE / 2 then d - CYCLE else if d < -(CYCLE / 2) then d + CYCLE else d
  }

  /** The correction of one cycle, in nanoseconds. */
  function Correction(error: int, integral: int): int {
    Clamp(-Quotient(error, 100) - Quotient(integral, 20), MAX_ADJUST)
  }

  function Period(error: int, integral: int): int {
    NOMINAL + Quotient(Correction(error, integral) * NOMINAL, CYCLE)
  }

  function Integrated(integral: int, error: int): int {
    Clamp(integral + Sign(error), MAX_INTEGRAL)
  }

  /** One call: the new memory and the period it sets, if any. */
  function Adjusted(m: Memory, time: int): (Memory, Option<int>) {
    if !m.initialized then (Memory(true, Phase(time), 0), None)
    else
      var e := Error(Phase(time), m.target);
      var i := Integrated(m.integral, e);
      (m.(integral := i), Some(Period(e, i)))
  }

  predicate Good(m: Memory) {
    0 <= m.target < CYCLE && -MAX_INTEGRAL <= m.integral <= MAX_INTEGRAL
  }

  lemma PhaseIsRemainder(time: int)
    ensures var r := Remainder(time, CYCLE);
            -CYCLE < r < CYCLE && Phase(time) == if r < 0 then r + CYCLE else r
  {
    if time < 0 {
      var q := -time / CYCLE;
      var r := Remainder(time, CYCLE);
      assert Quotient(time, CYCLE) == -q && r == time + CYCLE * q && -CYCLE < r <= 0;
      assert Phase(time) == if r < 0 then r + CYCLE else r by {
        Congruent(time, if r < 0 then r + CYCLE else r, if r < 0 then -q - 1 else -q);
      }
    }
  }

  lemma Congruent(time: int, r: int, k: int)
    requires 0 <= r < CYCLE && time == k * CYCLE + r
    ensures Phase(time) == r
  {
    var q := time / CYCLE;
    assert time == q * CYCLE + Phase(time);
    assert (k - q) * CYCLE == Phase(time) - r;
  }

  class DcSync {
    var initialized: bool
    var target_phase_ns: int64
    var integral: int64

    ghost function Mem(): Memory
      reads this
    {
      Memory(initialized, target_phase_ns as int, integral as int)
    }

    constructor ()
      ensures Mem() == START
    {
      initialized, target_phase_ns, integral := false, 0, 0;
    }

    /** gpt_dc_sync_adjust on 64-bit variables; the result is what R_GPT_PeriodSet gets. */
    method SyncAdjust(dc_time_ns: int64) returns (period: Option<uint32>)
      requires Good(Mem())
      modifies this
      ensures Good(Mem()) && Mem() == Adjusted(old(Mem()), dc_time_ns as int).0
      ensures var p := Adjusted(old(Mem()), dc_time_ns as int).1;
              (period.None? && p.None?) || (period.Some? && p == Some(period.value as int))
    {
      hide Quotient, Remainder;
      PhaseIsRemainder(dc_time_ns as int);
      var phase_ns := Remainder(dc_time_ns as int, CYCLE) as int64;
      if phase_ns < 0 {
        phase_ns := phase_ns + CYCLE as int64;
      }
      if !initialized {
        target_phase_ns := phase_ns;
        integral := 0;
        initialized := true;
        return None;
      }
      var error_ns := phase_ns - target_phase_ns;
      if error_ns > (CYCLE / 2) as int64 {
        error_ns := error_ns - CYCLE as int64;
      } else if error_ns < -((CYCLE / 2) as int64) {
        error_ns := error_ns + CYCLE as int64;
      }
      if error_ns > 0 {
        integral := integral + 1;
      } else if error_ns < 0 {
        integral := integral - 1;
      }
      if integral > MAX_INTEGRAL as int64 {
        integral := MAX_INTEGRAL as int64;
      } else if integral < -(MAX_INTEGRAL as int64) {
        integral := -(MAX_INTEGRAL as int64);
      }
      QuotientRange(error_ns as int, 100, 10000);
      QuotientRange(integral as int, 20, 1000);
      var adjust_ns := -(Quotient(error_ns as int, 100) as int64) - Quotient(integral as int, 20) as int64;
      if adjust_ns > MAX_ADJUST as int64 {
        adjust_ns := MAX_ADJUST as int64;
      } else if adjust_ns < -(MAX_ADJUST as int64) {
        adjust_ns := -(MAX_ADJUST as int64);
      }
      var product := adjust_ns * NOMINAL as int64;
      QuotientRange(product as int, CYCLE, 800);
      var period_counts := NOMINAL as int64 + Quotient(product as int, CYCLE) as int64;
      period := Some(period_counts as uint32);
    }
  }

  lemma QuotientRange(a: int, b: nat, limit: nat)
    requires b > 0 && -(b * limit) <= a <= b * limit
    ensures -(limit as int) <= Quotient(a, b) <= limit
  {
    DivRange(if a >= 0 then a else -a, b, limit);
  }

  lemma DivRange(n: nat, b: nat, limit: nat)
    requires 0 < b && n <= b * limit
    ensures 0 <= n / b <= limit
  {
    if n / b > limit {
      MulMonotone(b, limit + 1, n / b);
    }
  }

  lemma MulMonotone(d: nat, x: int, y: int)
    requires x <= y
    ensures d * x <= d * y
  {
  }

  // ----- the error -----

  /** The error is the difference to the target over whole cycles, and the shortest one. */
  lemma ErrorIsNearest(phase: int, target: int, k: int)
    requires 0 <= phase < CYCLE && 0 <= target < CYCLE
    ensures var e := Error(phase, target);
            && (e == phase - target || e == phase - target - CYCLE || e == phase - target + CYCLE)
            && -(CYCLE / 2) <= e <= CYCLE / 2
            && e % CYCLE == (phase - target) % CYCLE
            && var d := phase - target + k * CYCLE; (if e < 0 then -e else e) <= if d < 0 then -d else d
  {
  }

  // ----- runs -----

  /** The memory after a list of calls. */
  function After(m: Memory, times: seq<int>): Memory
    decreases |times|
  {
    if times == [] then m else After(Adjusted(m, times[0]).0, times[1..])
  }

  /** What each call sets. */
  function Periods(m: Memory, times: seq<int>): (ps: seq<Option<int>>)
    ensures |ps| == |times|
    decreases |times|
  {
    if times == [] then [] else var (m', p) := Adjusted(m, times[0]); [p] + Periods(m', times[1..])
  }

  lemma AdjustedGood(m: Memory, time: int)
    requires Good(m)
    ensures Good(Adjusted(m, time).0) && Adjusted(m, time).0.initialized
    ensures var p := Adjusted(m, time).1;
            (m.initialized <==> p.Some?) && (p.Some? ==> NOMINAL - 800 <= p.value <= NOMINAL + 800)
  {
    if m.initialized {
      var e := Error(Phase(time), m.target);
      QuotientRange(Correction(e, Integrated(m.integral, e)) * NOMINAL, CYCLE, 800);
    }
  }

  /** Over every run from power-up the integral stays within 20000, the target is the phase of the
      first call for ever, the first call sets no period and every later one sets a period of
      799200 to 800800 counts. */
  lemma {:induction false} RunBounded(m: Memory, times: seq<int>)
    requires Good(m)
    ensures Good(After(m, times))
    ensures m.initialized ==> After(m, times).target == m.target
    ensures !m.initialized && times != [] ==> After(m, times).target == Phase(times[0])
    ensures forall k :: 0 <= k < |times| ==>
              var p := Periods(m, times)[k];
              (p.None? <==> k == 0 && !m.initialized) && (p.Some? ==> NOMINAL - 800 <= p.value <= NOMINAL + 800)
    decreases |times|
  {
    hide Quotient, Error, Phase;
    if times != [] {
      AdjustedGood(m, times[0]);
      RunBounded(Adjusted(m, times[0]).0, times[1..]);
    }
  }

  /** A whole number of cycles later is the same place in the cycle. */
  lemma PhaseShift(time: int, k: int)
    ensures Phase(time + k * CYCLE) == Phase(time)
  {
    Congruent(time + k * CYCLE, Phase(time), time / CYCLE + k);
  }

  /** `shifted` are the times, each moved by its own number of whole cycles. */
  predicate Shifted(times: seq<int>, cycles: seq<int>, shifted: seq<int>) {
    |times| == |cycles| == |shifted| && forall k :: 0 <= k < |times| ==> shifted[k] == times[k] + cycles[k] * CYCLE
  }

  /** Moving any of the times by whole cycles, forward or back across zero, changes no period and
      no state. It holds of all integers, so of all 64-bit times whose shifted times are 64-bit too. */
  lemma {:induction false} CyclesDoNotMatter(m: Memory, times: seq<int>, cycles: seq<int>, shifted: seq<int>)
    requires Shifted(times, cycles, shifted)
    ensures Periods(m, times) == Periods(m, shifted)
    ensures After(m, times) == After(m, shifted)
    decreases |times|
  {
    hide Phase, Error, Quotient;
    if times != [] {
      assert shifted[0] == times[0] + cycles[0] * CYCLE;
      PhaseShift(times[0], cycles[0]);
      assert Shifted(times[1..], cycles[1..], shifted[1..]);
      CyclesDoNotMatter(Adjusted(m, times[0]).0, times[1..], cycles[1..], shifted[1..]);
    }
  }

  // ----- control -----

  lemma QuotientMonotone(a: int, b: int, d: nat)
    requires a <= b && d > 0
    ensures Quotient(a, d) <= Quotient(b, d)
  {
    if a >= 0 {
      DivMonotone(a, b, d);
    } else if b < 0 {
      DivMonotone(-b, -a, d);
    } else {
      DivMonotone(0, -a, d);
      DivMonotone(0, b, d);
    }
  }

  lemma QuotientOdd(a: int, d: nat)
    requires d > 0
    ensures Quotient(-a, d) == -Quotient(a, d)
  {
    if a == 0 {
      assert 0 / d == 0;
    }
  }

  lemma DivMonotone(a: nat, b: nat, d: nat)
    requires a <= b && d > 0
    ensures 0 <= a / d <= b / d
  {
    if a / d > b / d {
      MulMonotone(d, b / d + 1, a / d);
    }
  }

  /** A phase further ahead never gets a longer period, and mirrored errors get mirrored periods. */
  lemma PeriodMonotone(e1: int, i1: int, e2: int, i2: int)
    requires e1 <= e2 && i1 <= i2
    ensures Period(e1, i1) >= Period(e2, i2)
    ensures Period(-e1, -i1) - NOMINAL == NOMINAL - Period(e1, i1)
  {
    hide Quotient;
    QuotientMonotone(e1, e2, 100);
    QuotientMonotone(i1, i2, 20);
    QuotientOdd(e1, 100);
    QuotientOdd(i1, 20);
    var a1, a2 := Correction(e1, i1), Correction(e2, i2);
    assert a2 <= a1;
    QuotientMonotone(a2 * NOMINAL, a1 * NOMINAL, CYCLE);
    QuotientOdd(a1 * NOMINAL, CYCLE);
    assert Correction(-e1, -i1) == -a1;
    assert -a1 * NOMINAL == -(a1 * NOMINAL);
  }

  /** The period in closed form: every full 100 ns of the error and every full 20 calls of the integral
      count for one nanosecond, up to 2000 of them, and every full 5 ns of correction for two counts. Mirrored
      errors are covered by `PeriodMonotone`. */
  lemma PeriodExactly(error: int, integral: int, a: nat, b: nat)
    requires 100 * a <= error < 100 * a + 100
    requires var n := if integral >= 0 then integral else -integral; 20 * b <= n < 20 * b + 20
    ensures var c := Clamp(if integral >= 0 then a + b else a - b, MAX_ADJUST);
            && Correction(error, integral) == -c
            && (c >= 0 ==> 2 * c - 5 < 5 * (NOMINAL - Period(error, integral)) <= 2 * c)
            && (c < 0 ==> 2 * c <= 5 * (NOMINAL - Period(error, integral)) < 2 * c + 5)
  {
    assert Quotient(error, 100) == a;
    assert integral >= 0 ==> Quotient(integral, 20) == b;
    assert integral < 0 ==> Quotient(integral, 20) == -(b as int);
  }

  /** While the phase stays ahead of the target, n calls raise the integral by n up to its limit. */
  lemma {:induction false} IntegralWindsUp(m: Memory, times: seq<int>)
    requires Good(m) && m.initialized
    requires forall k :: 0 <= k < |times| ==> Error(Phase(times[k]), m.target) > 0
    ensures After(m, times).integral == Clamp(m.integral + |times|, MAX_INTEGRAL)
    decreases |times|
  {
    hide Quotient, Error, Phase;
    if times != [] {
      assert Error(Phase(times[0]), m.target) > 0;
      assert Sign(Error(Phase(times[0]), m.target)) == 1;
      AdjustedGood(m, times[0]);
      forall k | 0 <= k < |times| - 1
        ensures Error(Phase(times[1..][k]), m.target) > 0
      {
        assert Error(Phase(times[k + 1]), m.target) > 0;
      }
      IntegralWindsUp(Adjusted(m, times[0]).0, times[1..]);
    }
  }

  /** The mirror image of a memory: the same target, the opposite integral. */
  function Mirrored(m: Memory): Memory {
    m.(integral := -m.integral)
  }

  /** Errors of opposite sign throughout give mirrored periods throughout: the controller does
      not drift to either side. */
  lemma {:induction false} NoBias(m: Memory, times: seq<int>, mirrored: seq<int>)
    requires m.initialized && |times| == |mirrored|
    requires forall k :: 0 <= k < |times| ==>
               Error(Phase(mirrored[k]), m.target) == -Error(Phase(times[k]), m.target)
    ensures After(Mirrored(m), mirrored) == Mirrored(After(m, times))
    ensures forall k :: 0 <= k < |times| ==>
              var p, q := Periods(m, times)[k], Periods(Mirrored(m), mirrored)[k];
              p.Some? && q.Some? && p.value + q.value == 2 * NOMINAL
    decreases |times|
  {
    hide Quotient, Error, Phase;
    if times != [] {
      var e := Error(Phase(times[0]), m.target);
      assert Error(Phase(mirrored[0]), m.target) == -e;
      PeriodMonotone(e, Integrated(m.integral, e), e, Integrated(m.integral, e));
      forall k | 0 <= k < |times| - 1
        ensures Error(Phase(mirrored[1..][k]), m.target) == -Error(Phase(times[1..][k]), m.target)
      {
        assert Error(Phase(mirrored[k + 1]), m.target) == -Error(Phase(times[k + 1]), m.target);
      }
      NoBias(Adjusted(m, times[0]).0, times[1..], mirrored[1..]);
    }
  }
}
