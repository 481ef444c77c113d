/**
  The search for a PWM prescaler and reload value, with and without its early exit,
  the compare value of a pulse, and the dead-time code. Products are taken in 64 bits.
 */
module Pwm {
  import opened Arithmetic
  import opened Bytes
  import opened Wrappers

  const GIGA: nat := 1_000_000_000
  const PRESCALERS: nat := 0x1_0000

  function Wrapped(n: nat): (r: nat)
    ensures n < U64_LIMIT ==> r == n
  {
    n % U64_LIMIT
  }

  function Quotient(a: nat, b: nat): nat
    requires b > 0
  {
    a / b
  }

  /** What is computed in 64 bits: the remainder of the product, the floor of the quotient, the distance. */
  lemma MachineArithmetic(n: nat, d: nat)
    requires d > 0
    ensures Wrapped(n) < U64_LIMIT && (n - Wrapped(n)) % U64_LIMIT == 0
    ensures d * Quotient(n, d) <= n < d * (Quotient(n, d) + 1)
    ensures n == d + Difference(n, d) || d == n + Difference(n, d)
  {
    QuotientIsUnique(n - n % U64_LIMIT, U64_LIMIT, n / U64_LIMIT, 0);
    assert d * (n / d + 1) == d * (n / d) + d;
  }

  function Denominator(psc: nat): (d: nat)
    ensures d > 0
  {
    GIGA * (psc + 1)
  }

  /** The tick count nearest to a duration, at least one. */
  function NearestTicks(hz: nat, duration: nat, psc: nat): (ticks: nat)
    ensures ticks > 0
  {
    var ticks := Quotient(Wrapped(Wrapped(hz * duration) + Denominator(psc) / 2), Denominator(psc));
    if ticks == 0 then 1 else ticks
  }

  function ActualPeriod(hz: nat, psc: nat, ticks: nat): nat
    requires hz > 0
  {
    Quotient(Wrapped(Denominator(psc) * ticks), hz)
  }

  function Difference(a: nat, b: nat): nat { if a > b then a - b else b - a }

  function ErrorOf(hz: nat, requested: nat, psc: nat): nat
    requires hz > 0
  {
    Difference(ActualPeriod(hz, psc, NearestTicks(hz, requested, psc)), requested)
  }

  predicate Fits(limit: nat, hz: nat, requested: nat, psc: nat) { NearestTicks(hz, requested, psc) <= limit }

  // ---------- the search ----------

  datatype Choice = Choice(found: bool, psc: nat, arr: nat, error: nat)

  function Better(limit: nat, hz: nat, requested: nat, best: Choice, psc: nat): Choice
    requires hz > 0
  {
    if Fits(limit, hz, requested, psc) && (!best.found || ErrorOf(hz, requested, psc) < best.error)
    then Choice(true, psc, NearestTicks(hz, requested, psc) - 1, ErrorOf(hz, requested, psc))
    else best
  }

  /** The outcome of looking at all of the first `n` prescalers. */
  function FullScan(limit: nat, hz: nat, requested: nat, n: nat): Choice
    requires hz > 0
  {
    if n == 0 then Choice(false, 0, 0, U64_LIMIT - 1)
    else Better(limit, hz, requested, FullScan(limit, hz, requested, n - 1), n - 1)
  }

  /** The full scan finds the first least error among the prescalers whose nearest count fits. */
  lemma {:induction false} FirstLeast(limit: nat, hz: nat, requested: nat, n: nat)
    requires hz > 0
    ensures var best := FullScan(limit, hz, requested, n);
            && (best.found <==> exists psc: nat :: psc < n && Fits(limit, hz, requested, psc))
            && (best.found ==>
                  && best.psc < n && Fits(limit, hz, requested, best.psc)
                  && best.arr + 1 == NearestTicks(hz, requested, best.psc)
                  && best.error == ErrorOf(hz, requested, best.psc)
                  && forall psc: nat :: psc < n && Fits(limit, hz, requested, psc) ==>
                       && best.error <= ErrorOf(hz, requested, psc)
                       && (psc < best.psc ==> best.error < ErrorOf(hz, requested, psc)))
  {
    hide Fits, ErrorOf, NearestTicks;
    if n > 0 {
      FirstLeast(limit, hz, requested, n - 1);
    }
  }

  /** Nothing after an exact match changes the outcome. */
  lemma {:induction false} ExactIsFinal(limit: nat, hz: nat, requested: nat, n: nat, m: nat)
    requires hz > 0 && n <= m
    requires FullScan(limit, hz, requested, n).found && FullScan(limit, hz, requested, n).error == 0
    ensures FullScan(limit, hz, requested, m) == FullScan(limit, hz, requested, n)
    decreases m
  {
    hide Fits, ErrorOf, NearestTicks;
    if n < m {
      ExactIsFinal(limit, hz, requested, n, m - 1);
    }
  }

  lemma ScanStarts(limit: nat, hz: nat, requested: nat)
    requires hz > 0
    ensures FullScan(limit, hz, requested, 0) == Choice(false, 0, 0, U64_LIMIT - 1)
  {
  }

  lemma ScanGoesOn(limit: nat, hz: nat, requested: nat, n: nat)
    requires hz > 0
    ensures FullScan(limit, hz, requested, n + 1)
         == Better(limit, hz, requested, FullScan(limit, hz, requested, n), n)
  {
  }

  /** The arithmetic of one round. */
  method Candidate(hz: nat, requested: nat, psc: nat) returns (ticks: nat, error: nat)
    requires hz > 0
    ensures ticks == NearestTicks(hz, requested, psc) && error == ErrorOf(hz, requested, psc)
  {
    hide Wrapped, Denominator, Difference, Quotient;
    var denominator := Denominator(psc);
    var numerator := Wrapped(hz * requested);
    ticks := Quotient(Wrapped(numerator + denominator / 2), denominator);
    if ticks == 0 {
      ticks := 1;
    }
    var actual := Quotient(Wrapped(denominator * ticks), hz);
    error := Difference(actual, requested);
  }

  /** The loop of `configure`; stopping at an exact match gives the same pair as the full scan. */
  method Search(limit: nat, hz: nat, requested: nat, earlyExit: bool) returns (best: Choice)
    requires hz > 0
    ensures best == FullScan(limit, hz, requested, PRESCALERS)
  {
    hide NearestTicks, ErrorOf, FullScan;
    best := Choice(false, 0, 0, U64_LIMIT - 1);
    ScanStarts(limit, hz, requested);
    for psc := 0 to PRESCALERS
      invariant best == FullScan(limit, hz, requested, psc)
      invariant earlyExit ==> !best.found || best.error > 0
    {
      ScanGoesOn(limit, hz, requested, psc);
      var ticks, error := Candidate(hz, requested, psc);
      if ticks > limit {
        continue;
      }
      if !best.found || error < best.error {
        best := Choice(true, psc, ticks - 1, error);
      }
      if earlyExit && error == 0 {
        ExactIsFinal(limit, hz, requested, psc + 1, PRESCALERS);
        return;
      }
    }
  }

  // ---------- how good the nearest count is ----------

  /** No product of the search wraps for this prescaler. */
  predicate NoWrap(hz: nat, requested: nat, psc: nat) { hz * requested + Denominator(psc) / 2 < U64_LIMIT }

  function Distance(a: int, b: int): nat { if a < b then b - a else a - b }

  /** Rounding finds the multiple of `d` nearest to `n`, among all positive multiples. */
  lemma NearestMultiple(n: nat, d: nat, t: nat)
    requires d > 0 && t > 0
    ensures var k := (n + d / 2) / d;
            var nearest := if k == 0 then 1 else k;
            Distance(d * nearest, n) <= Distance(d * t, n)
  {
    var k := (n + d / 2) / d;
    var rest := (n + d / 2) % d;
    assert n + d / 2 == d * k + rest;
    if t > k {
      assert d * t >= d * k + d by { Grows(d, k, t); }
    } else if t < k {
      assert d * k >= d * t + d by { Grows(d, t, k); }
    }
  }

  /** Rounding down afterwards costs at most one. */
  lemma FloorsDiffer(x: int, y: int, h: nat)
    requires h > 0 && Distance(x, 0) <= Distance(y, 0)
    ensures Distance(x / h, 0) <= Distance(y / h, 0) + 1
  {
    var p, q: nat := Distance(x / h, 0), Distance(y / h, 0);
    hide Distance;
    FloorBounds(x, h);
    FloorBounds(y, h);
    if p > q + 1 {
      MultiplyMonotone(q + 1, p - 1, h);
      assert false;
    }
  }

  lemma FloorBounds(x: int, h: nat)
    requires h > 0
    ensures var q: nat := Distance(x / h, 0);
            h * (q - 1) < Distance(x, 0) < h * (q + 1)
  {
    var a := x / h;
    assert x == h * a + x % h;
    if a >= 0 {
      assert h * (a + 1) == h * a + h && h * (a - 1) == h * a - h;
    } else {
      assert h * -a == -(h * a);
      assert h * (-a + 1) == h * -a + h && h * (-a - 1) == h * -a - h;
    }
  }

  /**
    For one prescaler whose nearest count fits, the error found is within a
    nanosecond of the error of every other reload value.
   */
  lemma WithinOne(hz: nat, requested: nat, psc: nat, ticks: nat)
    requires hz > 0 && ticks > 0 && NoWrap(hz, requested, psc) && Denominator(psc) * ticks < U64_LIMIT
    ensures ErrorOf(hz, requested, psc) <= Difference(ActualPeriod(hz, psc, ticks), requested) + 1
  {
    hide Wrapped, Denominator;
    var n, d := hz * requested, Denominator(psc);
    var nearest := NearestTicks(hz, requested, psc);
    NearestMultiple(n, d, ticks);
    NearestFits(n, d);
    assert d * nearest < U64_LIMIT;
    FloorsDiffer(d * nearest - n, d * ticks - n, hz);
    ShiftedFloor(d * nearest, requested, hz);
    ShiftedFloor(d * ticks, requested, hz);
  }

  lemma NearestFits(n: nat, d: nat)
    requires d > 0 && n + d / 2 < U64_LIMIT && d < U64_LIMIT
    ensures var k := (n + d / 2) / d; d * (if k == 0 then 1 else k) < U64_LIMIT
  {
  }

  lemma ShiftedFloor(a: nat, r: nat, h: nat)
    requires h > 0
    ensures (a - h * r) / h == a / h - r
  {
    QuotientIsUnique(a - h * r, h, a / h - r, a % h) by {
      assert a == h * (a / h) + a % h;
      assert h * (a / h - r) == h * (a / h) - h * r;
    }
  }

  /** The period error of a pair as it is, without any wrapping. */
  function TrueError(hz: nat, requested: nat, psc: nat, ticks: nat): nat
    requires hz > 0
  {
    Difference(Quotient(Denominator(psc) * ticks, hz), requested)
  }

  /** The product for the nearest count never wraps, even where the numerator has. */
  lemma NearestNeverWraps(hz: nat, requested: nat, psc: nat)
    requires hz > 0 && psc < PRESCALERS
    ensures Denominator(psc) * NearestTicks(hz, requested, psc) < U64_LIMIT
    ensures ErrorOf(hz, requested, psc) == TrueError(hz, requested, psc, NearestTicks(hz, requested, psc))
  {
    var n, d := Wrapped(Wrapped(hz * requested) + Denominator(psc) / 2), Denominator(psc);
    assert d * (n / d) <= n < U64_LIMIT by {
      assert n == d * (n / d) + n % d;
    }
    hide Denominator;
    assert d < U64_LIMIT;
  }

  /**
    The error found is the true error of the pair chosen, and within a nanosecond of
    that of every reload value of every prescaler whose nearest count fits, as long
    as that prescaler's products do not wrap.
   */
  lemma SearchIsOptimal(limit: nat, hz: nat, requested: nat, psc: nat, ticks: nat)
    requires hz > 0 && psc < PRESCALERS && Fits(limit, hz, requested, psc)
    requires ticks > 0 && NoWrap(hz, requested, psc) && Denominator(psc) * ticks < U64_LIMIT
    ensures var best := FullScan(limit, hz, requested, PRESCALERS);
            && best.found && best.psc < PRESCALERS && best.arr < limit
            && best.error == TrueError(hz, requested, best.psc, best.arr + 1)
            && best.error <= TrueError(hz, requested, psc, ticks) + 1
  {
    hide Denominator, NearestTicks, ErrorOf, FullScan, Difference, Quotient;
    FirstLeast(limit, hz, requested, PRESCALERS);
    NearestNeverWraps(hz, requested, FullScan(limit, hz, requested, PRESCALERS).psc);
    WithinOne(hz, requested, psc, ticks);
  }

  // ---------- configuring outputs that may share a timer ----------

  datatype PwmError = Unrepresentable | SharedPeriodConflict | NotConfigured

  predicate WithinError(error: nat, requested: nat, ppm: nat) {
    Wrapped(error * 1_000_000) <= Wrapped(requested * ppm)
  }

  /** The promise behind it: the period is off by at most `ppm` millionths. */
  predicate Accurate(error: nat, requested: nat, ppm: nat) { error * 1_000_000 <= requested * ppm }

  /** None of the products of a request wraps, in the search or in the comparison. */
  predicate Moderate(hz: nat, requested: nat) {
    NoWrap(hz, requested, PRESCALERS - 1) && requested * 1_000_000 < U64_LIMIT
  }

  /** The comparison is right if both sides have wrapped equally often, and otherwise only by chance. */
  lemma ComparisonRightIff(error: nat, requested: nat, ppm: nat)
    ensures var e, q := error * 1_000_000, requested * ppm;
            (WithinError(error, requested, ppm) <==> Accurate(error, requested, ppm))
            <==> (e / U64_LIMIT == q / U64_LIMIT || (e % U64_LIMIT <= q % U64_LIMIT <==> e / U64_LIMIT < q / U64_LIMIT))
  {
    var e, q := error * 1_000_000, requested * ppm;
    assert e == U64_LIMIT * (e / U64_LIMIT) + e % U64_LIMIT && q == U64_LIMIT * (q / U64_LIMIT) + q % U64_LIMIT;
  }

  /** The least prescaler whose nearest count fits. */
  lemma LeastFitting(limit: nat, hz: nat, requested: nat, psc: nat) returns (least: nat)
    requires Fits(limit, hz, requested, psc)
    ensures least <= psc && Fits(limit, hz, requested, least)
    ensures least > 0 ==> !Fits(limit, hz, requested, least - 1)
  {
    hide Fits;
    if psc > 0 && Fits(limit, hz, requested, psc - 1) {
      least := LeastFitting(limit, hz, requested, psc - 1);
    } else {
      least := psc;
    }
  }

  lemma FloorWithin(x: int, h: nat, bound: nat)
    requires h > 0 && Distance(x, 0) <= h * bound
    ensures Distance(x / h, 0) <= bound
  {
    var q, b: int := x / h, bound;
    assert x == h * q + x % h;
    if q > b {
      Grows(h, b, q);
    } else if q < -b {
      Grows(h, q, -b);
    }
  }

  /** With the least fitting prescaler the count is off by less than a second or than the request itself. */
  lemma LeastFittingIsClose(limit: nat, hz: nat, requested: nat, psc: nat)
    requires hz > 0 && limit >= 0x1_0000 && psc < PRESCALERS && NoWrap(hz, requested, PRESCALERS - 1)
    requires psc > 0 ==> !Fits(limit, hz, requested, psc - 1)
    ensures ErrorOf(hz, requested, psc) <= GIGA || ErrorOf(hz, requested, psc) <= requested
  {
    var n, d, t := hz * requested, Denominator(psc), NearestTicks(hz, requested, psc);
    NearestNeverWraps(hz, requested, psc);
    hide Wrapped;
    RoundedDistance(n, d);
    ShiftedFloor(d * t, requested, hz);
    if psc == 0 {
      assert d <= hz * GIGA by { MultiplyMonotone(1, hz, GIGA); }
      FloorWithin(d * t - n, hz, GIGA);
    } else {
      TooManyTicks(n, Denominator(psc - 1));
      FloorWithin(d * t - n, hz, requested);
    }
  }

  lemma RoundedDistance(n: nat, d: nat)
    requires d > 0
    ensures var k := (n + d / 2) / d; Distance(d * (if k == 0 then 1 else k), n) <= d
  {
    var k := (n + d / 2) / d;
    assert n + d / 2 == d * k + (n + d / 2) % d;
  }

  lemma TooManyTicks(n: nat, d: nat)
    requires d > 0 && (n + d / 2) / d > 0x1_0000
    ensures n >= 2 * d
  {
    var k := (n + d / 2) / d;
    assert n + d / 2 == d * k + (n + d / 2) % d;
    MultiplyMonotone(0x1_0001, k, d);
  }

  lemma ErrorBounded(limit: nat, hz: nat, requested: nat)
    requires hz > 0 && limit >= 0x1_0000 && NoWrap(hz, requested, PRESCALERS - 1)
    requires FullScan(limit, hz, requested, PRESCALERS).found
    ensures var error := FullScan(limit, hz, requested, PRESCALERS).error; error <= GIGA || error <= requested
  {
    hide Fits, ErrorOf, FullScan, NoWrap;
    FirstLeast(limit, hz, requested, PRESCALERS);
    var least := LeastFitting(limit, hz, requested, FullScan(limit, hz, requested, PRESCALERS).psc);
    LeastFittingIsClose(limit, hz, requested, least);
  }

  /**
    For every moderate request, which the caller can tell beforehand, the best pair is
    accepted if and only if its true period is off by at most `ppm` millionths.
   */
  lemma AcceptedIffAccurate(limit: nat, hz: nat, requested: nat, ppm: nat)
    requires hz > 0 && limit >= 0x1_0000 && ppm <= 1_000_000 && Moderate(hz, requested)
    requires FullScan(limit, hz, requested, PRESCALERS).found
    ensures var best := FullScan(limit, hz, requested, PRESCALERS);
            && (WithinError(best.error, requested, ppm) <==> Accurate(best.error, requested, ppm))
            && best.error == TrueError(hz, requested, best.psc, best.arr + 1)
  {
    var best := FullScan(limit, hz, requested, PRESCALERS);
    hide FullScan, Fits, NearestTicks, ErrorOf, TrueError, NoWrap;
    FirstLeast(limit, hz, requested, PRESCALERS);
    NearestNeverWraps(hz, requested, best.psc);
    ErrorBounded(limit, hz, requested);
    MultiplyMonotone(ppm, 1_000_000, requested);
  }

  function PeriodFor(hz: nat, psc: nat, arr: nat): nat
    requires hz > 0
  {
    Quotient(Wrapped(GIGA * (psc + 1) * (arr + 1)), hz)
  }

  lemma PeriodIsActual(hz: nat, psc: nat, ticks: nat)
    requires hz > 0 && ticks > 0
    ensures PeriodFor(hz, psc, ticks - 1) == ActualPeriod(hz, psc, ticks)
  {
  }

  /** Without wrapping, the period of a pair is its ticks in whole nanoseconds, rounded down. */
  lemma PeriodIs(hz: nat, requested: nat, psc: nat)
    requires hz > 0 && psc < PRESCALERS
    ensures var arr := NearestTicks(hz, requested, psc) - 1;
            PeriodFor(hz, psc, arr) == GIGA * (psc + 1) * (arr + 1) / hz
  {
    hide NearestTicks;
    NearestNeverWraps(hz, requested, psc);
  }

  const CHANNELS: nat := 4

  /** The enable and polarity bits of one channel's output and of its complementary output. */
  datatype Wiring = Wiring(on: bool, inverted: bool, complementOn: bool, complementInverted: bool)

  /** The registers of a timer, common to its outputs. */
  class Timer {
    const hasModes: bool  // the timer has compare mode registers
    const hasMain: bool   // the timer has a main output switch
    var psc: nat
    var arr: nat
    var running: bool
    var preload: bool
    var mainOutput: bool
    var pwmMode: seq<bool>
    var wiring: seq<Wiring>
    var compares: seq<nat>

    predicate Valid()
      reads this
    {
      |pwmMode| == |wiring| == |compares| == CHANNELS
    }

    constructor (hasModes: bool, hasMain: bool)
      ensures Valid() && this.hasModes == hasModes && this.hasMain == hasMain
    {
      this.hasModes, this.hasMain := hasModes, hasMain;
      psc, arr, running, preload, mainOutput := 0, 0, false, false, false;
      pwmMode := seq(CHANNELS, _ => false);
      wiring := seq(CHANNELS, _ => Wiring(false, false, false, false));
      compares := seq(CHANNELS, _ => 0);
    }
  }

  /** What the outputs of one timer know about its period. */
  class PeriodState {
    var configured: bool
    var timer: Timer?
    var prescaler: nat
    var autoReload: nat
    var actualPeriod: nat

    constructor ()
      ensures !configured
    {
      configured, timer, prescaler, autoReload, actualPeriod := false, null, 0, 0, 0;
    }
  }

  class Output {
    const hz: nat
    const limit: nat
    const channel: nat  // counted from zero
    const complementary: bool
    const earlyExit: bool  // the G4 driver stops at an exact match, the H5 driver does not
    const timer: Timer
    const shared: PeriodState?
    var actualPeriod: nat
    var configured: bool
    var enabled: bool

    ghost predicate Valid()
      reads this, timer
    {
      && hz > 0 && (limit == 0x1_0000 || limit == U32_LIMIT)
      && channel < CHANNELS && timer.Valid()
      && (configured ==> actualPeriod == PeriodFor(hz, timer.psc, timer.arr))
    }

    constructor (hz: nat, limit: nat, channel: nat, complementary: bool, earlyExit: bool,
                 timer: Timer, shared: PeriodState?)
      requires hz > 0 && (limit == 0x1_0000 || limit == U32_LIMIT) && channel < CHANNELS && timer.Valid()
      ensures Valid() && !configured && !enabled
      ensures this.hz == hz && this.limit == limit && this.earlyExit == earlyExit
      ensures this.channel == channel && this.complementary == complementary
      ensures this.timer == timer && this.shared == shared
    {
      this.hz, this.limit, this.earlyExit, this.timer, this.shared := hz, limit, earlyExit, timer, shared;
      this.channel, this.complementary := channel, complementary;
      actualPeriod, configured, enabled := 0, false, false;
    }

    /** The period other outputs rely on and this one would change. */
    predicate Conflict(psc: nat, arr: nat)
      reads timer, shared
    {
      && shared != null && shared.configured
      && (shared.timer != timer || shared.prescaler != psc || shared.autoReload != arr
          || timer.psc != psc || timer.arr != arr)
    }

    /** Both outputs of the channel are off; the polarity of this one is chosen, that of the other reset. */
    function Wired(activeLow: bool): Wiring {
      if complementary then Wiring(false, false, false, activeLow) else Wiring(false, activeLow, false, false)
    }

    /** This output's own enable bit. */
    predicate Drives()
      requires timer.Valid() && channel < CHANNELS
      reads timer
    {
      if complementary then timer.wiring[channel].complementOn else timer.wiring[channel].on
    }

    /** The registers of a channel, and those of the timer unless they are in use. */
    method SetRegisters(psc: nat, arr: nat, reuse: bool, activeLow: bool)
      requires timer.Valid() && channel < CHANNELS
      modifies timer
      ensures timer.Valid()
      ensures if reuse then timer.psc == old(timer.psc) && timer.arr == old(timer.arr)
              else timer.psc == psc && timer.arr == arr
      ensures timer.wiring == old(timer.wiring)[channel := Wired(activeLow)]
      ensures timer.compares == old(timer.compares)[channel := 0] && timer.preload
      ensures timer.pwmMode == if timer.hasModes then old(timer.pwmMode)[channel := true] else old(timer.pwmMode)
      ensures timer.running == (old(timer.running) && reuse) && timer.mainOutput == old(timer.mainOutput)
    {
      if !reuse {
        timer.running := false;
        timer.psc := psc;
        timer.arr := arr;
      }
      if timer.hasModes {
        timer.pwmMode := timer.pwmMode[channel := true];
      }
      timer.compares := timer.compares[channel := 0];
      timer.wiring := timer.wiring[channel := Wired(activeLow)];
      timer.preload := true;
    }

    /**
      `configure`: the first best pair is taken if it is accurate enough; a timer whose
      period other outputs already use is neither changed nor stopped. Of the channels
      only this one is touched, and both outputs of its pair are switched off.
     */
    method Configure(requested: nat, ppm: nat, activeLow: bool) returns (r: Result<nat, PwmError>)
      requires Valid()
      modifies this, timer, shared
      ensures Valid()
      ensures var best := FullScan(limit, hz, requested, PRESCALERS);
              if requested == 0 || ppm > 1_000_000 || !best.found || !WithinError(best.error, requested, ppm)
              then r == Failure(Unrepresentable)
              else if old(shared != null && shared.configured
                          && (|| shared.timer != timer || shared.prescaler != best.psc || shared.autoReload != best.arr
                              || timer.psc != best.psc || timer.arr != best.arr))
              then r == Failure(SharedPeriodConflict)
              else
                && r == Success(actualPeriod) && Difference(actualPeriod, requested) == best.error
                && configured && !enabled && timer.psc == best.psc && timer.arr == best.arr
                && (shared != null ==> shared.configured && shared.timer == timer
                                       && shared.prescaler == best.psc && shared.autoReload == best.arr
                                       && (shared.actualPeriod == actualPeriod || old(shared.configured)))
      ensures r.Success? ==> r.value == GIGA * (timer.psc + 1) * (timer.arr + 1) / hz
      ensures var best := FullScan(limit, hz, requested, PRESCALERS);
              Moderate(hz, requested) && 0 < requested && ppm <= 1_000_000 && best.found ==>
                (r != Failure(Unrepresentable) <==>
                   Accurate(TrueError(hz, requested, best.psc, best.arr + 1), requested, ppm))
      ensures r.Success? ==>
                && (forall c: nat :: c < CHANNELS && c != channel ==> timer.wiring[c] == old(timer.wiring[c]))
                && var w := timer.wiring[channel];
                && !w.on && !w.complementOn
                && (if complementary then w.complementInverted == activeLow && !w.inverted
                    else w.inverted == activeLow && !w.complementInverted)
                && timer.compares == old(timer.compares)[channel := 0] && timer.preload
                && timer.pwmMode == (if timer.hasModes then old(timer.pwmMode)[channel := true] else old(timer.pwmMode))
                && timer.running == (old(timer.running) && shared != null && old(shared.configured))
                && timer.mainOutput == old(timer.mainOutput)
      ensures r.Failure? ==> unchanged(this) && unchanged(timer) && (shared != null ==> unchanged(shared))
      ensures shared != null && old(shared.configured) ==> timer.psc == old(timer.psc) && timer.arr == old(timer.arr)
    {
      hide FullScan, WithinError, PeriodFor, NearestTicks, ActualPeriod, Difference, Fits;
      hide Moderate, TrueError, Accurate;
      if requested == 0 || ppm > 1_000_000 {
        return Failure(Unrepresentable);
      }
      var best := Search(limit, hz, requested, earlyExit);
      if best.found && Moderate(hz, requested) {
        AcceptedIffAccurate(limit, hz, requested, ppm);
      }
      if !best.found || !WithinError(best.error, requested, ppm) {
        return Failure(Unrepresentable);
      }
      var reuse := shared != null && shared.configured;
      if Conflict(best.psc, best.arr) {
        return Failure(SharedPeriodConflict);
      }
      FirstLeast(limit, hz, requested, PRESCALERS);
      PeriodIsActual(hz, best.psc, best.arr + 1);
      PeriodIs(hz, requested, best.psc);
      SetRegisters(best.psc, best.arr, reuse, activeLow);
      configured, enabled := true, false;
      actualPeriod := PeriodFor(hz, best.psc, best.arr);
      if shared != null && !shared.configured {
        shared.timer, shared.prescaler, shared.autoReload := timer, best.psc, best.arr;
        shared.actualPeriod, shared.configured := actualPeriod, true;
      }
      return Success(actualPeriod);
    }

    /** `set_pulse_width`: the nearest count, never behind the end of the period or the counter. */
    method SetPulseWidth(pulse: nat) returns (r: Outcome<PwmError>)
      requires Valid()
      modifies timer`compares
      ensures Valid() && r == if configured && pulse <= actualPeriod then Pass else Fail(NotConfigured)
      ensures r.Fail? ==> timer.compares == old(timer.compares)
      ensures r.Pass? ==>
                timer.compares == old(timer.compares)[channel := CompareFor(limit, hz, timer.psc, timer.arr, pulse)]
    {
      hide Quotient, Wrapped, Denominator;
      if !configured || pulse > actualPeriod {
        return Fail(NotConfigured);
      }
      var denominator := Denominator(timer.psc);
      var ticks := Quotient(Wrapped(Wrapped(pulse * hz) + denominator / 2), denominator);
      var periodTicks := timer.arr + 1;
      var maximumCompare := limit - 1;
      if ticks > periodTicks {
        ticks := periodTicks;
      }
      if ticks > maximumCompare {
        ticks := maximumCompare;
      }
      timer.compares := timer.compares[channel := ticks];
      return Pass;
    }

    /** `enable_output`: this output drives its pin and the counter runs; no other output is touched. */
    method EnableOutput() returns (r: Outcome<PwmError>)
      requires Valid()
      modifies this`enabled, timer`wiring, timer`mainOutput, timer`running
      ensures Valid() && r == if configured then Pass else Fail(NotConfigured)
      ensures r.Fail? ==> unchanged(this) && unchanged(timer)
      ensures r.Pass? ==>
                && enabled && Drives() && timer.running && timer.mainOutput == (timer.hasMain || old(timer.mainOutput))
                && (var w := old(timer.wiring[channel]);
                    timer.wiring == old(timer.wiring)
                                      [channel := if complementary then w.(complementOn := true) else w.(on := true)])
    {
      if !configured {
        return Fail(NotConfigured);
      }
      timer.wiring := timer.wiring[channel := Switched(timer.wiring[channel], true)];
      if timer.hasMain {
        timer.mainOutput := true;
      }
      timer.running := true;
      enabled := true;
      return Pass;
    }

    /** `disable_output`: this output alone goes off. */
    method DisableOutput()
      requires Valid()
      modifies this`enabled, timer`wiring
      ensures Valid() && !enabled && !Drives()
      ensures var w := old(timer.wiring[channel]);
              timer.wiring == old(timer.wiring)
                                [channel := if complementary then w.(complementOn := false) else w.(on := false)]
    {
      timer.wiring := timer.wiring[channel := Switched(timer.wiring[channel], false)];
      enabled := false;
    }

    function Switched(w: Wiring, on: bool): Wiring {
      if complementary then w.(complementOn := on) else w.(on := on)
    }
  }

  // ---------- requests whose products wrap ----------

  /** Beyond 2^64 millionths of a nanosecond. */
  const LONG_REQUEST: nat := 18_446_744_073_710

  lemma LongRequestUndivided()
    ensures Fits(0x1_0000, 1, LONG_REQUEST, 0) && ErrorOf(1, LONG_REQUEST, 0) == 255_926_290
  {
    assert NearestTicks(1, LONG_REQUEST, 0) == 18447;
  }

  /** Its millionths wrap to next to nothing. */
  lemma LongComparison(error: nat)
    requires 0 < error <= 255_926_290
    ensures !WithinError(error, LONG_REQUEST, 1_000_000) && Accurate(error, LONG_REQUEST, 1_000_000)
  {
  }

  lemma LongRequest()
    ensures var best := FullScan(0x1_0000, 1, LONG_REQUEST, PRESCALERS);
            && best.found && !WithinError(best.error, LONG_REQUEST, 1_000_000)
            && Accurate(best.error, LONG_REQUEST, 1_000_000)
            && best.error == TrueError(1, LONG_REQUEST, best.psc, best.arr + 1)
  {
    hide FullScan, Fits, NearestTicks, ErrorOf, TrueError, WithinError, Accurate, Denominator;
    var best := FullScan(0x1_0000, 1, LONG_REQUEST, PRESCALERS);
    LongRequestUndivided();
    FirstLeast(0x1_0000, 1, LONG_REQUEST, PRESCALERS);
    NearestNeverWraps(1, LONG_REQUEST, best.psc);
    WholeSeconds(best.psc, best.arr + 1);
    LongComparison(best.error);
  }

  lemma WholeSeconds(psc: nat, ticks: nat)
    ensures TrueError(1, LONG_REQUEST, psc, ticks) > 0
  {
    var m := (psc + 1) * ticks;
    assert Denominator(psc) * ticks == GIGA * m;
  }

  /** An accurate pair exists, the search finds it, and the comparison refuses it. */
  method AccurateRefused() returns (r: Result<nat, PwmError>)
    ensures r == Failure(Unrepresentable)
    ensures var best := FullScan(0x1_0000, 1, LONG_REQUEST, PRESCALERS);
            best.found && Accurate(TrueError(1, LONG_REQUEST, best.psc, best.arr + 1), LONG_REQUEST, 1_000_000)
  {
    hide FullScan, WithinError, TrueError;
    LongRequest();
    var timer := new Timer(true, true);
    var output := new Output(1, 0x1_0000, 0, false, true, timer, null);
    r := output.Configure(LONG_REQUEST, 1_000_000, false);
  }

  /** Half a prescaled tick from the longest period there is. */
  const LONGEST_REQUEST: nat := 4_294_985_742_744_073_710

  lemma OnlyTheLast(psc: nat)
    requires psc < PRESCALERS - 1
    ensures !Fits(0x1_0000, 1, LONGEST_REQUEST, psc)
  {
    var d := Denominator(psc);
    QuotientAtLeast(LONGEST_REQUEST + d / 2, d, 0x1_0001);
  }

  lemma QuotientAtLeast(n: nat, d: nat, q: nat)
    requires d > 0 && d * q <= n
    ensures n / d >= q
  {
    assert n == d * (n / d) + n % d;
    if n / d < q {
      Grows(d, n / d, q);
    }
  }

  lemma LongestRequestDivided()
    ensures Fits(0x1_0000, 1, LONGEST_REQUEST, PRESCALERS - 1)
    ensures ErrorOf(1, LONGEST_REQUEST, PRESCALERS - 1) == LONG_REQUEST
  {
    assert NearestTicks(1, LONGEST_REQUEST, PRESCALERS - 1) == 0x1_0000;
  }

  lemma LongestComparison()
    ensures WithinError(LONG_REQUEST, LONGEST_REQUEST, 1) && !Accurate(LONG_REQUEST, LONGEST_REQUEST, 1)
  {
  }

  lemma LongestRequest()
    ensures var best := FullScan(0x1_0000, 1, LONGEST_REQUEST, PRESCALERS);
            && best.found && WithinError(best.error, LONGEST_REQUEST, 1)
            && !Accurate(best.error, LONGEST_REQUEST, 1)
  {
    hide FullScan, Fits, NearestTicks, ErrorOf, WithinError, Accurate;
    var best := FullScan(0x1_0000, 1, LONGEST_REQUEST, PRESCALERS);
    LongestRequestDivided();
    LongestComparison();
    FirstLeast(0x1_0000, 1, LONGEST_REQUEST, PRESCALERS);
    if best.psc < PRESCALERS - 1 {
      OnlyTheLast(best.psc);
    }
  }

  /** A period off by four millionths passes as off by at most one. */
  method InaccurateAccepted() returns (r: Result<nat, PwmError>)
    ensures r.Success? && !Accurate(Difference(r.value, LONGEST_REQUEST), LONGEST_REQUEST, 1)
  {
    hide FullScan, WithinError, Difference, Accurate;
    LongestRequest();
    var timer := new Timer(true, true);
    var output := new Output(1, 0x1_0000, 0, false, true, timer, null);
    r := output.Configure(LONGEST_REQUEST, 1, false);
  }

  // ---------- outputs that share a timer ----------

  /** The calls that one output of a timer may get. */
  datatype Call =
    | Configuring(requested: nat, ppm: nat, activeLow: bool)
    | SettingPulseWidth(pulse: nat)
    | Enabling
    | Disabling

  /**
    Exactly when an output keeps driving while another one of its timer is called: it
    goes off if and only if that one is configured on the same channel or, standing
    for the same output, disabled. What it reports about being enabled never changes.
    It stays consistent if the period was shared, and the counter goes on running.
   */
  method OthersKeepDriving(a: Output, b: Output, call: Call) returns (ok: bool)
    requires a.Valid() && b.Valid() && a != b && a.timer == b.timer && a.Drives()
    modifies b, b.timer, b.shared
    ensures a.timer.Valid() && a.enabled == old(a.enabled)
    ensures a.Drives() <==> !(|| (call.Configuring? && ok && b.channel == a.channel)
                              || (call.Disabling? && b.channel == a.channel && b.complementary == a.complementary))
    ensures b.shared != null && old(b.shared.configured) ==> a.Valid() && (old(a.timer.running) ==> a.timer.running)
  {
    hide FullScan, WithinError, PeriodFor, TrueError, Accurate, Moderate, Difference, CompareFor;
    match call
    case Configuring(requested, ppm, activeLow) =>
      var r := b.Configure(requested, ppm, activeLow);
      ok := r.Success?;
    case SettingPulseWidth(pulse) =>
      var r := b.SetPulseWidth(pulse);
      ok := r.Pass?;
    case Enabling =>
      var r := b.EnableOutput();
      ok := r.Pass?;
    case Disabling =>
      b.DisableOutput();
      ok := true;
  }

  lemma MicrosecondFound()
    ensures var best := FullScan(0x1_0000, GIGA, 1000, PRESCALERS);
            best.found && best.psc == 0 && best.arr == 999 && WithinError(best.error, 1000, 0)
  {
    assert NearestTicks(GIGA, 1000, 0) == 1000 && ErrorOf(GIGA, 1000, 0) == 0;
    assert Fits(0x1_0000, GIGA, 1000, 0);
    hide FullScan, Fits, NearestTicks, ErrorOf;
    FirstLeast(0x1_0000, GIGA, 1000, PRESCALERS);
  }

  /**
    A complementary pair with a shared period: the first output is configured and
    enabled, then the second one is configured. The first is off and reports that it
    is enabled.
   */
  method PartnerGoesOff() returns (a: Output, b: Output)
    ensures fresh(a) && fresh(b) && a.Valid() && b.Valid()
    ensures a.timer == b.timer && a.channel == b.channel && a.complementary != b.complementary
    ensures a.enabled && !a.Drives()
  {
    hide FullScan, WithinError, PeriodFor, TrueError, Accurate, Moderate, Difference;
    MicrosecondFound();
    var timer := new Timer(true, true);
    var period := new PeriodState();
    a := new Output(GIGA, 0x1_0000, 0, false, true, timer, period);
    b := new Output(GIGA, 0x1_0000, 0, true, true, timer, period);
    var first := a.Configure(1000, 0, false);
    var on := a.EnableOutput();
    var second := b.Configure(1000, 0, false);
  }

  // ---------- pulses ----------

  function Least(a: nat, b: nat): nat { if a > b then b else a }

  function CompareFor(limit: nat, hz: nat, psc: nat, arr: nat, pulse: nat): nat
    requires limit > 0
  {
    var ticks := Quotient(Wrapped(Wrapped(pulse * hz) + Denominator(psc) / 2), Denominator(psc));
    Least(Least(ticks, arr + 1), limit - 1)
  }

  /**
    A pulse no longer than the period gets the nearest compare value there is, unless
    the counter cannot hold it; the end of the period never cuts it off.
   */
  lemma PulseIsNearest(limit: nat, hz: nat, psc: nat, arr: nat, pulse: nat, other: nat)
    requires limit > 0 && hz > 0 && NoWrap(hz, pulse, psc) && pulse <= PeriodFor(hz, psc, arr)
    requires other < limit && Denominator(psc) * (arr + 1) < U64_LIMIT
    ensures var c := CompareFor(limit, hz, psc, arr, pulse);
            && c <= arr + 1 && c < limit
            && Distance(Denominator(psc) * c, hz * pulse) <= Distance(Denominator(psc) * other, hz * pulse)
  {
    hide Wrapped, Denominator, PeriodFor, CompareFor, Distance;
    var n, d := hz * pulse, Denominator(psc);
    var k := Quotient(n + d / 2, d);
    PeriodCoversPulse(hz, psc, arr, pulse);
    RoundedWithin(n, d, arr + 1);
    CompareIs(limit, hz, psc, arr, pulse);
    NearestBelow(n, d, limit - 1, other);
  }

  lemma CompareIs(limit: nat, hz: nat, psc: nat, arr: nat, pulse: nat)
    requires limit > 0 && NoWrap(hz, pulse, psc)
    ensures CompareFor(limit, hz, psc, arr, pulse)
         == Least(Least(Quotient(hz * pulse + Denominator(psc) / 2, Denominator(psc)), arr + 1), limit - 1)
  {
    hide Wrapped, Denominator, Quotient;
    assert pulse * hz == hz * pulse;
  }

  lemma PeriodCoversPulse(hz: nat, psc: nat, arr: nat, pulse: nat)
    requires hz > 0 && pulse <= PeriodFor(hz, psc, arr) && Denominator(psc) * (arr + 1) < U64_LIMIT
    ensures hz * pulse <= Denominator(psc) * (arr + 1)
  {
    var full := Denominator(psc) * (arr + 1);
    assert PeriodFor(hz, psc, arr) == full / hz;
    assert full == hz * (full / hz) + full % hz;
    MultiplyMonotone(pulse, full / hz, hz);
  }

  lemma RoundedWithin(n: nat, d: nat, m: nat)
    requires d > 0 && n <= d * m
    ensures Quotient(n + d / 2, d) <= m
  {
    var k := (n + d / 2) / d;
    assert n + d / 2 == d * k + (n + d / 2) % d;
    if k > m {
      Grows(d, m, k);
    }
  }

  /** Rounding, cut off at `most`, is nearest among everything up to `most`. */
  lemma NearestBelow(n: nat, d: nat, most: nat, t: nat)
    requires d > 0 && t <= most
    ensures Distance(d * Least(Quotient(n + d / 2, d), most), n) <= Distance(d * t, n)
  {
    var k := (n + d / 2) / d;
    assert n + d / 2 == d * k + (n + d / 2) % d;
    if k <= most {
      if t > k {
        Grows(d, k, t);
      } else if t < k {
        Grows(d, t, k);
      }
    } else {
      Grows(d, most, k);
      MultiplyMonotone(t, most, d);
    }
  }

  // ---------- dead time ----------

  /** Subtraction of 64-bit unsigned numbers. */
  function Minus(a: nat, b: nat): (r: nat)
    ensures b <= a < U64_LIMIT ==> r == a - b
  {
    (a - b) % U64_LIMIT
  }

  /** The code `set_dead_time` stores, cut to a byte. */
  function DeadTimeCode(ticks: nat): Option<byte> {
    if ticks <= 127 then Some(ticks)
    else if ticks <= 254 then Some((0x80 + Minus(ticks, 128) / 2) % 256)
    else if ticks <= 504 then Some((0xC0 + Minus(ticks, 256) / 8) % 256)
    else if ticks <= 1008 then Some((0xE0 + Minus(ticks, 512) / 16) % 256)
    else None
  }

  /** The dead time, in ticks, the hardware makes of a code. */
  function DeadTimeOf(code: byte): nat {
    if code < 0x80 then code
    else if code < 0xC0 then (64 + code % 64) * 2
    else if code < 0xE0 then (32 + code % 32) * 8
    else (32 + code % 32) * 16
  }

  function RoundedDown(ticks: nat, step: nat): nat
    requires step > 0
  {
    ticks / step * step
  }

  /** The step between dead times around `ticks`. */
  function StepAt(ticks: nat): (step: nat)
    ensures step > 0
  {
    if ticks < 128 then 1 else if ticks < 256 then 2 else if ticks < 512 then 8 else 16
  }

  lemma FineRange(n: nat)
    requires n <= 126
    ensures DeadTimeOf((0x80 + n / 2) % 256) == RoundedDown(128 + n, 2)
  {
  }

  lemma MiddleRange(n: nat)
    requires n <= 248
    ensures DeadTimeOf((0xC0 + n / 8) % 256) == RoundedDown(256 + n, 8)
  {
  }

  lemma CoarseRange(n: nat)
    requires n <= 496
    ensures DeadTimeOf((0xE0 + n / 16) % 256) == RoundedDown(512 + n, 16)
  {
  }

  /** Between two ranges the subtraction wraps, and the byte that is left is the last one of the range below. */
  lemma Gaps(ticks: nat)
    ensures ticks == 255 ==> (0xC0 + Minus(ticks, 256) / 8) % 256 == 0xBF
    ensures 505 <= ticks <= 511 ==> (0xE0 + Minus(ticks, 512) / 16) % 256 == 0xDF
  {
    if 505 <= ticks <= 511 {
      var n := ticks - 512 + U64_LIMIT;
      QuotientIsUnique(ticks - 512, U64_LIMIT, -1, n);
      QuotientIsUnique(n, 16, U64_LIMIT / 16 - 1, ticks - 496);
    }
  }

  lemma EndsOfRanges(ticks: nat)
    ensures ticks == 255 ==> DeadTimeOf(0xBF) == RoundedDown(ticks, 2)
    ensures 505 <= ticks <= 511 ==> DeadTimeOf(0xDF) == RoundedDown(ticks, 8)
  {
  }

  /** The stored code stands for the request rounded down. */
  lemma CodeRoundsDown(ticks: nat)
    requires ticks <= 1008
    ensures DeadTimeCode(ticks).Some? && DeadTimeOf(DeadTimeCode(ticks).value) == RoundedDown(ticks, StepAt(ticks))
  {
    hide DeadTimeOf, RoundedDown, Minus;
    if ticks <= 127 {
      Exact(ticks);
    } else if ticks <= 254 {
      FineRange(ticks - 128);
    } else if ticks == 255 {
      Gaps(ticks);
      EndsOfRanges(ticks);
    } else if ticks <= 504 {
      MiddleRange(ticks - 256);
    } else if ticks <= 511 {
      Gaps(ticks);
      EndsOfRanges(ticks);
    } else {
      CoarseRange(ticks - 512);
    }
  }

  lemma Exact(ticks: nat)
    requires ticks <= 127
    ensures DeadTimeOf(ticks) == RoundedDown(ticks, 1)
  {
  }

  /** Every dead time there is, is a multiple of the step of its range. */
  lemma DeadTimesAreWhole(code: byte)
    ensures DeadTimeOf(code) <= 1008
    ensures RoundedDown(DeadTimeOf(code), StepAt(DeadTimeOf(code))) == DeadTimeOf(code)
  {
  }

  lemma RoundingIsMonotone(a: nat, b: nat)
    requires a <= b <= 1008 && RoundedDown(a, StepAt(a)) == a
    ensures a <= RoundedDown(b, StepAt(b)) <= b
  {
    if StepAt(a) == StepAt(b) {
      assert a / StepAt(a) <= b / StepAt(b);
    }
  }

  /**
    Every request up to the longest dead time gets the longest one that does not
    exceed it; in the gaps between the ranges this rests on the subtraction wrapping.
   */
  lemma DeadTimeIsGreatest(ticks: nat, other: byte)
    ensures DeadTimeCode(ticks).Some? <==> ticks <= DeadTimeOf(255)
    ensures DeadTimeCode(ticks).Some? ==>
              && DeadTimeOf(DeadTimeCode(ticks).value) <= ticks
              && (DeadTimeOf(other) <= ticks ==> DeadTimeOf(other) <= DeadTimeOf(DeadTimeCode(ticks).value))
  {
    assert DeadTimeOf(255) == 1008;
    if ticks <= 1008 {
      hide DeadTimeOf, DeadTimeCode, RoundedDown, StepAt;
      CodeRoundsDown(ticks);
      DeadTimesAreWhole(other);
      RoundingIsMonotone(0, ticks) by { assert RoundedDown(0, StepAt(0)) == 0 by { NothingRounds(); } }
      if DeadTimeOf(other) <= ticks {
        RoundingIsMonotone(DeadTimeOf(other), ticks);
      }
    }
  }

  lemma NothingRounds()
    ensures RoundedDown(0, StepAt(0)) == 0
  {
  }
}
