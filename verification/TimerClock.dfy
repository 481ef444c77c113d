/**
  A free-running 16- or 32-bit timer extended to 64 bits by its overflow interrupt.

  The counter advances and the overflow handler runs between any two register or
  variable accesses of a reader. The handler has two steps: it clears the overflow
  flag, then counts the overflow. It runs to completion unless the reader itself has
  interrupted it between the two; `midway` is that case.
 */
module TimerClock {
  import opened Arithmetic
  import opened Bytes

  const GIGA: nat := 1_000_000_000

  // ---------- arithmetic of the conversions ----------

  /** Ticks to nanoseconds as the source computes them, in 64 bits. */
  function Nanoseconds(ticks: nat, tickHz: nat): nat
    requires tickHz > 0
  {
    (ticks / tickHz * GIGA + ticks % tickHz * GIGA / tickHz) % U64_LIMIT
  }

  /** Dividing in two steps loses nothing: the result is the exact quotient, as far as 64 bits reach. */
  lemma ConversionExact(ticks: nat, tickHz: nat)
    requires tickHz > 0
    ensures ticks / tickHz * GIGA + ticks % tickHz * GIGA / tickHz == ticks * GIGA / tickHz
    ensures Nanoseconds(ticks, tickHz) == ticks * GIGA / tickHz % U64_LIMIT
    ensures Nanoseconds(ticks, tickHz) == ticks * GIGA / tickHz <==> ticks * GIGA / tickHz < U64_LIMIT
  {
    var s, r := ticks / tickHz, ticks % tickHz;
    var q, rest := r * GIGA / tickHz, r * GIGA % tickHz;
    TwoSteps(ticks, tickHz, s, r, q, rest);
    SmallModulo(ticks * GIGA / tickHz);
  }

  lemma TwoSteps(ticks: nat, tickHz: nat, s: nat, r: nat, q: nat, rest: nat)
    requires tickHz > 0 && ticks == tickHz * s + r && r * GIGA == tickHz * q + rest && rest < tickHz
    ensures ticks * GIGA / tickHz == s * GIGA + q
  {
    assert tickHz * (s * GIGA + q) == tickHz * s * GIGA + tickHz * q;
    QuotientIsUnique(ticks * GIGA, tickHz, s * GIGA + q, rest);
  }

  lemma SmallModulo(n: nat)
    ensures n % U64_LIMIT == n <==> n < U64_LIMIT
  {
  }

  /** Readings taken later are not smaller, as long as 64 bits hold them. */
  lemma ConversionMonotone(a: nat, b: nat, tickHz: nat)
    requires tickHz > 0 && a <= b && b * GIGA / tickHz < U64_LIMIT
    ensures Nanoseconds(a, tickHz) <= Nanoseconds(b, tickHz)
  {
    DivisionMonotone(a * GIGA, b * GIGA, tickHz);
    ConversionExact(a, tickHz);
    ConversionExact(b, tickHz);
  }

  /**
    A reading a whole period behind is wrong: if the call was shorter than a period
    and a tick is no shorter than a nanosecond, it is before every instant of the call.
   */
  lemma BehindIsWrong(begin: nat, instant: nat, end: nat, t: nat, period: nat, tickHz: nat)
    requires 0 < tickHz <= GIGA && begin <= instant <= end < begin + period && period <= instant
    requires begin <= t <= end && end * GIGA / tickHz < U64_LIMIT
    ensures Nanoseconds(instant - period, tickHz) < Nanoseconds(t, tickHz)
  {
    var early := instant - period;
    DivisionMonotone(early * GIGA + tickHz, t * GIGA, tickHz);
    QuotientIsUnique(early * GIGA + tickHz, tickHz, early * GIGA / tickHz + 1, early * GIGA % tickHz);
    DivisionMonotone(t * GIGA, end * GIGA, tickHz);
    ConversionExact(early, tickHz);
    ConversionExact(t, tickHz);
  }

  /** The converted true count at an instant of the call. */
  ghost predicate TrueReading(nanoseconds: nat, begin: nat, end: nat, tickHz: nat)
    requires tickHz > 0
  {
    exists t :: begin <= t <= end && nanoseconds == Nanoseconds(t, tickHz)
  }

  lemma ReadingIff(nanoseconds: nat, instant: nat, begin: nat, end: nat, midway: bool, period: nat, tickHz: nat)
    requires 0 < tickHz && begin <= instant <= end && (midway ==> period <= instant)
    requires nanoseconds == Nanoseconds(instant - (if midway then period else 0), tickHz)
    ensures end < begin + period && tickHz <= GIGA && end * GIGA / tickHz < U64_LIMIT ==>
              (TrueReading(nanoseconds, begin, end, tickHz) <==> !midway)
  {
    hide Nanoseconds;
    if midway && end < begin + period && tickHz <= GIGA && end * GIGA / tickHz < U64_LIMIT {
      forall t | begin <= t <= end
        ensures nanoseconds != Nanoseconds(t, tickHz)
      {
        BehindIsWrong(begin, instant, end, t, period, tickHz);
      }
    }
  }

  /** A duration in ticks as the source computes it, in 64 bits. */
  function DelayTicks(duration: nat, tickHz: nat): nat {
    (duration / GIGA * tickHz + (duration % GIGA * tickHz + 999_999_999) / GIGA) % U64_LIMIT
  }

  /** The delay is the duration rounded up to whole ticks, not one tick more. */
  lemma DelayRoundsUp(duration: nat, tickHz: nat)
    requires duration / GIGA * tickHz + (duration % GIGA * tickHz + 999_999_999) / GIGA < U64_LIMIT
    ensures DelayTicks(duration, tickHz) * GIGA >= duration * tickHz
    ensures (DelayTicks(duration, tickHz) - 1) * GIGA < duration * tickHz
  {
    var s, r := duration / GIGA, duration % GIGA;
    SmallModulo(s * tickHz + (r * tickHz + 999_999_999) / GIGA);
    assert duration * tickHz == s * tickHz * GIGA + r * tickHz by {
      assert duration == GIGA * s + r;
      assert (GIGA * s + r) * tickHz == GIGA * s * tickHz + r * tickHz;
    }
  }

  /** `n << CounterBits`, the period being two to the number of counter bits. */
  function Shifted(n: nat, period: nat): nat { n * period }

  /** `full` whole periods have passed at `time`. */
  predicate InPeriod(time: nat, full: nat, period: nat) { Shifted(full, period) <= time < Shifted(full + 1, period) }

  lemma PeriodsOrdered(t: nat, f: nat, u: nat, g: nat, period: nat)
    requires period > 0 && t <= u && InPeriod(t, f, period) && InPeriod(u, g, period)
    ensures f <= g
  {
    if g < f {
      Grows(period, g, f);
    }
  }

  lemma PeriodBelow(t: nat, f: nat, full: nat, period: nat)
    requires period > 0 && InPeriod(t, f, period) && t < Shifted(full, period)
    ensures f < full
  {
    if full <= f {
      if full < f {
        Grows(period, full, f);
      }
      assert false;
    }
  }

  /** What a masked difference of two counter readings measures. */
  lemma CounterDifference(begin: nat, time: nat, period: nat)
    requires period > 0 && begin <= time < begin + period
    ensures (time % period - begin % period) % period == time - begin
  {
    var a, b := begin / period, time / period;
    assert begin == period * a + begin % period && time == period * b + time % period;
    var e := time - begin;
    QuotientIsUnique(time % period - begin % period, period, a - b, e) by {
      assert period * (a - b) == period * a - period * b;
    }
  }

  /** Extending the counter by the overflows known to the reader. */
  lemma Extended(time: nat, known: nat, missing: nat, full: nat, period: nat)
    requires full == known + missing && Shifted(full, period) <= time
    ensures Shifted(missing, period) <= time
    ensures Shifted(known, period) + (time - Shifted(full, period)) == time - Shifted(missing, period)
  {
    assert full * period == known * period + missing * period;
  }

  lemma CounterInPeriod(time: nat, full: nat, period: nat)
    requires period > 0 && InPeriod(time, full, period)
    ensures time % period == time - Shifted(full, period)
  {
    QuotientIsUnique(time, period, full, time - full * period);
  }

  function Repeated(k: nat, n: nat): nat { k * n }

  lemma Repetition(k: nat, n: nat)
    ensures Repeated(0, n) == 0 && Repeated(k + 1, n) == Repeated(k, n) + n && Repeated(k, n) == k * n
  {
  }

  // ---------- the clock ----------

  class TimerClock {
    const tickHz: nat
    const period: nat  // two to the number of counter bits
    var wraps: nat
    var flag: bool
    var midway: bool
    var time: nat  // ticks since the clock was initialized; the counter register shows the low bits

    predicate Shaped() { 0 < tickHz < U32_LIMIT && (period == 0x1_0000 || period == U32_LIMIT) }

    /** Whether the handler has been interrupted between clearing the flag and counting. */
    function Uncounted(): nat
      reads `midway
    {
      if midway then 1 else 0
    }

    /** Overflows so far: those counted, the one flagged, and the one being counted. */
    function Full(): nat
      reads `wraps, `flag, `midway
    {
      wraps + (if flag then 1 else 0) + Uncounted()
    }

    ghost predicate Valid()
      reads this
    {
      Shaped() && InPeriod(time, Full(), period)
    }

    constructor (tickHz: nat, wide: bool)
      requires 0 < tickHz < U32_LIMIT
      ensures Valid() && this.tickHz == tickHz && time == 0 && wraps == 0 && !flag && !midway
      ensures period == if wide then U32_LIMIT else 0x1_0000
    {
      this.tickHz, period := tickHz, if wide then U32_LIMIT else 0x1_0000;
      wraps, flag, midway, time := 0, false, false, 0;
    }

    /** The counter register. */
    function Counter(): nat
      requires Shaped()
      reads `time
    {
      time % period
    }

    /** One tick of the hardware. It sets the flag when the counter starts over. */
    method Tick()
      requires Valid() && !(flag && LastBeforeWrap())
      modifies `time, `flag
      ensures Valid() && time == old(time) + 1 && (flag <==> old(flag) || old(LastBeforeWrap()))
    {
      if LastBeforeWrap() {
        flag := true;
      }
      time := time + 1;
    }

    predicate LastBeforeWrap()
      reads `time, `wraps, `flag, `midway
    {
      time + 1 == Shifted(Full() + 1, period)
    }

    /** The first step of `on_interrupt`. */
    method ClearFlag()
      requires Valid() && !midway
      modifies `flag, `midway
      ensures Valid() && !flag && midway == old(flag)
    {
      if flag {
        flag := false;
        midway := true;
      }
    }

    /** The second step. */
    method CountOverflow()
      requires Valid() && midway
      modifies `wraps, `midway
      ensures Valid() && !midway && wraps == old(wraps) + 1
    {
      wraps := wraps + 1;
      midway := false;
    }

    /** `on_interrupt`, run to completion. */
    method OnInterrupt()
      requires Valid() && !midway
      modifies `flag, `wraps, `midway
      ensures Valid() && !flag && !midway && wraps == old(wraps) + (if old(flag) then 1 else 0)
    {
      ClearFlag();
      if midway {
        CountOverflow();
      }
    }

    /**
      What happens between two accesses of a reader: ticks and handler runs. An
      overflow is handled before the next one, and the reader is done by `deadline`.
     */
    method Elapse(deadline: nat)
      requires Valid() && time < deadline
      modifies `time, `flag, `wraps, `midway
      ensures Valid() && old(time) <= time < deadline && old(wraps) <= wraps && midway == old(midway)
    {
      hide InPeriod;
      var steps: nat := *;
      while steps > 0
        invariant Valid() && old(time) <= time < deadline && old(wraps) <= wraps && midway == old(midway)
      {
        if * {
          if time + 1 < deadline && !(flag && LastBeforeWrap()) {
            Tick();
          }
        } else if !midway {
          OnInterrupt();
        }
        steps := steps - 1;
      }
    }

    /** What a reader sees in the counter register. */
    method LoadCounter(deadline: nat) returns (counter: nat)
      requires Valid() && time < deadline
      modifies `time, `flag, `wraps, `midway
      ensures Valid() && old(time) <= time < deadline && old(wraps) <= wraps && midway == old(midway)
      ensures Shifted(Full(), period) <= time && counter == time - Shifted(Full(), period)
    {
      Elapse(deadline);
      CounterInPeriod(time, Full(), period);
      counter := Counter();
    }

    /**
      `now`: the value returned is the converted true count at an instant inside the
      call, unless the call has interrupted the overflow handler half-way; then it is
      a whole counter period behind. Of a call shorter than a period, with ticks no
      shorter than a nanosecond, it is a true reading if and only if it has not.
     */
    method Now() returns (nanoseconds: nat, ghost instant: nat)
      requires Valid() && wraps + 2 < U32_LIMIT
      modifies `time, `flag, `wraps, `midway
      ensures Valid() && midway == old(midway) && old(wraps) <= wraps
      ensures old(time) <= instant <= time && Shifted(Uncounted(), period) <= instant
      ensures nanoseconds == Nanoseconds(instant - Shifted(Uncounted(), period), tickHz)
      ensures time < old(time) + period && tickHz <= GIGA && time * GIGA / tickHz < U64_LIMIT ==>
                (TrueReading(nanoseconds, old(time), time, tickHz) <==> !midway)
    {
      nanoseconds, instant := Sample();
      ReadingIff(nanoseconds, instant, old(time), time, midway, period, tickHz);
    }

    /** The loop of `now` and the conversion behind it. */
    method Sample() returns (nanoseconds: nat, ghost instant: nat)
      requires Valid() && wraps + 2 < U32_LIMIT
      modifies `time, `flag, `wraps, `midway
      ensures Valid() && midway == old(midway) && old(wraps) <= wraps
      ensures old(time) <= instant <= time && Shifted(Uncounted(), period) <= instant
      ensures nanoseconds == Nanoseconds(instant - Shifted(Uncounted(), period), tickHz)
    {
      hide InPeriod, Nanoseconds, Shifted, TimerClock.LastBeforeWrap;
      // The environment's promise: the call is over before a second overflow that was not counted on entry.
      var deadline := Shifted(wraps + Uncounted() + 2, period);
      EntryInTime();
      while true
        invariant Valid() && old(time) <= time < deadline && old(wraps) <= wraps && midway == old(midway)
        invariant deadline == Shifted(old(wraps) + Uncounted() + 2, period)
        decreases deadline - wraps
      {
        Elapse(deadline);
        var before := wraps;
        var counter := LoadCounter(deadline);
        instant := time;
        ghost var full := Full();
        Elapse(deadline);
        var pending := flag;
        ghost var noticed, atNotice := time, Full();
        PeriodsOrdered(instant, full, noticed, atNotice, period);
        Elapse(deadline);
        var after := wraps;
        if before != after {
          WrapsBelow(deadline);
          continue;
        }
        var ticks := Shifted(before, period) + counter;
        if !pending {
          assert full == before + Uncounted();
          Extended(instant, before, Uncounted(), full, period);
        } else {
          PeriodsOrdered(noticed, atNotice, time, Full(), period);
          ticks, instant := ReadAgain(before, deadline, old(wraps));
        }
        nanoseconds := Nanoseconds(ticks, tickHz);
        return;
      }
    }

    /** With an overflow pending, read the counter once more: it belongs to the next period. */
    method ReadAgain(before: nat, deadline: nat, ghost entry: nat) returns (ticks: nat, ghost instant: nat)
      requires Valid() && entry <= before && entry + 2 < U32_LIMIT && before + 1 + Uncounted() <= Full()
      requires time < deadline == Shifted(entry + Uncounted() + 2, period)
      modifies `time, `flag, `wraps, `midway
      ensures Valid() && midway == old(midway) && old(wraps) <= wraps && old(time) <= instant <= time
      ensures Shifted(Uncounted(), period) <= instant && ticks == instant - Shifted(Uncounted(), period)
    {
      hide InPeriod, Shifted, TimerClock.LastBeforeWrap;
      ghost var noticed, atNotice := time, Full();
      var counter := LoadCounter(deadline);
      instant := time;
      PeriodsOrdered(noticed, atNotice, instant, Full(), period);
      PeriodBelow(instant, Full(), entry + Uncounted() + 2, period);
      Extended(instant, before + 1, Uncounted(), Full(), period);
      NoWrap(before + 1);
      ticks := Shifted((before + 1) % U32_LIMIT, period) + counter;
    }

    lemma NoWrap(n: nat)
      requires n < U32_LIMIT
      ensures n % U32_LIMIT == n
    {
    }

    lemma EntryInTime()
      requires Valid()
      ensures time < Shifted(wraps + Uncounted() + 2, period)
    {
    }

    lemma WrapsBelow(deadline: nat)
      requires Valid() && time < deadline
      ensures wraps <= deadline
    {
    }

    /** Between two polls of the counter at least one tick passes and at most `pace`. */
    method Poll(pace: nat)
      requires Valid() && !midway && 1 <= pace
      modifies `time, `flag, `wraps, `midway
      ensures Valid() && !midway && old(time) < time <= old(time) + pace
    {
      hide InPeriod, Shifted;
      var ticks: int := *;
      if !(1 <= ticks <= pace) {
        ticks := 1;
      }
      for tick := 0 to ticks
        invariant Valid() && !midway && time == old(time) + tick
      {
        if * {
          OnInterrupt();
        }
        if flag && LastBeforeWrap() {
          OnInterrupt();
        }
        Tick();
      }
    }

    /** The inner loop of `delay_for`: it ends with the first poll that finds the chunk over. */
    method WaitChunk(chunk: nat, pace: nat)
      requires Valid() && !midway && 0 < chunk < period / 2 && 1 <= pace <= period / 2
      modifies `time, `flag, `wraps, `midway
      ensures Valid() && !midway && old(time) + chunk <= time < old(time) + chunk + pace
    {
      hide InPeriod;
      var start := Counter();
      CounterDifference(time, time, period);
      while (Counter() - start) % period < chunk
        invariant Valid() && !midway && old(time) <= time < old(time) + chunk + pace
        invariant (Counter() - start) % period == time - old(time)
        decreases old(time) + period - time
      {
        Poll(pace);
        CounterDifference(old(time), time, period);
      }
    }

    /**
      `delay_for`: chunks of less than half a period, the fewest there can be. It is never
      shorter than asked; nor longer, but for the ticks that pass between two polls, once
      a chunk. Polled at every tick it takes exactly the ticks asked for.
     */
    method DelayFor(duration: nat, pace: nat) returns (ghost chunks: nat)
      requires Valid() && !midway && 1 <= pace <= period / 2
      modifies `time, `flag, `wraps, `midway
      ensures Valid() && !midway
      ensures var ticks, longest := DelayTicks(duration, tickHz), period / 2 - 1;
              && ticks <= chunks * longest < ticks + longest
              && old(time) + ticks <= time <= old(time) + ticks + chunks * (pace - 1)
    {
      hide InPeriod, DelayTicks, Repeated;
      var longest := period / 2 - 1;
      var remaining: nat := DelayTicks(duration, tickHz);
      ghost var ticks := remaining;
      chunks := 0;
      Repetition(chunks, longest);
      Repetition(chunks, pace - 1);
      while remaining > 0
        invariant Valid() && !midway && remaining <= ticks
        invariant if remaining > 0 then ticks == remaining + Repeated(chunks, longest)
                  else ticks <= Repeated(chunks, longest) < ticks + longest
        invariant old(time) + ticks <= time + remaining <= old(time) + ticks + Repeated(chunks, pace - 1)
      {
        var chunk := if remaining > longest then longest else remaining;
        WaitChunk(chunk, pace);
        remaining := remaining - chunk;
        Repetition(chunks, longest);
        Repetition(chunks, pace - 1);
        chunks := chunks + 1;
      }
      Repetition(chunks, longest);
      Repetition(chunks, pace - 1);
    }

    /** Any number of calls, at any times: as long as 64 bits hold them, the readings never go backwards. */
    method Readings(n: nat) returns (readings: seq<nat>)
      requires Valid() && !midway
      modifies `time, `flag, `wraps, `midway
      ensures Valid() && |readings| <= n && (|readings| < n ==> wraps + 2 >= U32_LIMIT)
      ensures time * GIGA / tickHz < U64_LIMIT ==>
                forall i, j :: 0 <= i <= j < |readings| ==> readings[i] <= readings[j]
    {
      hide InPeriod, Nanoseconds, TrueReading;
      readings := [];
      ghost var instants: seq<nat> := [];
      while |readings| < n
        invariant Valid() && !midway && |readings| == |instants| <= n
        invariant forall i :: 0 <= i < |instants| ==>
                    readings[i] == Nanoseconds(instants[i], tickHz) && instants[i] <= time
        invariant forall i, j :: 0 <= i <= j < |instants| ==> instants[i] <= instants[j]
      {
        var pause: int := *;
        Elapse(if pause > 0 then time + 1 + pause else time + 1);
        if wraps + 2 >= U32_LIMIT {
          break;
        }
        var reading, instant := Now();
        readings, instants := readings + [reading], instants + [instant];
      }
      if time * GIGA / tickHz < U64_LIMIT {
        forall i, j | 0 <= i <= j < |readings|
          ensures readings[i] <= readings[j]
        {
          DivisionMonotone(instants[j] * GIGA, time * GIGA, tickHz);
          ConversionMonotone(instants[i], instants[j], tickHz);
        }
      }
    }
  }

  /**
    A one-megahertz clock of 16 bits, started, run to its first overflow and read from
    an interrupt that comes between the two steps of the handler. If that call takes
    less than half a period, the reading is not a true one; it is even less than what
    the clock showed half a period before the overflow.
   */
  method ReadBetweenTheSteps() returns (clock: TimerClock, nanoseconds: nat)
    ensures fresh(clock) && clock.midway
    ensures clock.time < 0x1_8000 ==> !TrueReading(nanoseconds, 0x1_0000, clock.time, 1_000_000)
    ensures clock.time < 0x1_8000 ==> nanoseconds < Nanoseconds(0x8000, 1_000_000)
  {
    clock := new TimerClock(1_000_000, false);
    for tick := 0 to 0x1_0000
      invariant fresh(clock) && clock.Valid() && clock.tickHz == 1_000_000 && clock.period == 0x1_0000
      invariant clock.time == tick && clock.wraps == 0 && !clock.midway && (clock.flag <==> tick == 0x1_0000)
    {
      clock.Tick();
    }
    clock.ClearFlag();
    ghost var instant;
    nanoseconds, instant := clock.Now();
  }
}
