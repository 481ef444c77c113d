/**
  Continuous ADC samples handed from an interrupt to a task through a ring that a
  generation counter guards.

  The publisher runs one atomic store at a time and may advance by any number of
  steps between any two loads of a reader. Loads and stores are sequentially
  consistent; words are 32 bits wide, and the generation counter wraps.
 */
module SampleStream {
  import opened Arithmetic
  import opened Bytes
  import opened Rings
  import opened Wrappers

  /** One publication raises the generation twice. */
  const WRAP: nat := U32_LIMIT

  datatype Sample = Sample(raw: nat, time: nat, sequence: nat)
  {
    predicate Valid() { raw < U32_LIMIT && time < U64_LIMIT && sequence < U64_LIMIT }
  }

  /** A ring slot: five separately stored words. */
  datatype Slot = Slot(raw: nat, timeLow: nat, timeHigh: nat, sequenceLow: nat, sequenceHigh: nat)

  function Low(value: nat): nat { value % U32_LIMIT }

  function High(value: nat): nat { value / U32_LIMIT }

  function Join(high: nat, low: nat): nat { high * U32_LIMIT + low }

  function Encoded(s: Sample): Slot {
    Slot(s.raw, Low(s.time), High(s.time), Low(s.sequence), High(s.sequence))
  }

  function Decoded(s: Slot): Sample {
    Sample(s.raw, Join(s.timeHigh, s.timeLow), Join(s.sequenceHigh, s.sequenceLow))
  }

  /** Five words of 32 bits each hold a sample and give it back. */
  lemma EncodedReadsBack(s: Sample)
    ensures Decoded(Encoded(s)) == s
    ensures s.Valid() ==>
              var w := Encoded(s);
              && w.raw < WRAP && w.timeLow < WRAP && w.timeHigh < WRAP
              && w.sequenceLow < WRAP && w.sequenceHigh < WRAP
  {
    WordsOf(s.time);
    WordsOf(s.sequence);
  }

  lemma WordsOf(value: nat)
    ensures Join(High(value), Low(value)) == value && Low(value) < U32_LIMIT
    ensures value < U64_LIMIT ==> High(value) < U32_LIMIT
  {
    assert value == U32_LIMIT * (value / U32_LIMIT) + value % U32_LIMIT;
  }

  /** The generation counter after it was raised `ticks` times. */
  function Wrapped(ticks: nat): nat { ticks % WRAP }

  lemma WrappedNext(ticks: nat)
    ensures Wrapped(ticks + 1) == (Wrapped(ticks) + 1) % WRAP
  {
  }

  /** Equal readings of the generation, fewer than a whole wrap apart, are the same reading. */
  lemma SameReading(t: nat, u: nat)
    requires t <= u
    ensures Wrapped(t) == Wrapped(u) <==> (u - t) % WRAP == 0
    ensures Wrapped(t) == Wrapped(u) && u - t < WRAP ==> t == u
    ensures Wrapped(t) % 2 == t % 2
  {
    var a, b := t / WRAP, u / WRAP;
    assert t == WRAP * a + Wrapped(t) && u == WRAP * b + Wrapped(u);
    if Wrapped(t) == Wrapped(u) {
      QuotientIsUnique(u - t, WRAP, b - a, 0);
    }
  }

  datatype StreamRead = StreamRead(count: nat, dropped: nat)

  datatype StreamError = Overrun | NotReady

  /** Where the publisher is: the store it makes next. */
  datatype Phase = Idle | Entering | Raw | TimeLow | TimeHigh | SequenceLow | SequenceHigh
                 | PublishedLow | PublishedHigh | Leaving
  {
    function Rank(): nat {
      match this
      case Idle => 0 case Entering => 1 case Raw => 2 case TimeLow => 3 case TimeHigh => 4
      case SequenceLow => 5 case SequenceHigh => 6 case PublishedLow => 7 case PublishedHigh => 8 case Leaving => 9
    }

    predicate Inside() { Rank() >= 2 }
  }

  class ContinuousChannel {
    const capacity: nat
    const countsFirst: bool  // the F4 driver computes the count, then copies; the others test before every copy
    const samples: array<Slot>
    var generation: nat
    var publishedLow: nat
    var publishedHigh: nat
    var producedByIsr: nat
    var consumed: nat
    // the publisher's own progress
    var phase: Phase
    var incoming: Sample
    // everything completely published so far, and how often the generation was raised
    ghost var history: seq<Sample>
    ghost var ticks: nat
    // what the consumer was given and what it was told it had missed
    ghost var received: seq<Sample>
    ghost var lost: nat

    ghost predicate InSlot(q: nat)
      requires samples.Length == capacity > 0 && 0 < q <= |history|
      reads `history, samples
    {
      samples[SlotOf(q, capacity)] == Encoded(history[q - 1])
    }

    /** While nothing is being stored, the words describe the newest samples. */
    ghost predicate Settled()
      requires samples.Length == capacity > 0
      reads `history, `publishedLow, `publishedHigh, samples
    {
      && publishedLow == Low(|history|) && publishedHigh == High(|history|)
      && forall q: nat :: 0 < q <= |history| < q + capacity ==> InSlot(q)
    }

    /** While a sample is being stored, the words stored so far are its own. */
    ghost predicate Storing()
      requires samples.Length == capacity > 0
      reads `history, `publishedLow, `publishedHigh, `incoming, `phase, samples
    {
      var target, full := samples[SlotOf(incoming.sequence, capacity)], Encoded(incoming);
      && (forall q: nat :: 0 < q <= |history| && |history| + 1 < q + capacity ==> InSlot(q))
      && (phase.Rank() > 2 ==> target.raw == full.raw)
      && (phase.Rank() > 3 ==> target.timeLow == full.timeLow)
      && (phase.Rank() > 4 ==> target.timeHigh == full.timeHigh)
      && (phase.Rank() > 5 ==> target.sequenceLow == full.sequenceLow)
      && (phase.Rank() > 6 ==> target.sequenceHigh == full.sequenceHigh)
      && (phase.Rank() > 7 ==> publishedLow == Low(incoming.sequence))
      && (phase.Rank() > 8 ==> publishedHigh == High(incoming.sequence))
    }

    ghost predicate Valid()
      reads `generation, `ticks, `history, `phase, `producedByIsr, `incoming, `publishedLow, `publishedHigh, samples
      ensures Valid() ==> capacity > 1 && samples.Length == capacity
      ensures Valid() ==> forall i :: 0 <= i < |history| ==> history[i].sequence == i + 1
    {
      && samples.Length == capacity && capacity > 1
      && generation == Wrapped(ticks) && ticks == 2 * |history| + (if phase.Inside() then 1 else 0)
      && |history| < U64_LIMIT
      && (forall i :: 0 <= i < |history| ==> history[i].Valid() && history[i].sequence == i + 1)
      && producedByIsr == |history| + (if phase.Idle? then 0 else 1)
      && (!phase.Idle? ==> incoming.Valid() && incoming.sequence == |history| + 1)
      && (if phase.Inside() then Storing() else Settled())
    }

    /** The consumer's books: up to `cursor` every sample was delivered or counted as dropped, in order, none twice. */
    ghost predicate Booked(cursor: nat)
      reads `received, `lost, `history
      ensures Booked(cursor) ==> cursor <= |history|
    {
      && cursor == |received| + lost && cursor <= |history|
      && (forall i :: 0 <= i < |received| ==>
            && 0 < received[i].sequence <= cursor
            && received[i] == history[received[i].sequence - 1])
      && (forall i, j :: 0 <= i < j < |received| ==> received[i].sequence < received[j].sequence)
    }

    constructor (capacity: nat, countsFirst: bool)
      requires capacity > 1
      ensures Valid() && Booked(consumed) && this.capacity == capacity && this.countsFirst == countsFirst && fresh(samples)
      ensures history == [] && received == [] && lost == 0
    {
      this.capacity, this.countsFirst := capacity, countsFirst;
      samples := new Slot[capacity](_ => Slot(0, 0, 0, 0, 0));
      generation, publishedLow, publishedHigh, producedByIsr, consumed := 0, 0, 0, 0, 0;
      phase, incoming := Idle, Sample(0, 0, 0);
      history, ticks, received, lost := [], 0, [], 0;
    }

    // ----- the publisher -----

    /** Time has passed: unless the generation was raised, or was odd, no word a reader looks at has changed. */
    twostate predicate Later()
      reads this, samples
    {
      && old(ticks) <= ticks && old(history) <= history
      && (ticks == old(ticks) && ticks % 2 == 0 ==>
            && history == old(history) && samples[..] == old(samples[..])
            && publishedLow == old(publishedLow) && publishedHigh == old(publishedHigh))
      && consumed == old(consumed) && received == old(received) && lost == old(lost)
      && (forall cursor :: old(Booked(cursor)) ==> Booked(cursor))
    }

    /** A new sample arrives while the publisher is idle. */
    method Announce(raw: nat, time: nat)
      requires Valid() && phase.Idle? && raw < U32_LIMIT && time < U64_LIMIT && |history| + 1 < U64_LIMIT
      modifies `producedByIsr, `incoming, `phase
      ensures Valid() && Later() && phase.Entering? && incoming.raw == raw && incoming.time == time
    {
      hide SlotOf, Wrapped, Low, High, Booked;
      producedByIsr := producedByIsr + 1;
      incoming := Sample(raw, time, producedByIsr);
      phase := Entering;
    }

    method Enter()
      requires Valid() && phase.Entering?
      modifies `generation, `ticks, `phase
      ensures Valid() && Later() && phase.Raw? && ticks == old(ticks) + 1
    {
      hide SlotOf, Wrapped, Low, High, Booked;
      WrappedNext(ticks);
      generation := (generation + 1) % WRAP;
      ticks := ticks + 1;
      phase := Raw;
    }

    method StoreWord()
      requires Valid() && 2 <= phase.Rank() <= 6
      modifies `phase, samples
      ensures Valid() && Later() && phase.Rank() == old(phase).Rank() + 1
    {
      hide SlotOf, Wrapped, Low, High, Booked;
      var at := SlotOf(incoming.sequence, capacity);
      forall q: nat | 0 < q <= |history| && |history| + 1 < q + capacity
        ensures SlotOf(q, capacity) != at
      {
        OwnSlot(q, |history| + 1, capacity);
      }
      var word := samples[at];
      samples[at] := match phase
                     case Raw => word.(raw := incoming.raw)
                     case TimeLow => word.(timeLow := Low(incoming.time))
                     case TimeHigh => word.(timeHigh := High(incoming.time))
                     case SequenceLow => word.(sequenceLow := Low(incoming.sequence))
                     case _ => word.(sequenceHigh := High(incoming.sequence));
      phase := match phase
               case Raw => TimeLow
               case TimeLow => TimeHigh
               case TimeHigh => SequenceLow
               case SequenceLow => SequenceHigh
               case _ => PublishedLow;
      forall q: nat | 0 < q <= |history| && |history| + 1 < q + capacity
        ensures InSlot(q)
      {
        assert old(InSlot(q));
      }
    }

    method StorePublished()
      requires Valid() && 7 <= phase.Rank() <= 8
      modifies `phase, `publishedLow, `publishedHigh
      ensures Valid() && Later() && phase.Rank() == old(phase).Rank() + 1
    {
      hide SlotOf, Wrapped, Low, High, Booked;
      if phase.PublishedLow? {
        publishedLow := Low(incoming.sequence);
        phase := PublishedHigh;
      } else {
        publishedHigh := High(incoming.sequence);
        phase := Leaving;
      }
    }

    method Leave()
      requires Valid() && phase.Leaving?
      modifies `generation, `ticks, `phase, `history
      ensures Valid() && Later() && history == old(history) + [incoming] && phase.Idle? && ticks == old(ticks) + 1
    {
      hide SlotOf, Wrapped, Low, High;
      WrappedNext(ticks);
      generation := (generation + 1) % WRAP;
      ticks := ticks + 1;
      history := history + [incoming];
      phase := Idle;
      assert samples[SlotOf(incoming.sequence, capacity)] == Encoded(incoming);
      forall q: nat | 0 < q <= |history| < q + capacity
        ensures InSlot(q)
      {
        if q < |history| {
          assert old(InSlot(q));
        }
      }
    }

    /** One store of `publish_from_isr`, and the last one publishes; when idle, perhaps a new sample. */
    method PublisherStep()
      requires Valid()
      modifies this, samples
      ensures Valid() && Later()
      ensures phase.Rank() == (if old(phase).Leaving? then 0 else old(phase).Rank() + 1) || (old(phase).Idle? && phase.Idle?)
      ensures history == if old(phase).Leaving? then old(history) + [old(incoming)] else old(history)
      ensures !old(phase).Idle? ==> incoming == old(incoming)
    {
      hide SlotOf, Wrapped, Low, High, Settled, Storing;
      match phase
      case Idle =>
        var raw: nat, time: nat := *, *;
        if raw < U32_LIMIT && time < U64_LIMIT && producedByIsr + 1 < U64_LIMIT {
          Announce(raw, time);
        }
      case Entering => Enter();
      case PublishedLow => StorePublished();
      case PublishedHigh => StorePublished();
      case Leaving => Leave();
      case _ => StoreWord();
    }

    /** Whatever the publisher gets done between two loads of a reader. */
    method Elapse()
      requires Valid()
      modifies this, samples
      ensures Valid() && Later()
    {
      hide SlotOf, Wrapped, Low, High, Settled, Storing, Valid;
      var steps: nat := *;
      while steps > 0
        invariant Valid() && Later()
      {
        PublisherStep();
        steps := steps - 1;
      }
    }

    // ----- the readers -----

    /** One load of the generation. An even one is taken between two publications. */
    method LoadGeneration() returns (reading: nat)
      requires Valid()
      modifies this, samples
      ensures Valid() && Later()
      ensures reading == Wrapped(ticks) && reading % 2 == ticks % 2
      ensures ticks % 2 == 0 ==> ticks / 2 == |history|
    {
      hide SlotOf, Wrapped, Settled, Storing;
      Elapse();
      SameReading(ticks, ticks);
      reading := generation;
    }

    /** `published_sequence`: two loads. Whole unless the publisher was active. */
    method LoadPublished() returns (produced: nat)
      requires Valid()
      modifies this, samples
      ensures Valid() && Later()
      ensures ticks == old(ticks) && ticks % 2 == 0 ==> produced == |history|
    {
      hide SlotOf, Wrapped, Storing;
      Elapse();
      var high := publishedHigh;
      Elapse();
      var low := publishedLow;
      produced := Join(high, low);
    }

    /** `load`: five loads. A whole sample unless the publisher was active. */
    method LoadSlot(q: nat) returns (sample: Sample)
      requires Valid()
      modifies this, samples
      ensures Valid() && Later()
      ensures ticks == old(ticks) && ticks % 2 == 0 && 0 < q <= |history| < q + capacity ==> sample == history[q - 1]
    {
      hide SlotOf, Wrapped, Storing, Low, High, Join;
      var at := SlotOf(q, capacity);
      Elapse();
      var timeHigh := samples[at].timeHigh;
      Elapse();
      var timeLow := samples[at].timeLow;
      Elapse();
      var sequenceHigh := samples[at].sequenceHigh;
      Elapse();
      var sequenceLow := samples[at].sequenceLow;
      Elapse();
      sample := Decoded(Slot(samples[at].raw, timeLow, timeHigh, sequenceLow, sequenceHigh));
      if ticks == old(ticks) && ticks % 2 == 0 && 0 < q <= |history| < q + capacity {
        assert InSlot(q);
        EncodedReadsBack(history[q - 1]);
      }
    }

    /**
      `snapshot_latest` and `latest`. If fewer than 2^31 samples were published
      between its two readings of the generation, the sample returned was the newest
      one at an instant inside the call.
     */
    method Latest() returns (r: Result<Sample, StreamError>, ghost start: nat, ghost finish: nat)
      requires Valid()
      modifies this, samples
      ensures Valid() && Later()
      ensures r == Failure(Overrun) ==> ticks > old(ticks) || old(ticks) % 2 == 1
      ensures r != Failure(Overrun) ==> old(ticks) <= start <= finish <= ticks && (finish - start) % WRAP == 0
      ensures r != Failure(Overrun) && finish - start < WRAP ==>
                && start == finish && start % 2 == 0 && start / 2 <= |history|
                && (r == Failure(NotReady) <==> start / 2 == 0)
                && (r.Success? ==> r.value == history[start / 2 - 1] && r.value.sequence == start / 2)
    {
      hide SlotOf, Wrapped, Settled, Storing, Valid, Booked;
      start, finish := 0, 0;
      for attempt := 0 to 3
        invariant Valid() && Later()
        invariant attempt > 0 ==> ticks > old(ticks) || old(ticks) % 2 == 1
      {
        var before := LoadGeneration();
        start := ticks;
        if before % 2 != 0 {
          continue;
        }
        ghost var n := |history|;
        var produced := LoadPublished();
        var value := Sample(0, 0, 0);
        if produced != 0 {
          value := LoadSlot(produced);
        }
        var after := LoadGeneration();
        finish := ticks;
        SameReading(start, finish);
        if before == after {
          return if produced == 0 then Failure(NotReady) else Success(value), start, finish;
        }
      }
      return Failure(Overrun), start, finish;
    }

    // ----- reading the stream -----

    /**
      What a successful read of the stream means, for the `n` samples published when it
      looked: skipped are those that have left the ring and no others, delivered are the
      next ones, as many as there are and fit.
     */
    ghost predicate Delivered(n: nat, consumedBefore: nat, room: nat, read: StreamRead, output: seq<Sample>)
      reads this
    {
      && consumedBefore <= n <= |history|
      && read.dropped == (if n > consumedBefore + capacity then n - capacity - consumedBefore else 0)
      && read.count == |output| <= room
      && var from := consumedBefore + read.dropped;
         && consumed == from + read.count <= n && (read.count == room || consumed == n)
         && output == history[from..consumed]
    }

    /** Sample `q` is skipped exactly if it has left the ring; nothing is while the ring holds all that is unread. */
    lemma SkippedHaveLeft(n: nat, consumedBefore: nat, room: nat, read: StreamRead, output: seq<Sample>, q: nat)
      requires Delivered(n, consumedBefore, room, read, output) && consumedBefore < q <= n
      ensures q <= consumedBefore + read.dropped <==> q + capacity <= n
      ensures n <= consumedBefore + capacity ==> read.dropped == 0
      ensures n <= consumedBefore + capacity && n <= consumedBefore + room ==> output == history[consumedBefore..n]
    {
    }

    /** Books the outcome of a read that was not torn. */
    ghost method Book(n: nat, consumedBefore: nat, room: nat, read: StreamRead, output: seq<Sample>)
      requires Valid() && Delivered(n, consumedBefore, room, read, output)
      requires Booked(consumedBefore)
      modifies `received, `lost
      ensures Valid() && Booked(consumed) && Delivered(n, consumedBefore, room, read, output)
      ensures received == old(received) + output && lost == old(lost) + read.dropped
    {
      hide SlotOf, Wrapped, Settled, Storing, Valid;
      received := received + output;
      lost := lost + read.dropped;
    }

    /** Unless the publisher was active, the copies are the published samples. */
    twostate predicate Copied(first: nat, produced: nat, output: array<Sample>, count: nat)
      requires count <= output.Length
      reads this, output
    {
      ticks == old(ticks) && ticks % 2 == 0 && produced == |history|
      && 0 < first <= produced + 1 && produced < first + capacity
      ==> (first - 1 + count <= |history| && output[..count] == history[first - 1..first - 1 + count])
    }

    /** The copy loop of `try_read`: until the stream or the buffer ends. */
    method CopyOut(first: nat, produced: nat, output: array<Sample>) returns (count: nat)
      requires Valid()
      modifies this, samples, output
      ensures Valid() && Later()
      ensures count <= output.Length && (count > 0 ==> first + count <= produced + 1)
      ensures count == output.Length || first + count > produced
      ensures Copied(first, produced, output, count)
    {
      hide SlotOf, Wrapped, Settled, Storing, Valid, Booked;
      var next := first;
      count := 0;
      while next <= produced && count < output.Length
        invariant Valid() && Later()
        invariant next == first + count && count <= output.Length && (count > 0 ==> next <= produced + 1)
        invariant Copied(first, produced, output, count)
        decreases output.Length - count
      {
        var sample := LoadSlot(next);
        output[count] := sample;
        next := next + 1;
        count := count + 1;
      }
    }

    /** The same copy with the count worked out first. */
    method CopyCounted(first: nat, produced: nat, output: array<Sample>) returns (count: nat)
      requires Valid()
      modifies this, samples, output
      ensures Valid() && Later()
      ensures count <= output.Length && (count > 0 ==> first + count <= produced + 1)
      ensures count == output.Length || first + count > produced
      ensures Copied(first, produced, output, count)
    {
      hide SlotOf, Wrapped, Settled, Storing, Valid, Booked;
      var available := if produced >= first then produced - first + 1 else 0;
      count := if output.Length < available then output.Length else available;
      for i := 0 to count
        invariant Valid() && Later()
        invariant Copied(first, produced, output, i)
      {
        var sample := LoadSlot(first + i);
        output[i] := sample;
      }
    }

    method Copy(first: nat, produced: nat, output: array<Sample>) returns (count: nat)
      requires Valid()
      modifies this, samples, output
      ensures Valid() && Later()
      ensures count <= output.Length && (count > 0 ==> first + count <= produced + 1)
      ensures count == output.Length || first + count > produced
      ensures Copied(first, produced, output, count)
    {
      hide Valid, Booked;
      if countsFirst {
        count := CopyCounted(first, produced, output);
      } else {
        count := CopyOut(first, produced, output);
      }
    }

    /** How far the stream has come, and what the consumer has lost to the ring. */
    method Position() returns (produced: nat, next: nat, dropped: nat)
      requires Valid()
      modifies this, samples
      ensures Valid() && Later()
      ensures next == consumed + 1 + dropped
      ensures dropped == if produced > consumed + capacity then produced - capacity - consumed else 0
      ensures ticks == old(ticks) && ticks % 2 == 0 ==> produced == |history|
    {
      hide Valid, Booked;
      produced := LoadPublished();
      next := consumed + 1;
      dropped := 0;
      if produced >= next && produced - next >= capacity {
        var oldest := produced - capacity + 1;
        dropped := oldest - next;
        next := oldest;
      }
    }

    /** One round of `try_read`: nothing if a publication was seen to overlap. */
    method Attempt(output: array<Sample>) returns (r: Option<StreamRead>, ghost start: nat, ghost finish: nat)
      requires Valid() && Booked(consumed)
      modifies this, samples, output
      ensures Valid() && old(history) <= history && old(ticks) <= ticks
      ensures r.None? ==> Later() && (ticks > old(ticks) || old(ticks) % 2 == 1)
      ensures r.Some? ==> old(ticks) <= start <= finish <= ticks && (finish - start) % WRAP == 0
      ensures r.Some? && finish - start < WRAP ==> Went(start, r.value, output)
      ensures r.Some? && finish - start < WRAP ==> start == finish
    {
      hide SlotOf, Wrapped, Settled, Storing, Valid, Booked;
      start, finish := 0, 0;
      var before := LoadGeneration();
      start := ticks;
      if before % 2 != 0 {
        return None, start, finish;
      }
      ghost var n := |history|;
      var produced, next, dropped := Position();
      var count := Copy(next, produced, output);
      var after := LoadGeneration();
      finish := ticks;
      SameReading(start, finish);
      if before != after {
        return None, start, finish;
      }
      consumed := next + count - 1;
      r := Some(StreamRead(count, dropped));
      if start == finish {
        Book(n, old(consumed), output.Length, r.value, output[..count]);
      }
    }

    twostate predicate Went(start: nat, read: StreamRead, output: array<Sample>)
      reads this, output
    {
      && start % 2 == 0 && read.count <= output.Length
      && Delivered(start / 2, old(consumed), output.Length, read, output[..read.count])
      && Booked(consumed)
      && received == old(received) + output[..read.count] && lost == old(lost) + read.dropped
    }

    /**
      `try_read`: up to three rounds. A success that fewer than 2^31 publications
      overlapped delivers exactly the oldest unread samples still in the ring, whole
      and in order, and reports exactly the ones it skipped; the books stay balanced.
     */
    method TryRead(output: array<Sample>)
      returns (r: Result<StreamRead, StreamError>, ghost start: nat, ghost finish: nat)
      requires Valid() && Booked(consumed)
      modifies this, samples, output
      ensures Valid() && old(history) <= history && old(ticks) <= ticks
      ensures r.Failure? ==> r.error == Overrun && (ticks > old(ticks) || old(ticks) % 2 == 1)
      ensures r.Failure? ==> Later() && Booked(consumed)
      ensures r.Success? ==> old(ticks) <= start <= finish <= ticks && (finish - start) % WRAP == 0
      ensures r.Success? && finish - start < WRAP ==> start == finish && Went(start, r.value, output)
    {
      hide SlotOf, Wrapped, Settled, Storing, Valid, Booked;
      start, finish := 0, 0;
      for attempt := 0 to 3
        invariant Valid() && Later()
        invariant attempt > 0 ==> ticks > old(ticks) || old(ticks) % 2 == 1
      {
        var read;
        read, start, finish := Attempt(output);
        if read.Some? {
          return Success(read.value), start, finish;
        }
      }
      r := Failure(Overrun);
    }
  }
}
