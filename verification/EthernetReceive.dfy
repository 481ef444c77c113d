/**
  The receive half of the Ethernet MAC: the engine owns empty buffers, fills one per
  arrival and gives it to the driver, which hands the emptied buffer back.

  The engine runs between any two accesses of the driver. It leaves the buffer
  pointer of a descriptor alone; memory is coherent and sequentially consistent.
 */
module EthernetReceive {
  import opened Bytes
  import opened EthernetSetup
  import opened Rings
  import opened Wrappers
  import opened EthernetTransmit

  /** The status word the engine writes back, and the ownership bit in it. */
  datatype Status = Status(own: bool, first: bool, last: bool, error: bool, length: nat)

  datatype RxDescriptor = RxDescriptor(buffer: nat, status: Status)

  /** What arrived in one buffer. A whole, undamaged frame that fits has `length` bytes. */
  datatype Arrival = Arrival(bytes: seq<byte>, first: bool, last: bool, error: bool, length: nat)
  {
    predicate Good(bufferSize: nat) { !error && first && last && length <= bufferSize }

    predicate Possible(bufferSize: nat) {
      |bytes| <= bufferSize && length <= 0x7FFF && (Good(bufferSize) ==> |bytes| == length)
    }

    function WrittenBack(): Status { Status(false, first, last, error, length) }
  }

  /** What the driver made of an arrival. */
  datatype Fate = Delivered(bytes: seq<byte>) | Damaged | TooLarge

  datatype Received = Received(available: bool, size: nat)

  const OWNED: Status := Status(true, false, false, false, 0)

  class Receiver {
    const slots: nat
    const bufferSize: nat
    const maximumFrame: nat
    const descriptors: array<RxDescriptor>
    const memory: array<byte>
    var initialized: bool
    var index: nat
    // the engine: its current slot, what is arriving there and how much of it is stored
    var dmaIndex: nat
    var arriving: Option<Arrival>
    var stored: nat
    // everything that arrived, and what the driver made of it so far
    ghost var arrived: seq<Arrival>
    ghost var fates: seq<Fate>

    ghost predicate Shaped() {
      && slots > 0 && bufferSize <= LENGTH_MASK
      && descriptors.Length == slots && memory.Length == BufferAt(slots, bufferSize)
    }

    /** Arrival `k` waits in its slot, whole, and belongs to the driver. */
    ghost predicate Waiting(k: nat)
      requires Shaped() && k < |arrived|
      reads `arrived, descriptors, memory
    {
      var slot := SlotOf(k, slots);
      BufferFits(slot, slots, bufferSize);
      var start := BufferAt(slot, bufferSize);
      && descriptors[slot].status == arrived[k].WrittenBack() && arrived[k].Possible(bufferSize)
      && memory[start..start + |arrived[k].bytes|] == arrived[k].bytes
    }

    ghost predicate Empty(k: nat)
      requires Shaped()
      reads descriptors
    {
      descriptors[SlotOf(k, slots)].status.own
    }

    /** While a frame arrives, the bytes stored so far are its own. */
    ghost predicate Arriving()
      requires Shaped() && dmaIndex < slots
      reads `dmaIndex, `arriving, `stored, memory
    {
      BufferFits(dmaIndex, slots, bufferSize);
      var start := BufferAt(dmaIndex, bufferSize);
      arriving.None? || (&& arriving.value.Possible(bufferSize) && stored <= |arriving.value.bytes|
                         && memory[start..start + stored] == arriving.value.bytes[..stored])
    }

    /** Every arrival taken by the driver met exactly one fate, the right one, in order. */
    ghost predicate Settled()
      reads `arrived, `fates
    {
      && |fates| <= |arrived|
      && forall k :: 0 <= k < |fates| ==>
           && (fates[k].Damaged? <==> !arrived[k].Good(bufferSize))
           && (fates[k].Delivered? ==> fates[k].bytes == arrived[k].bytes)
    }

    ghost predicate Ring()
      reads `dmaIndex, `arriving, `stored, `arrived, `fates, descriptors, memory
    {
      && Shaped() && Settled()
      && |arrived| <= |fates| + slots && dmaIndex == SlotOf(|arrived|, slots)
      && (forall i :: 0 <= i < slots ==> descriptors[i].buffer == BufferAt(i, bufferSize))
      && (forall k: nat :: |fates| <= k < |arrived| ==> Waiting(k))
      && (forall k: nat :: |arrived| <= k < |fates| + slots ==> Empty(k))
      && Arriving() && (arriving.Some? ==> |arrived| < |fates| + slots)
    }

    ghost predicate Valid()
      reads this, descriptors, memory
    {
      Ring() && index == SlotOf(|fates|, slots)
    }

    /** Nothing is promised before `Initialize`. */
    ghost predicate Ready()
      reads this, descriptors, memory
    {
      Sized() && (initialized ==> Valid())
    }

    predicate Sized() {
      slots > 0 && descriptors.Length == slots && memory.Length == BufferAt(slots, bufferSize)
    }

    constructor (slots: nat, bufferSize: nat, maximumFrame: nat)
      requires slots > 0
      ensures Ready() && !initialized && index == 0 && fresh(descriptors) && fresh(memory)
      ensures this.slots == slots && this.bufferSize == bufferSize && this.maximumFrame == maximumFrame
    {
      this.slots, this.bufferSize, this.maximumFrame := slots, bufferSize, maximumFrame;
      descriptors := new RxDescriptor[slots](_ => RxDescriptor(0, OWNED.(own := false)));
      memory := new byte[BufferAt(slots, bufferSize)](_ => 0);
      initialized, index, dmaIndex, arriving, stored, arrived, fates := false, 0, 0, None, 0, [], [];
    }

    /**
      The receive part of `initialize`, called at any time: every buffer goes to the
      engine, which starts at the first one; the driver goes on where it was. They are
      in step if and only if that is the first one too.
     */
    method Initialize(setup: Setup, busyPolls: nat) returns (r: Outcome<MacError>)
      requires Sized()
      requires setup.rxCount == slots && setup.bufferSize == bufferSize && setup.maximumFrame == maximumFrame
      modifies this, descriptors
      ensures r == if setup.Acceptable() && busyPolls < setup.iterations then Pass else Fail(Io)
      ensures r.Fail? ==> unchanged(this) && unchanged(descriptors)
      ensures r.Pass? ==> initialized && Ring() && arrived == [] && fates == [] && index == old(index)
      ensures r.Pass? ==> (Valid() <==> index == 0)
      ensures r.Pass? && old(Valid()) ==> (Valid() <==> SlotOf(|old(fates)|, slots) == 0)
    {
      hide SlotOf, BufferAt;
      var prepared := Prepare(setup, busyPolls);
      if !prepared {
        return Fail(Io);
      }
      for i := 0 to slots
        modifies descriptors
        invariant forall j :: 0 <= j < i ==> descriptors[j] == RxDescriptor(BufferAt(j, bufferSize), OWNED)
      {
        descriptors[i] := RxDescriptor(BufferAt(i, bufferSize), OWNED);
      }
      FirstSlot(slots);
      dmaIndex, arriving, stored, arrived, fates := 0, None, 0, [], [];
      initialized := true;
      return Pass;
    }

    // ----- the engine -----

    /** Something begins to arrive; the engine must own a buffer for it. */
    method Begin(a: Arrival)
      requires Ring() && arriving.None? && descriptors[dmaIndex].status.own && a.Possible(bufferSize)
      modifies `arriving, `stored
      ensures Ring()
    {
      hide SlotOf, BufferAt, Waiting, Empty;
      Room();
      BufferFits(dmaIndex, slots, bufferSize);
      arriving, stored := Some(a), 0;
    }

    /** The engine owns its current buffer exactly while not all are waiting for the driver. */
    lemma Room()
      requires Ring()
      ensures descriptors[dmaIndex].status.own <==> |arrived| < |fates| + slots
    {
      hide SlotOf, BufferAt;
      if |arrived| == |fates| + slots {
        SameSlot(|fates|, slots);
        assert Waiting(|fates|);
      } else {
        assert Empty(|arrived|);
      }
    }

    method Store()
      requires Ring() && arriving.Some? && stored < |arriving.value.bytes|
      modifies `stored, memory
      ensures Ring()
    {
      hide SlotOf, BufferAt, Empty;
      var start := BufferAt(dmaIndex, bufferSize);
      BufferFits(dmaIndex, slots, bufferSize);
      forall k: nat | |fates| <= k < |arrived|
        ensures SlotOf(k, slots) != dmaIndex
      {
        OwnSlot(k, |arrived|, slots);
      }
      memory[start + stored] := arriving.value.bytes[stored];
      stored := stored + 1;
      forall k: nat | |fates| <= k < |arrived|
        ensures Waiting(k)
      {
        assert old(Waiting(k));
        BuffersApart(SlotOf(k, slots), dmaIndex, bufferSize);
        BufferFits(SlotOf(k, slots), slots, bufferSize);
      }
    }

    /** The arrival is complete: status written back, buffer given to the driver. */
    method Complete()
      requires Ring() && arriving.Some? && stored == |arriving.value.bytes|
      modifies `dmaIndex, `arriving, `stored, `arrived, descriptors
      ensures Ring() && arrived == old(arrived) + [old(arriving).value]
    {
      hide SlotOf, BufferAt;
      ghost var n := |arrived|;
      NextSlot(n, slots);
      forall k: nat | |fates| <= k < |fates| + slots && k != n
        ensures SlotOf(k, slots) != dmaIndex
      {
        if k < n {
          OwnSlot(k, n, slots);
        } else {
          OwnSlot(n, k, slots);
        }
      }
      descriptors[dmaIndex] := descriptors[dmaIndex].(status := arriving.value.WrittenBack());
      arrived := arrived + [arriving.value];
      arriving, stored := None, 0;
      dmaIndex := (dmaIndex + 1) % slots;
      forall k: nat | |fates| <= k < |arrived|
        ensures Waiting(k)
      {
        if k < n {
          assert old(Waiting(k));
        }
      }
      forall k: nat | |arrived| <= k < |fates| + slots
        ensures Empty(k)
      {
        assert old(Empty(k));
      }
    }

    method DmaStep()
      requires Ring()
      modifies `dmaIndex, `arriving, `stored, `arrived, descriptors, memory
      ensures Ring() && old(arrived) <= arrived
    {
      hide SlotOf, BufferAt, Waiting, Empty;
      if arriving.Some? {
        if stored < |arriving.value.bytes| {
          Store();
        } else {
          Complete();
        }
      } else if descriptors[dmaIndex].status.own {
        var a: Arrival := *;
        if a.Possible(bufferSize) {
          Begin(a);
        }
      }
    }

    /** Whatever the engine gets done between two accesses of the driver. */
    method Elapse()
      requires Ring()
      modifies `dmaIndex, `arriving, `stored, `arrived, descriptors, memory
      ensures Ring() && old(arrived) <= arrived
    {
      hide *;
      var steps: nat := *;
      while steps > 0
        invariant Ring() && old(arrived) <= arrived
      {
        DmaStep();
        steps := steps - 1;
      }
    }

    // ----- the driver -----

    /** The next buffer is the driver's exactly when something waits in it, and its status then stands. */
    lemma NextWaiting()
      requires Valid()
      ensures descriptors[index].status.own <==> |fates| == |arrived|
      ensures |fates| < |arrived| ==> descriptors[index].status == arrived[|fates|].WrittenBack() && Waiting(|fates|)
    {
      hide SlotOf, BufferAt;
      if |fates| == |arrived| {
        assert Empty(|arrived|);
      } else {
        assert Waiting(|fates|);
      }
    }

    /** `recycle_rx`: the buffer goes back to the engine, then the driver moves on. */
    method RecycleRx(ghost fate: Fate)
      requires Valid() && |fates| < |arrived|
      requires fate.Damaged? <==> !arrived[|fates|].Good(bufferSize)
      requires fate.Delivered? ==> fate.bytes == arrived[|fates|].bytes
      modifies `index, `fates, `dmaIndex, `arriving, `stored, `arrived, descriptors, memory
      ensures Valid() && old(arrived) <= arrived && fates == old(fates) + [fate]
    {
      hide SlotOf, BufferAt, Waiting, Empty;
      HandBack(fate);
      Elapse();
      NextSlot(|old(fates)|, slots);
      index := (index + 1) % slots;
    }

    method HandBack(ghost fate: Fate)
      requires Valid() && |fates| < |arrived|
      requires fate.Damaged? <==> !arrived[|fates|].Good(bufferSize)
      requires fate.Delivered? ==> fate.bytes == arrived[|fates|].bytes
      modifies `fates, descriptors
      ensures Ring() && fates == old(fates) + [fate]
    {
      hide SlotOf, BufferAt;
      ghost var n := |fates|;
      SameSlot(n, slots);
      forall k: nat | n < k < n + slots
        ensures SlotOf(k, slots) != index
      {
        OwnSlot(n, k, slots);
      }
      descriptors[index] := descriptors[index].(status := OWNED);
      fates := fates + [fate];
      forall k: nat | |fates| <= k < |arrived|
        ensures Waiting(k)
      {
        assert old(Waiting(k));
      }
      forall k: nat | |arrived| <= k < |fates| + slots
        ensures Empty(k)
      {
        if k < n + slots {
          assert old(Empty(k));
        }
      }
    }

    /** The copy loop of `try_receive`. */
    method CopyOut(output: array<byte>, size: nat)
      requires Valid() && |fates| < |arrived| && size == |arrived[|fates|].bytes| <= output.Length && output != memory
      modifies output, `dmaIndex, `arriving, `stored, `arrived, descriptors, memory
      ensures Valid() && old(arrived) <= arrived && output[..size] == arrived[|fates|].bytes
    {
      hide SlotOf, BufferAt, Empty;
      BufferFits(index, slots, bufferSize);
      var start := BufferAt(index, bufferSize);
      for i := 0 to size
        invariant Valid() && old(arrived) <= arrived
        invariant output[..i] == arrived[|fates|].bytes[..i]
      {
        Elapse();
        assert Waiting(|fates|);
        assert memory[start + i] == memory[start..start + size][i];
        output[i] := memory[start + i];
      }
    }

    /**
      `try_receive`: arrivals are taken in order, each once: delivered whole and
      unchanged, or reported as exactly one error.
     */
    method TryReceive(output: array<byte>) returns (r: Result<Received, MacError>)
      requires Ready() && output != memory
      modifies `index, `fates, `dmaIndex, `arriving, `stored, `arrived, descriptors, memory, output
      ensures Ready() && old(arrived) <= arrived
      ensures !initialized ==> r == Failure(Io) && fates == old(fates)
      ensures r == Success(Received(false, 0)) ==> fates == old(fates) && |fates| == |old(arrived)|
      ensures r.Success? && r.value.available ==>
                && r.value.size <= output.Length && fates == old(fates) + [Delivered(output[..r.value.size])]
                && |old(fates)| < |arrived| && output[..r.value.size] == arrived[|old(fates)|].bytes
      ensures r.Success? && r.value.available ==>
                var a := arrived[|old(fates)|];
                !a.error && a.first && a.last && a.length == r.value.size <= bufferSize
      ensures r.Success? && !r.value.available ==> r.value.size == 0
      ensures initialized && r == Failure(Io) ==>
                && fates == old(fates) + [Damaged] && |old(fates)| < |arrived|
                && var a := arrived[|old(fates)|]; a.error || !a.first || !a.last || a.length > bufferSize
      ensures r == Failure(FrameTooLarge) ==>
                && fates == old(fates) + [TooLarge] && |old(fates)| < |arrived|
                && var a := arrived[|old(fates)|];
                   !a.error && a.first && a.last && output.Length < a.length <= bufferSize
    {
      hide SlotOf, BufferAt, Waiting, Empty;
      if !initialized {
        return Failure(Io);
      }
      Elapse();
      NextWaiting();
      if descriptors[index].status.own {
        return Success(Received(false, 0));
      }
      Elapse();
      NextWaiting();
      var status := descriptors[index].status;
      var size := status.length;
      if status.error || !(status.first && status.last) || size > bufferSize {
        RecycleRx(Damaged);
        return Failure(Io);
      }
      if output.Length < size {
        RecycleRx(TooLarge);
        return Failure(FrameTooLarge);
      }
      WaitingIsPossible();
      CopyOut(output, size);
      RecycleRx(Delivered(output[..size]));
      return Success(Received(true, size));
    }

    lemma WaitingIsPossible()
      requires Valid() && |fates| < |arrived|
      ensures arrived[|fates|].Possible(bufferSize)
    {
      assert Waiting(|fates|);
    }
  }
}
