/**
  The transmit half of the Ethernet MAC: a ring of descriptors whose ownership bit
  passes between the processor and a DMA engine that may run between any two stores.

  Memory is coherent and sequentially consistent. The engine follows ownership: it
  reads the frame of its current descriptor byte by byte, sends it and gives the
  descriptor back.
 */
module EthernetTransmit {
  import opened Arithmetic
  import opened Bytes
  import opened EthernetSetup
  import opened Rings
  import opened Wrappers

  datatype Descriptor = Descriptor(buffer: nat, length: nat, own: bool)

  datatype MacError = Io | FrameTooLarge

  lemma BufferFits(slot: nat, slots: nat, bufferSize: nat)
    requires slot < slots
    ensures BufferAt(slot, bufferSize) + bufferSize <= BufferAt(slots, bufferSize)
  {
    if bufferSize > 0 {
      assert slot * bufferSize + bufferSize == (slot + 1) * bufferSize;
      if slot + 1 < slots {
        Grows(bufferSize, slot + 1, slots);
      }
    }
  }

  lemma BuffersApart(a: nat, b: nat, bufferSize: nat)
    requires a != b
    ensures BufferAt(a, bufferSize) + bufferSize <= BufferAt(b, bufferSize)
         || BufferAt(b, bufferSize) + bufferSize <= BufferAt(a, bufferSize)
  {
    if a < b {
      BufferFits(a, b, bufferSize);
    } else {
      BufferFits(b, a, bufferSize);
    }
  }

  class Transmitter {
    const slots: nat
    const bufferSize: nat
    const maximumFrame: nat
    const descriptors: array<Descriptor>
    const memory: array<byte>
    var initialized: bool
    var index: nat
    // the engine: its current slot and what it has read of the frame there
    var dmaIndex: nat
    var fetched: seq<byte>
    var wire: seq<seq<byte>>
    // every frame the driver accepted
    ghost var accepted: seq<seq<byte>>

    ghost predicate Shaped() {
      && slots > 0 && maximumFrame <= bufferSize <= LENGTH_MASK
      && descriptors.Length == slots && memory.Length == BufferAt(slots, bufferSize)
    }

    /** Position `k` of the frame stream waits in its slot, exactly as accepted. */
    ghost predicate Queued(k: nat)
      requires Shaped() && k < |accepted|
      reads `accepted, descriptors, memory
    {
      var slot := SlotOf(k, slots);
      BufferFits(slot, slots, bufferSize);
      var d, start := descriptors[slot], BufferAt(slot, bufferSize);
      && d.own && d.buffer == start && d.length == |accepted[k]| <= bufferSize
      && memory[start..start + d.length] == accepted[k]
    }

    ghost predicate Free(k: nat)
      requires Shaped()
      reads descriptors
    {
      !descriptors[SlotOf(k, slots)].own
    }

    /**
      The descriptors the engine owns are one cyclic run, from its own position up to
      the newest frame, and hold the accepted frames that have not been sent, in order.
     */
    ghost predicate Ring()
      reads `dmaIndex, `fetched, `wire, `accepted, descriptors, memory
    {
      && Shaped()
      && |wire| <= |accepted| <= |wire| + slots
      && wire == accepted[..|wire|] && dmaIndex == SlotOf(|wire|, slots)
      && (forall k: nat :: |wire| <= k < |accepted| ==> Queued(k))
      && (forall k: nat :: |accepted| <= k < |wire| + slots ==> Free(k))
      && (if |wire| < |accepted| then fetched <= accepted[|wire|] else fetched == [])
    }

    /** Between calls the driver's index is just behind the newest frame. */
    ghost predicate Valid()
      reads this, descriptors, memory
    {
      Ring() && index == SlotOf(|accepted|, slots)
    }

    /** Nothing is promised before `Initialize`. */
    ghost predicate Ready()
      reads this, descriptors, memory
    {
      Sized() && (initialized ==> Valid())
    }

    predicate Sized() {
      slots > 0 && descriptors.Length == slots && memory.Length == BufferAt(slots, bufferSize)
    }

    constructor (slots: nat, bufferSize: nat, maximumFrame: nat)
      requires slots > 0
      ensures Ready() && !initialized && index == 0 && fresh(descriptors) && fresh(memory)
      ensures this.slots == slots && this.bufferSize == bufferSize && this.maximumFrame == maximumFrame
    {
      this.slots, this.bufferSize, this.maximumFrame := slots, bufferSize, maximumFrame;
      descriptors := new Descriptor[slots](_ => Descriptor(0, 0, false));
      memory := new byte[BufferAt(slots, bufferSize)](_ => 0);
      initialized, index, dmaIndex, fetched, wire, accepted := false, 0, 0, [], [], [];
    }

    /**
      The transmit part of `initialize`, called at any time: exactly an acceptable setup
      whose engine resets in time is taken. The engine then starts at the first
      descriptor and the books are begun anew, but the driver's index stays where it
      was: the ring is in step if and only if that is the first descriptor too, that is
      if a whole number of rings has been accepted since the last time.
     */
    method Initialize(setup: Setup, busyPolls: nat) returns (r: Outcome<MacError>)
      requires Sized()
      requires setup.txCount == slots && setup.bufferSize == bufferSize && setup.maximumFrame == maximumFrame
      modifies this, descriptors
      ensures r == if setup.Acceptable() && busyPolls < setup.iterations then Pass else Fail(Io)
      ensures r.Fail? ==> unchanged(this) && unchanged(descriptors)
      ensures r.Pass? ==> initialized && Ring() && accepted == [] && wire == [] && index == old(index)
      ensures r.Pass? ==> (Valid() <==> index == 0)
      ensures r.Pass? && old(Valid()) ==> (Valid() <==> SlotOf(|old(accepted)|, slots) == 0)
    {
      hide SlotOf, BufferAt;
      var prepared := Prepare(setup, busyPolls);
      if !prepared {
        return Fail(Io);
      }
      for i := 0 to slots
        modifies descriptors
        invariant forall j :: 0 <= j < i ==> !descriptors[j].own
      {
        descriptors[i] := Descriptor(BufferAt(i, bufferSize), 0, false);
      }
      FirstSlot(slots);
      dmaIndex, fetched, wire, accepted := 0, [], [], [];
      initialized := true;
      return Pass;
    }

    /** The engine reads one more byte of the frame it is sending. */
    method Fetch()
      requires Ring() && |wire| < |accepted| && |fetched| < descriptors[dmaIndex].length
      modifies `fetched
      ensures Ring()
    {
      hide SlotOf, BufferAt;
      var d := descriptors[dmaIndex];
      assert Queued(|wire|);
      BufferFits(dmaIndex, slots, bufferSize);
      assert memory[d.buffer + |fetched|] == memory[d.buffer..d.buffer + d.length][|fetched|];
      fetched := fetched + [memory[d.buffer + |fetched|]];
    }

    /** The frame is out; its descriptor goes back to the driver. */
    method Finish()
      requires Ring() && |wire| < |accepted| && |fetched| >= descriptors[dmaIndex].length
      modifies `dmaIndex, `fetched, `wire, descriptors
      ensures Ring() && wire == old(wire) + [old(accepted)[|old(wire)|]]
      ensures forall i :: 0 <= i < slots && !old(descriptors[i].own) ==> descriptors[i] == old(descriptors[i])
    {
      hide SlotOf, BufferAt;
      assert Queued(|wire|);
      ghost var sent := |wire|;
      NextSlot(sent, slots);
      SameSlot(sent, slots);
      forall k: nat | sent < k < sent + slots
        ensures SlotOf(k, slots) != dmaIndex
      {
        OwnSlot(sent, k, slots);
      }
      assert fetched == accepted[sent];
      wire := wire + [fetched];
      fetched := [];
      descriptors[dmaIndex] := descriptors[dmaIndex].(own := false);
      dmaIndex := (dmaIndex + 1) % slots;
      forall k: nat | sent < k < |accepted|
        ensures Queued(k)
      {
        assert old(Queued(k));
      }
      forall k: nat | |accepted| <= k < |wire| + slots
        ensures Free(k)
      {
        if k < sent + slots {
          assert old(Free(k));
        }
      }
    }

    /** One step of the engine, if it owns its current descriptor. */
    method DmaStep()
      requires Ring()
      modifies `dmaIndex, `fetched, `wire, descriptors
      ensures Ring() && old(wire) <= wire
      ensures forall i :: 0 <= i < slots && !old(descriptors[i].own) ==> descriptors[i] == old(descriptors[i])
    {
      hide SlotOf, BufferAt, Queued, Free;
      if !descriptors[dmaIndex].own {
        return;
      }
      if |wire| == |accepted| {
        WholeRing();
      }
      if |fetched| < descriptors[dmaIndex].length {
        Fetch();
      } else {
        Finish();
      }
    }

    lemma WholeRing()
      requires Ring() && |wire| == |accepted|
      ensures !descriptors[dmaIndex].own
    {
      assert Free(|accepted|);
    }

    /** Whatever the engine gets done between two accesses of the driver. */
    method Elapse()
      requires Ring()
      modifies `dmaIndex, `fetched, `wire, descriptors
      ensures Ring() && old(wire) <= wire
      ensures forall i :: 0 <= i < slots && !old(descriptors[i].own) ==> descriptors[i] == old(descriptors[i])
    {
      hide SlotOf, BufferAt, Queued, Free;
      var steps: nat := *;
      while steps > 0
        invariant Ring() && old(wire) <= wire
        invariant forall i :: 0 <= i < slots && !old(descriptors[i].own) ==> descriptors[i] == old(descriptors[i])
      {
        DmaStep();
        steps := steps - 1;
      }
    }

    /** A store into the buffer of a slot the engine does not own disturbs no queued frame. */
    method StoreByte(slot: nat, i: nat, b: byte)
      requires Ring() && slot < slots && !descriptors[slot].own && i < bufferSize
      requires BufferAt(slot, bufferSize) + i < memory.Length
      modifies memory
      ensures Ring()
      ensures memory[..] == old(memory[..])[BufferAt(slot, bufferSize) + i := b]
    {
      hide SlotOf, BufferAt, Free;
      memory[BufferAt(slot, bufferSize) + i] := b;
      forall k: nat | |wire| <= k < |accepted|
        ensures Queued(k)
      {
        assert old(Queued(k));
        BuffersApart(SlotOf(k, slots), slot, bufferSize);
        BufferFits(SlotOf(k, slots), slots, bufferSize);
      }
    }

    /** A store into a descriptor the engine does not own. */
    method StoreWord(slot: nat, d: Descriptor)
      requires Ring() && slot < slots && !descriptors[slot].own && !d.own
      modifies descriptors
      ensures Ring() && descriptors[slot] == d
    {
      hide SlotOf, BufferAt;
      descriptors[slot] := d;
      forall k: nat | |wire| <= k < |accepted|
        ensures Queued(k)
      {
        assert old(Queued(k));
      }
      forall k: nat | |accepted| <= k < |wire| + slots
        ensures Free(k)
      {
        assert old(Free(k));
      }
    }

    /** Setting the ownership bit hands the frame over, all at once. */
    method HandOver(slot: nat, frame: seq<byte>)
      requires Ring() && slot == SlotOf(|accepted|, slots) && !descriptors[slot].own
      requires |frame| <= bufferSize && BufferAt(slot, bufferSize) + bufferSize <= memory.Length
      requires descriptors[slot].buffer == BufferAt(slot, bufferSize) && descriptors[slot].length == |frame|
      requires memory[BufferAt(slot, bufferSize)..BufferAt(slot, bufferSize) + |frame|] == frame
      modifies descriptors, `accepted
      ensures Ring() && accepted == old(accepted) + [frame]
    {
      hide SlotOf, BufferAt;
      ghost var n := |accepted|;
      Room();
      forall k: nat | |wire| <= k < |wire| + slots && k != n
        ensures SlotOf(k, slots) != slot
      {
        if k < n {
          OwnSlot(k, n, slots);
        } else {
          OwnSlot(n, k, slots);
        }
      }
      descriptors[slot] := descriptors[slot].(own := true);
      accepted := accepted + [frame];
      forall k: nat | |wire| <= k < |accepted|
        ensures Queued(k)
      {
        if k < n {
          assert old(Queued(k));
        }
      }
      forall k: nat | |accepted| <= k < |wire| + slots
        ensures Free(k)
      {
        assert old(Free(k));
      }
    }

    /** The slot of the next frame is free exactly while the ring is not full. */
    lemma Room()
      requires Ring()
      ensures descriptors[SlotOf(|accepted|, slots)].own <==> |accepted| == |wire| + slots
    {
      hide SlotOf, BufferAt;
      if |accepted| == |wire| + slots {
        SameSlot(|wire|, slots);
        assert Queued(|wire|);
      } else {
        assert Free(|accepted|);
      }
    }

    /** The copy loop of `try_transmit`. */
    method CopyIn(data: seq<byte>)
      requires Valid() && |data| <= bufferSize && !descriptors[index].own
      modifies memory, `dmaIndex, `fetched, `wire, descriptors
      ensures Valid() && old(wire) <= wire && !descriptors[index].own
      ensures BufferAt(index, bufferSize) + bufferSize <= memory.Length
      ensures memory[BufferAt(index, bufferSize)..BufferAt(index, bufferSize) + |data|] == data
    {
      hide SlotOf, BufferAt, Queued, Free;
      BufferFits(index, slots, bufferSize);
      var start := BufferAt(index, bufferSize);
      for i := 0 to |data|
        invariant Valid() && old(wire) <= wire && !descriptors[index].own
        invariant memory[start..start + i] == data[..i]
      {
        Elapse();
        StoreByte(index, i, data[i]);
      }
    }

    /** Everything in the next descriptor but its ownership bit. */
    method Fill(data: seq<byte>)
      requires Valid() && |data| <= bufferSize && !descriptors[index].own
      modifies memory, `dmaIndex, `fetched, `wire, descriptors
      ensures Valid() && old(wire) <= wire && !descriptors[index].own
      ensures BufferAt(index, bufferSize) + bufferSize <= memory.Length
      ensures descriptors[index].buffer == BufferAt(index, bufferSize) && descriptors[index].length == |data|
      ensures memory[BufferAt(index, bufferSize)..BufferAt(index, bufferSize) + |data|] == data
    {
      hide SlotOf, BufferAt, Queued, Free;
      CopyIn(data);
      var start := BufferAt(index, bufferSize);
      Elapse();
      StoreWord(index, descriptors[index].(buffer := start));
      Elapse();
      Unmasked(|data|);
      StoreWord(index, descriptors[index].(length := |data| % (LENGTH_MASK + 1)));
    }

    static lemma Unmasked(length: nat)
      requires length <= LENGTH_MASK
      ensures length % (LENGTH_MASK + 1) == length
    {
    }

    /** Fill the free descriptor and its buffer, hand them over, and go on to the next. */
    method Submit(data: seq<byte>)
      requires Valid() && |data| <= bufferSize && !descriptors[index].own
      modifies `index, `dmaIndex, `fetched, `wire, `accepted, descriptors, memory
      ensures Valid() && old(wire) <= wire && accepted == old(accepted) + [data]
    {
      hide SlotOf, BufferAt, Queued, Free;
      Fill(data);
      Elapse();
      HandOver(index, data);
      Elapse();
      NextSlot(|old(accepted)|, slots);
      index := (index + 1) % slots;
      Elapse();
    }

    /**
      `try_transmit`: a frame is accepted exactly when the ring is not full, and from
      the store of its ownership bit on it is the engine's; what is on the wire and
      what is queued are together always exactly what was accepted, in order.
     */
    method TryTransmit(data: seq<byte>) returns (r: Result<bool, MacError>)
      requires Ready()
      modifies `index, `dmaIndex, `fetched, `wire, `accepted, descriptors, memory
      ensures Ready() && old(wire) <= wire
      ensures !initialized ==> r == Failure(Io)
      ensures initialized && |data| > maximumFrame ==> r == Failure(FrameTooLarge)
      ensures initialized && |data| <= maximumFrame ==> r.Success?
      ensures accepted == if r == Success(true) then old(accepted) + [data] else old(accepted)
      ensures r == Success(false) ==> |old(accepted)| == |old(wire)| + slots
    {
      hide SlotOf, BufferAt, Queued, Free;
      if !initialized {
        return Failure(Io);
      }
      if |data| > maximumFrame || |data| > bufferSize {
        return Failure(FrameTooLarge);
      }
      Elapse();
      Room();
      if descriptors[index].own {
        return Success(false);
      }
      Submit(data);
      return Success(true);
    }
  }

  const SMALL_SETUP: Setup := Setup(1, 64, 1, 1, 2, 2, 64, 0, 32, 64, 192, (address, size) => true)

  /**
    A transmitter of two descriptors, initialized, one frame accepted, initialized
    again: the driver goes on at the second descriptor, the engine waits at the first.
   */
  method OutOfStep() returns (t: Transmitter)
    ensures fresh(t) && t.initialized && t.Ring() && !t.Valid()
    ensures t.slots == 2 && t.index == 1 && t.dmaIndex == 0
  {
    hide BufferAt;
    t := new Transmitter(2, 64, 64);
    var first := t.Initialize(SMALL_SETUP, 0);
    var sent := t.TryTransmit([1, 2, 3]);
    assert sent.Success? && sent != Success(false);
    assert sent.value;
    NextSlot(0, 2);
    FirstSlot(2);
    assert t.accepted == [[1, 2, 3]] && t.index == SlotOf(1, 2);
    var second := t.Initialize(SMALL_SETUP, 0);
  }

  /**
    From there on the engine sends nothing before the driver comes round to the first
    descriptor, and then begins with the frame accepted last.
   */
  lemma FirstFrameIsLate(index: nat, slots: nat)
    requires 0 < index < slots
    ensures SlotOf(slots, slots) == 0
    ensures forall k: nat :: index <= k < slots ==> SlotOf(k, slots) != 0
  {
    SameSlot(0, slots);
    FirstSlot(slots);
    forall k: nat | index <= k < slots
      ensures SlotOf(k, slots) != 0
    {
      OwnSlot(0, k, slots);
    }
  }
}
