/** What the Ethernet MAC demands of its configuration and memory, and its reset, for both directions. */
module EthernetSetup {
  import opened Arithmetic

  const LENGTH_MASK: nat := 0x3FFF

  /** Where the buffer of a slot begins. */
  function BufferAt(slot: nat, bufferSize: nat): nat { slot * bufferSize }

  predicate ValidBurst(burst: nat) {
    burst == 1 || burst == 2 || burst == 4 || burst == 8 || burst == 16 || burst == 32
  }

  /** The bursts taken are the divisors of 32. */
  lemma ValidBurstIff(burst: nat)
    ensures ValidBurst(burst) <==> burst > 0 && 32 % burst == 0
  {
    if 16 < burst < 32 {
      QuotientIsUnique(32, burst, 1, 32 - burst);
    }
  }

  /** The configuration and the addresses of the rings and buffers; `regionOk` is the DMA policy. */
  datatype Setup = Setup(
    iterations: nat, maximumFrame: nat, txBurst: nat, rxBurst: nat, txCount: nat, rxCount: nat, bufferSize: nat,
    txRing: nat, rxRing: nat, txBuffers: nat, rxBuffers: nat, regionOk: (nat, nat) -> bool)
  {
    predicate Acceptable() {
      && iterations > 0
      && maximumFrame <= bufferSize <= LENGTH_MASK && bufferSize % 4 == 0
      && ValidBurst(txBurst) && ValidBurst(rxBurst)
      && txRing % 16 == 0 && rxRing % 16 == 0 && txBuffers % 4 == 0 && rxBuffers % 4 == 0
      && regionOk(txRing, 16 * txCount) && regionOk(rxRing, 16 * rxCount)
      && regionOk(txBuffers, BufferAt(txCount, bufferSize)) && regionOk(rxBuffers, BufferAt(rxCount, bufferSize))
    }
  }

  /**
    What the limits are for: every frame up to the maximum fits its own buffer, which
    begins on a word and ends where the next one begins or the memory does, and the
    length field of a descriptor holds its size.
   */
  lemma BuffersHoldFrames(setup: Setup, slot: nat, count: nat, buffers: nat, length: nat)
    requires setup.Acceptable() && slot < count && length <= setup.maximumFrame
    requires || (count, buffers) == (setup.txCount, setup.txBuffers)
             || (count, buffers) == (setup.rxCount, setup.rxBuffers)
    ensures (buffers + BufferAt(slot, setup.bufferSize)) % 4 == 0
    ensures BufferAt(slot, setup.bufferSize) + length <= BufferAt(slot + 1, setup.bufferSize)
                                                      <= BufferAt(count, setup.bufferSize)
    ensures BufferAt(0, setup.bufferSize) == 0
    ensures BufferAt(slot + 1, setup.bufferSize) == BufferAt(slot, setup.bufferSize) + setup.bufferSize
    ensures length % (LENGTH_MASK + 1) == length
  {
    hide BufferAt;
    BuffersFollow(slot, setup.bufferSize);
    BuffersOrdered(slot + 1, count, setup.bufferSize);
    BufferOfWords(slot, setup.bufferSize / 4);
    WordsStayWords(slot, setup.bufferSize / 4, buffers / 4);
  }

  lemma BuffersFollow(slot: nat, bufferSize: nat)
    ensures BufferAt(0, bufferSize) == 0 && BufferAt(slot + 1, bufferSize) == BufferAt(slot, bufferSize) + bufferSize
  {
  }

  lemma BuffersOrdered(slot: nat, count: nat, bufferSize: nat)
    requires slot <= count
    ensures BufferAt(slot, bufferSize) <= BufferAt(count, bufferSize)
  {
    MultiplyMonotone(slot, count, bufferSize);
  }

  lemma BufferOfWords(slot: nat, words: nat)
    ensures BufferAt(slot, 4 * words) == slot * (4 * words)
  {
  }

  lemma WordsStayWords(slot: nat, words: nat, start: nat)
    ensures (4 * start + slot * (4 * words)) % 4 == 0
  {
    assert 4 * start + slot * (4 * words) == 4 * (start + slot * words);
  }

  /** `wait_dma_reset` on an engine that clears its reset bit after `busyPolls` polls. */
  method WaitReset(iterations: nat, busyPolls: nat) returns (done: bool)
    ensures done <==> busyPolls < iterations
  {
    var remaining := iterations;
    while remaining > 0
      invariant remaining <= iterations && iterations - remaining <= busyPolls
    {
      if iterations - remaining >= busyPolls {
        return true;
      }
      remaining := remaining - 1;
    }
    return false;
  }

  /** The first part of `initialize`: the checks, then the reset. */
  method Prepare(setup: Setup, busyPolls: nat) returns (ok: bool)
    ensures ok <==> setup.Acceptable() && busyPolls < setup.iterations
  {
    hide BufferAt;
    if setup.iterations == 0 || setup.maximumFrame > setup.bufferSize || setup.bufferSize > LENGTH_MASK
       || setup.bufferSize % 4 != 0 || !ValidBurst(setup.txBurst) || !ValidBurst(setup.rxBurst)
       || setup.txRing % 16 != 0 || setup.rxRing % 16 != 0 || setup.txBuffers % 4 != 0 || setup.rxBuffers % 4 != 0 {
      return false;
    }
    if !setup.regionOk(setup.txRing, 16 * setup.txCount) || !setup.regionOk(setup.rxRing, 16 * setup.rxCount)
       || !setup.regionOk(setup.txBuffers, BufferAt(setup.txCount, setup.bufferSize))
       || !setup.regionOk(setup.rxBuffers, BufferAt(setup.rxCount, setup.bufferSize)) {
      return false;
    }
    ok := WaitReset(setup.iterations, busyPolls);
  }
}
