/**
  The Linux buffered ADC channel: a byte stream cut into scans however the reads
  fall, one sample decoded from each scan, kept in a ring that overwrites the oldest.
 */
module ScanReader {
  import opened Arithmetic
  import opened Bytes
  import opened Rings
  import opened Wrappers

  datatype Config = Config(scanBytes: nat, offset: nat, storageBytes: nat, validBits: nat, shift: nat, bigEndian: bool)

  /** The checks `open` makes on the sizes; the subtraction is one of 64-bit unsigned numbers. */
  predicate Accepted(c: Config, readBuffer: nat) {
    && 0 < c.scanBytes <= readBuffer
    && 0 < c.storageBytes <= 4
    && c.offset <= (c.scanBytes - c.storageBytes) % U64_LIMIT
    && 0 < c.validBits <= c.storageBytes * 8
    && c.shift < c.validBits
  }

  /** The channel lies inside its scan. */
  predicate WellFormed(c: Config, readBuffer: nat) {
    && 0 < c.scanBytes <= readBuffer && 0 < c.storageBytes <= 4
    && c.offset + c.storageBytes <= c.scanBytes
    && 0 < c.validBits <= c.storageBytes * 8 && c.shift < c.validBits
  }

  /** An accepted channel that does not reach behind the read buffer; decoding any other leaves the array. */
  predicate InBuffer(c: Config, readBuffer: nat) {
    Accepted(c, readBuffer) && c.offset + c.storageBytes <= readBuffer
  }

  /**
    The configurations whose channel lies inside its scan are exactly the accepted ones
    whose channel is not wider than the scan. (A wider one makes the subtraction in the
    check wrap around.)
   */
  lemma AcceptedFitsIff(c: Config, readBuffer: nat)
    requires readBuffer < U64_LIMIT
    ensures WellFormed(c, readBuffer) <==> Accepted(c, readBuffer) && c.storageBytes <= c.scanBytes
  {
  }

  /** Accepted configurations whose channel lies behind the scan, and even behind the read buffer. */
  lemma TooWideAccepted()
    ensures var c := Config(2, 1000, 4, 32, 0, false); InBuffer(c, 4096) && !WellFormed(c, 4096)
    ensures var c := Config(2, 5000, 4, 32, 0, false); Accepted(c, 4096) && !InBuffer(c, 4096)
  {
  }

  // ---------- decoding ----------

  function Pow2(n: nat): (p: nat)
    ensures p > 0
  {
    if n == 0 then 1 else 2 * Pow2(n - 1)
  }

  function Reversed(s: seq<byte>): (r: seq<byte>)
    ensures |r| == |s|
  {
    if s == [] then [] else Reversed(s[1..]) + [s[0]]
  }

  function Channel(c: Config, scan: seq<byte>): (r: seq<byte>)
    requires c.offset + c.storageBytes <= |scan|
    ensures |r| == c.storageBytes
  {
    scan[c.offset..c.offset + c.storageBytes]
  }

  /** The sample in a scan: the channel's bytes as a number, without the bits around it. */
  function Decode(c: Config, scan: seq<byte>): nat
    requires c.offset + c.storageBytes <= |scan|
  {
    var bytes := Channel(c, scan);
    var word := FromLittleEndian(if c.bigEndian then Reversed(bytes) else bytes);
    word / Pow2(c.shift) % Pow2(c.validBits)
  }

  /** A value stored at its place in the word comes out unchanged, whatever the bits around it are. */
  lemma DecodeFinds(c: Config, scan: seq<byte>, value: nat, below: nat, above: nat)
    requires c.offset + c.storageBytes <= |scan|
    requires value < Pow2(c.validBits) && below < Pow2(c.shift)
    requires var word := below + Pow2(c.shift) * (value + Pow2(c.validBits) * above);
             && word < Pow256(c.storageBytes)
             && Channel(c, scan) == (if c.bigEndian then Reversed(LittleEndian(word, c.storageBytes))
                                     else LittleEndian(word, c.storageBytes))
    ensures Decode(c, scan) == value
  {
    hide Pow2, Pow256, LittleEndian, FromLittleEndian, Reversed;
    var word := below + Pow2(c.shift) * (value + Pow2(c.validBits) * above);
    ReversedTwice(LittleEndian(word, c.storageBytes));
    DecodeEncode(word, c.storageBytes);
    Extracted(below, Pow2(c.shift), value, Pow2(c.validBits), above);
  }

  lemma Extracted(below: nat, p: nat, value: nat, q: nat, above: nat)
    requires below < p && value < q
    ensures (below + p * (value + q * above)) / p % q == value
  {
    QuotientIsUnique(below + p * (value + q * above), p, value + q * above, below);
    QuotientIsUnique(value + q * above, q, above, value);
  }

  lemma {:induction false} ReversedAppend(s: seq<byte>, b: byte)
    ensures Reversed(s + [b]) == [b] + Reversed(s)
  {
    if s == [] {
      assert [b][1..] == [];
    } else {
      ReversedAppend(s[1..], b);
      assert (s + [b])[1..] == s[1..] + [b];
    }
  }

  lemma {:induction false} ReversedTwice(s: seq<byte>)
    ensures Reversed(Reversed(s)) == s
  {
    if s != [] {
      ReversedTwice(s[1..]);
      ReversedAppend(Reversed(s[1..]), s[0]);
      assert s == [s[0]] + s[1..];
    }
  }

  /** The most significant byte comes first. */
  lemma {:induction false} ReversedAt(s: seq<byte>, k: nat)
    requires k < |s|
    ensures Reversed(s)[k] == s[|s| - 1 - k]
  {
    if k < |s| - 1 {
      ReversedAt(s[1..], k);
    }
  }

  lemma EightDoublings(m: nat)
    ensures Pow2(m + 8) == 256 * Pow2(m)
  {
    assert Pow2(m + 2) == 4 * Pow2(m) && Pow2(m + 4) == 4 * Pow2(m + 2);
    assert Pow2(m + 6) == 4 * Pow2(m + 4) && Pow2(m + 8) == 4 * Pow2(m + 6);
  }

  /** Eight bits make a byte. */
  lemma {:induction false} BitsAndBytes(n: nat)
    ensures Pow2(0) == 1 && Pow2(1) == 2 && Pow2(8 * n) == Pow256(n)
  {
    if n > 0 {
      BitsAndBytes(n - 1);
      EightDoublings(8 * n - 8);
    }
  }

  lemma {:induction false} SmallWord(n: nat)
    requires n <= 4
    ensures Pow256(n) <= U32_LIMIT
    decreases 4 - n
  {
    if n < 4 {
      SmallWord(n + 1);
    } else {
      FieldLimits();
    }
  }

  /** `(value << 8) | byte` in 32 bits. */
  function ShiftIn(value: nat, b: byte): nat { (value * 256 + b) % U32_LIMIT }

  /** One more big-endian byte. */
  lemma NextBigEndian(s: seq<byte>, b: byte)
    requires |s| < 4
    ensures FromLittleEndian(Reversed(s + [b])) == ShiftIn(FromLittleEndian(Reversed(s)), b)
  {
    hide *;
    ReversedAppend(s, b);
    var r := [b] + Reversed(s);
    assert r[1..] == Reversed(s);
    LittleEndianStep(r);
    ShortWord(r);
    WordStep(FromLittleEndian(Reversed(s)), b);
  }

  lemma ShortWord(s: seq<byte>)
    requires |s| <= 4
    ensures FromLittleEndian(s) < U32_LIMIT
  {
    EncodeDecode(s);
    SmallWord(|s|);
  }

  lemma WordStep(m: nat, b: byte)
    requires b + 256 * m < U32_LIMIT
    ensures ShiftIn(m, b) == b + 256 * m
  {
  }

  lemma LittleEndianStep(r: seq<byte>)
    requires r != []
    ensures FromLittleEndian(r) == r[0] + 256 * FromLittleEndian(r[1..])
  {
  }

  // ---------- cutting a stream into scans ----------

  /** The read buffer when a scan is complete: cells behind the scan are never written. */
  function Window(scan: seq<byte>, readBuffer: nat): (r: seq<byte>)
    requires |scan| <= readBuffer
    ensures |r| == readBuffer
  {
    scan + Filled(readBuffer - |scan|, 0)
  }

  /** If the channel lies inside its scan, the scan alone decides. */
  lemma WindowIsScan(c: Config, scan: seq<byte>, readBuffer: nat)
    requires WellFormed(c, readBuffer) && readBuffer < U64_LIMIT && |scan| == c.scanBytes
    ensures InBuffer(c, readBuffer) && Decode(c, Window(scan, readBuffer)) == Decode(c, scan)
  {
    hide Reversed, FromLittleEndian, Pow2;
    assert Channel(c, Window(scan, readBuffer)) == Channel(c, scan);
  }

  /** A channel that begins behind its scan only ever reads zero. */
  lemma BehindTheScan(c: Config, scan: seq<byte>, readBuffer: nat)
    requires InBuffer(c, readBuffer) && |scan| == c.scanBytes <= c.offset
    ensures Decode(c, Window(scan, readBuffer)) == 0
  {
    hide Reversed, FromLittleEndian, Pow2;
    var bytes := Channel(c, Window(scan, readBuffer));
    ZeroWord(bytes);
    ReversedZero(bytes);
    ZeroWord(Reversed(bytes));
    NothingLeft(Pow2(c.shift), Pow2(c.validBits));
  }

  lemma NothingLeft(p: nat, q: nat)
    requires p > 0 && q > 0
    ensures 0 / p % q == 0
  {
  }

  lemma {:induction false} ZeroWord(s: seq<byte>)
    requires forall i :: 0 <= i < |s| ==> s[i] == 0
    ensures FromLittleEndian(s) == 0
  {
    if s != [] {
      ZeroWord(s[1..]);
    }
  }

  lemma {:induction false} ReversedZero(s: seq<byte>)
    requires forall i :: 0 <= i < |s| ==> s[i] == 0
    ensures forall i :: 0 <= i < |s| ==> Reversed(s)[i] == 0
  {
    if s != [] {
      ReversedZero(s[1..]);
    }
  }

  /** The samples of the complete scans of a stream. */
  function Decodings(c: Config, readBuffer: nat, stream: seq<byte>): seq<nat>
    requires InBuffer(c, readBuffer)
    decreases |stream|
  {
    if |stream| < c.scanBytes then []
    else [Decode(c, Window(stream[..c.scanBytes], readBuffer))] + Decodings(c, readBuffer, stream[c.scanBytes..])
  }

  /** The bytes of the incomplete scan at its end. */
  function Leftover(c: Config, stream: seq<byte>): (r: seq<byte>)
    requires 0 < c.scanBytes
    ensures |r| < c.scanBytes
    decreases |stream|
  {
    if |stream| < c.scanBytes then stream else Leftover(c, stream[c.scanBytes..])
  }

  /** More bytes either stay left over or complete exactly one more scan. */
  lemma {:induction false} Extend(c: Config, readBuffer: nat, stream: seq<byte>, more: seq<byte>)
    requires InBuffer(c, readBuffer)
    requires |Leftover(c, stream)| + |more| <= c.scanBytes
    ensures var tail := Leftover(c, stream) + more;
            if |tail| < c.scanBytes
            then Decodings(c, readBuffer, stream + more) == Decodings(c, readBuffer, stream)
                 && Leftover(c, stream + more) == tail
            else Decodings(c, readBuffer, stream + more)
                 == Decodings(c, readBuffer, stream) + [Decode(c, Window(tail, readBuffer))]
                 && Leftover(c, stream + more) == []
    decreases |stream|
  {
    hide Decode, Window;
    var whole := stream + more;
    if |stream| < c.scanBytes {
      if |whole| == c.scanBytes {
        assert whole[..c.scanBytes] == whole && whole[c.scanBytes..] == [];
      }
    } else {
      Extend(c, readBuffer, stream[c.scanBytes..], more);
      assert whole[..c.scanBytes] == stream[..c.scanBytes];
      assert whole[c.scanBytes..] == stream[c.scanBytes..] + more;
    }
  }

  // ---------- the channel ----------

  datatype Sample = Sample(value: nat, time: nat, sequence: nat)

  datatype StreamRead = StreamRead(count: nat, dropped: nat)

  /** What `read` on the device gave. */
  datatype Incoming = Bytes(data: seq<byte>) | WouldBlock | Failed

  function Values(samples: seq<Sample>): (r: seq<nat>)
    ensures |r| == |samples|
  {
    seq(|samples|, i requires 0 <= i < |samples| => samples[i].value)
  }

  /** Up to `cursor` every sample was delivered or missed; those delivered came in order, none twice. */
  ghost predicate Balanced(history: seq<Sample>, delivered: seq<Sample>, cursor: nat, missed: nat) {
    && cursor == |delivered| + missed
    && (forall i :: 0 <= i < |delivered| ==>
          && delivered[i].sequence < cursor && delivered[i].sequence < |history|
          && delivered[i] == history[delivered[i].sequence])
    && forall i, j :: 0 <= i < j < |delivered| ==> delivered[i].sequence < delivered[j].sequence
  }

  lemma Delivering(history: seq<Sample>, delivered: seq<Sample>, cursor: nat, missed: nat, count: nat)
    requires Balanced(history, delivered, cursor, missed) && cursor + count <= |history|
    requires forall i :: 0 <= i < |history| ==> history[i].sequence == i
    ensures Balanced(history, delivered + history[cursor..cursor + count], cursor + count, missed)
  {
    var more := history[cursor..cursor + count];
    assert forall i :: 0 <= i < count ==> more[i].sequence == cursor + i;
  }

  lemma BalancedCount(history: seq<Sample>, delivered: seq<Sample>, cursor: nat, missed: nat)
    requires Balanced(history, delivered, cursor, missed)
    ensures cursor == |delivered| + missed
  {
  }

  lemma Missing(history: seq<Sample>, delivered: seq<Sample>, cursor: nat, missed: nat)
    requires Balanced(history, delivered, cursor, missed)
    ensures Balanced(history, delivered, cursor + 1, missed + 1)
  {
  }

  lemma Producing(history: seq<Sample>, delivered: seq<Sample>, cursor: nat, missed: nat, s: Sample)
    requires Balanced(history, delivered, cursor, missed)
    ensures Balanced(history + [s], delivered, cursor, missed)
  {
  }

  class BufferedChannel {
    const config: Config
    const capacity: nat
    const readBuffer: nat
    const pending: array<byte>
    const ring: array<Sample>
    var pendingSize: nat
    var produced: nat
    var consumed: nat
    var dropped: nat
    var sequence: nat
    // the whole stream so far and what became of it
    ghost var stream: seq<byte>
    ghost var history: seq<Sample>
    ghost var delivered: seq<Sample>
    ghost var missed: nat
    ghost var reported: nat

    /** Framing: what was published and what is pending depend on the stream alone. */
    ghost predicate Framed()
      reads `pendingSize, `stream, `history, pending
    {
      && InBuffer(config, readBuffer) && pending.Length == readBuffer
      && pendingSize < config.scanBytes && pending[..pendingSize] == Leftover(config, stream)
      && (forall i :: config.scanBytes <= i < readBuffer ==> pending[i] == 0)
      && Values(history) == Decodings(config, readBuffer, stream)
    }

    /** The ring holds the newest samples; what is not delivered yet is among them. */
    ghost predicate Buffered()
      reads `produced, `consumed, `sequence, `history, ring
    {
      && capacity > 1 && ring.Length == capacity
      && produced == sequence == |history| && consumed <= produced <= consumed + capacity
      && (forall i :: 0 <= i < |history| ==> history[i].sequence == i)
      && forall k: nat :: k < produced <= k + capacity ==> InRing(k)
    }

    ghost predicate InRing(k: nat)
      requires ring.Length == capacity > 0 && k < |history|
      reads `history, ring
    {
      ring[SlotOf(k, capacity)] == history[k]
    }

    /** Every sample produced was delivered, missed or is still buffered; each miss is reported once. */
    ghost predicate Accounted()
      reads `consumed, `dropped, `history, `delivered, `missed, `reported
    {
      Balanced(history, delivered, consumed, missed) && missed == reported + dropped
    }

    ghost predicate Valid()
      reads this, pending, ring
    {
      Framed() && Buffered() && Accounted()
    }

    constructor (config: Config, capacity: nat, readBuffer: nat)
      requires InBuffer(config, readBuffer) && capacity > 1
      ensures Valid() && this.config == config && this.capacity == capacity && this.readBuffer == readBuffer
      ensures stream == [] && history == [] && delivered == [] && reported == 0
    {
      this.config, this.capacity, this.readBuffer := config, capacity, readBuffer;
      pending := new byte[readBuffer](_ => 0);
      ring := new Sample[capacity](_ => Sample(0, 0, 0));
      pendingSize, produced, consumed, dropped, sequence := 0, 0, 0, 0, 0;
      stream, history, delivered, missed, reported := [], [], [], 0, 0;
    }

    /** `decode_raw`. Shifting and masking are written as division and remainder. */
    method DecodeRaw() returns (value: nat)
      requires InBuffer(config, readBuffer) && pending.Length == readBuffer
      ensures value == Decode(config, pending[..])
    {
      hide FromLittleEndian, Reversed, Pow2;
      ghost var bytes := Channel(config, pending[..]);
      value := 0;
      if config.bigEndian {
        NothingToReverse();
        for index := 0 to config.storageBytes
          invariant value == FromLittleEndian(Reversed(bytes[..index]))
        {
          NextBigEndian(bytes[..index], bytes[index]);
          assert bytes[..index] + [bytes[index]] == bytes[..index + 1];
          value := ShiftIn(value, pending[config.offset + index]);
        }
        assert bytes[..config.storageBytes] == bytes;
      } else {
        value := GetField(pending[..], config.offset, config.storageBytes);
        assert pending[..][config.offset..config.offset + config.storageBytes] == bytes;
      }
      value := value / Pow2(config.shift) % Pow2(config.validBits);
    }

    static lemma NothingToReverse()
      ensures FromLittleEndian(Reversed([])) == 0
    {
    }

    /** `publish`: the oldest undelivered sample makes room when the ring is full. */
    method Publish(value: nat)
      requires Buffered() && Accounted()
      modifies `produced, `consumed, `dropped, `sequence, `history, `missed, ring
      ensures Buffered() && Accounted()
      ensures exists time :: history == old(history) + [Sample(value, time, |old(history)|)]
      ensures delivered == old(delivered) && reported == old(reported)
      ensures consumed == old(consumed) + (if old(produced - consumed) == capacity then 1 else 0)
    {
      hide SlotOf, Balanced;
      if produced - consumed >= capacity {
        Missing(history, delivered, consumed, missed);
        consumed := consumed + 1;
        dropped := dropped + 1;
        missed := missed + 1;
      }
      var time: nat := *;
      if time < 0 {
        time := 0;
      }
      forall k: nat | k < produced < k + capacity
        ensures SlotOf(k, capacity) != SlotOf(produced, capacity)
      {
        OwnSlot(k, produced, capacity);
      }
      ring[SlotOf(produced, capacity)] := Sample(value, time, sequence);
      Producing(history, delivered, consumed, missed, Sample(value, time, sequence));
      history := history + [Sample(value, time, sequence)];
      sequence := sequence + 1;
      produced := produced + 1;
      forall k: nat | k < produced <= k + capacity
        ensures InRing(k)
      {
        assert k < produced - 1 ==> old(InRing(k));
      }
    }

    /** The copy loop of `service`: as much of the input as the scan being collected still needs. */
    method Collect(input: seq<byte>, offset: nat, copied: nat)
      requires pending.Length == readBuffer && pendingSize + copied <= readBuffer && offset + copied <= |input|
      modifies pending, `pendingSize
      ensures pendingSize == old(pendingSize) + copied
      ensures pending[..pendingSize] == old(pending[..pendingSize]) + input[offset..offset + copied]
      ensures pending[pendingSize..] == old(pending[pendingSize + copied..])
    {
      for index := 0 to copied
        modifies pending
        invariant forall i :: pendingSize + copied <= i < readBuffer ==> pending[i] == old(pending[i])
        invariant forall i :: 0 <= i < pendingSize + index ==>
                    pending[i] == if i < pendingSize then old(pending[i]) else input[offset + i - pendingSize]
      {
        pending[pendingSize + index] := input[offset + index];
      }
      pendingSize := pendingSize + copied;
    }

    lemma CompleteScan()
      requires pending.Length == readBuffer && config.scanBytes <= readBuffer
      requires forall i :: config.scanBytes <= i < readBuffer ==> pending[i] == 0
      ensures pending[..] == Window(pending[..config.scanBytes], readBuffer)
    {
    }

    /** One piece of input: collected, and published when it completes a scan. */
    method Take(input: seq<byte>, offset: nat) returns (copied: nat, completed: bool)
      requires Valid() && offset < |input|
      modifies `pendingSize, `produced, `consumed, `dropped, `sequence, `stream, `history, `missed, pending, ring
      ensures Valid() && 0 < copied <= |input| - offset
      ensures stream == old(stream) + input[offset..offset + copied]
      ensures old(history) <= history && |history| == |old(history)| + (if completed then 1 else 0)
      ensures delivered == old(delivered) && reported == old(reported)
    {
      hide Decode, Decodings, Leftover, InRing, Window;
      var needed := config.scanBytes - pendingSize;
      var available := |input| - offset;
      copied := if needed < available then needed else available;
      ghost var more := input[offset..offset + copied];
      Extend(config, readBuffer, stream, more);
      Collect(input, offset, copied);
      forall i | config.scanBytes <= i < readBuffer
        ensures pending[i] == 0
      {
        assert pending[pendingSize..][i - pendingSize] == old(pending[i]);
      }
      stream := stream + more;
      completed := pendingSize == config.scanBytes;
      if completed {
        CompleteScan();
        var value := DecodeRaw();
        Publish(value);
        pendingSize := 0;
        ghost var before := old(history);
        assert Values(history) == Values(before) + [value];
      }
    }

    /**
      `service`: whatever pieces the stream arrives in, the samples published are the
      decodings of its complete scans so far, and the bytes of the incomplete one wait.
     */
    method Service(incoming: Incoming) returns (r: Result<nat, ()>)
      requires Valid() && (incoming.Bytes? ==> |incoming.data| <= readBuffer)
      modifies `pendingSize, `produced, `consumed, `dropped, `sequence, `stream, `history, `missed, pending, ring
      ensures Valid() && old(history) <= history && delivered == old(delivered) && reported == old(reported)
      ensures r.Failure? <==> incoming.Failed?
      ensures incoming.Bytes? ==> stream == old(stream) + incoming.data && r == Success(|history| - |old(history)|)
      ensures !incoming.Bytes? ==> stream == old(stream) && history == old(history) && (r.Success? ==> r.value == 0)
    {
      hide Framed, Buffered, Accounted, InRing;
      if incoming.WouldBlock? {
        return Success(0);
      }
      if incoming.Failed? {
        return Failure(());
      }
      var published := 0;
      var offset := 0;
      while offset < |incoming.data|
        invariant Valid() && offset <= |incoming.data|
        invariant stream == old(stream) + incoming.data[..offset]
        invariant old(history) <= history && published == |history| - |old(history)|
        invariant delivered == old(delivered) && reported == old(reported)
      {
        var copied, completed := Take(incoming.data, offset);
        offset := offset + copied;
        published := published + (if completed then 1 else 0);
      }
      return Success(published);
    }

    /** `read_raw`: the newest sample, delivered or not. */
    method ReadRaw() returns (r: Option<Sample>)
      requires Valid()
      ensures r == if |history| == 0 then None else Some(history[|history| - 1])
    {
      if produced == 0 {
        return None;
      }
      assert InRing(produced - 1);
      return Some(ring[SlotOf(produced - 1, capacity)]);
    }

    /** The copy loop of `try_read`. */
    method CopyOut(output: array<Sample>, count: nat)
      requires Buffered() && output != ring && count <= output.Length && count <= produced - consumed
      modifies output
      ensures Buffered() && output[..count] == history[consumed..consumed + count]
    {
      hide SlotOf;
      for index := 0 to count
        invariant Buffered()
        invariant forall i :: 0 <= i < index ==> output[i] == history[consumed + i]
      {
        assert InRing(consumed + index);
        output[index] := ring[SlotOf(consumed + index, capacity)];
      }
    }

    /** `try_read`: the oldest undelivered samples, and how many were lost since the last read. */
    method TryRead(output: array<Sample>) returns (read: StreamRead)
      requires Valid() && output != ring
      modifies `consumed, `dropped, `delivered, `reported, output
      ensures Valid() && history == old(history) && stream == old(stream)
      ensures read.count == (if old(produced - consumed) < output.Length then old(produced - consumed) else output.Length)
      ensures old(consumed) + read.count <= |history|
      ensures output[..read.count] == history[old(consumed)..old(consumed) + read.count]
      ensures delivered == old(delivered) + output[..read.count]
      ensures read.dropped == old(dropped) && reported == old(reported) + read.dropped
      ensures |delivered| + reported == consumed  // nothing lost is left unreported
    {
      hide SlotOf, Framed, InRing, Values, Balanced;
      var available := produced - consumed;
      var count := if available < output.Length then available else output.Length;
      CopyOut(output, count);
      Delivering(history, delivered, consumed, missed, count);
      delivered := delivered + output[..count];
      consumed := consumed + count;
      reported := reported + dropped;
      BalancedCount(history, delivered, consumed, missed);
      read := StreamRead(count, dropped);
      dropped := 0;
    }
  }
}
