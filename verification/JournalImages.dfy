/**
  The image byte by byte: whatever order of writes, records or events it came from, each
  byte is the one from the last of them that covers it, and nothing else has changed.
 */
module JournalImages {
  import opened Bytes
  import opened Wrappers
  import opened NorFlash
  import opened JournalLayout
  import opened JournalFormat
  import opened JournalRecovery
  import opened JournalState
  import opened JournalSteps
  import opened JournalRuns

  /** One write puts its data at its offset, byte for byte, and leaves every other byte alone. */
  lemma PutAt(image: seq<byte>, offset: nat, data: seq<byte>)
    requires offset + |data| <= |image|
    ensures Put(image, offset, data)[offset..offset + |data|] == data
    ensures forall i :: 0 <= i < |image| && !(offset <= i < offset + |data|) ==> Put(image, offset, data)[i] == image[i]
  {
  }

  // ---------- a log ----------

  predicate Covers(rec: Record, i: nat) { rec.offset <= i < rec.offset + |rec.data| }

  predicate NoneCovers(recs: seq<Record>, i: nat) { forall k :: 0 <= k < |recs| ==> !Covers(recs[k], i) }

  /** Record `k` is the last that covers byte `i`. */
  predicate LastCover(recs: seq<Record>, k: nat, i: nat) {
    k < |recs| && Covers(recs[k], i) && forall m :: k < m < |recs| ==> !Covers(recs[m], i)
  }

  /** `last` is what the records, in order, leave of `first`. */
  ghost predicate ByteOfLog(recs: seq<Record>, i: nat, first: byte, last: byte) {
    && (NoneCovers(recs, i) ==> last == first)
    && forall k: nat :: LastCover(recs, k, i) ==> last == recs[k].data[i - recs[k].offset]
  }

  predicate AllFit(recs: seq<Record>, size: nat) {
    forall k :: 0 <= k < |recs| ==> recs[k].offset + |recs[k].data| <= size
  }

  lemma {:induction false} ReplayAt(image: seq<byte>, recs: seq<Record>, i: nat)
    requires i < |image| && AllFit(recs, |image|)
    ensures ByteOfLog(recs, i, image[i], Replay(image, recs)[i])
    decreases recs
  {
    hide Put, ByteOfLog;
    if recs == [] {
      NoRecords(i, image[i]);
    } else {
      var rec, rest := recs[0], recs[1..];
      var first := Put(image, rec.offset, rec.data);
      ReplayAt(first, rest, i);
      OneMoreRecord(rec, rest, image, i, Replay(first, rest)[i]);
      assert recs == [rec] + rest;
    }
  }

  lemma NoRecords(i: nat, b: byte)
    ensures ByteOfLog([], i, b, b)
  {
  }

  /** One byte after one write. */
  lemma ByteAfterPut(image: seq<byte>, offset: nat, data: seq<byte>, i: nat)
    requires i < |image| && offset + |data| <= |image|
    ensures Put(image, offset, data)[i] == if offset <= i < offset + |data| then data[i - offset] else image[i]
  {
    hide Put;
    PutAt(image, offset, data);
    var now := Put(image, offset, data);
    assert offset <= i < offset + |data| ==> now[i] == now[offset..offset + |data|][i - offset];
  }

  lemma OneMoreRecord(rec: Record, rest: seq<Record>, image: seq<byte>, i: nat, last: byte)
    requires i < |image| && rec.offset + |rec.data| <= |image|
    requires ByteOfLog(rest, i, Put(image, rec.offset, rec.data)[i], last)
    ensures ByteOfLog([rec] + rest, i, image[i], last)
  {
    ByteAfterPut(image, rec.offset, rec.data, i);
    CoversIs(rec, i);
    hide Put, Covers;
    var recs := [rec] + rest;
    assert forall m :: 0 <= m < |rest| ==> rest[m] == recs[m + 1];
    if NoneCovers(recs, i) {
      assert !Covers(recs[0], i);
      assert NoneCovers(rest, i);
    }
    forall k: nat | LastCover(recs, k, i)
      ensures last == recs[k].data[i - recs[k].offset]
    {
      CoversIs(recs[k], i);
      if k == 0 {
        assert NoneCovers(rest, i);
      } else {
        assert LastCover(rest, k - 1, i);
      }
    }
  }

  lemma CoversIs(rec: Record, i: nat)
    ensures Covers(rec, i) <==> 0 <= i - rec.offset < |rec.data|
  {
  }

  lemma {:induction false} CertifiedFit(l: Layout, region: seq<byte>, at: nat, recs: seq<Record>, last: nat)
    requires l.Valid() && CertifiedLog(l, region, at, recs, last)
    ensures AllFit(recs, l.logicalCapacity)
    decreases recs
  {
    hide Certified, AlignUp;
    if recs != [] {
      FitsWhenCertified(l, region, at, recs[0]);
      CertifiedFit(l, region, at + l.RecordSize(|recs[0].data|), recs[1..], recs[0].sequence);
      assert forall k :: 1 <= k < |recs| ==> recs[k] == recs[1..][k - 1];
    }
  }

  lemma FitsWhenCertified(l: Layout, region: seq<byte>, at: nat, rec: Record)
    requires l.Valid() && Certified(l, region, at, rec)
    ensures rec.offset + |rec.data| <= l.logicalCapacity
  {
  }

  ghost predicate BytesOfLog(recs: seq<Record>, first: seq<byte>, last: seq<byte>) {
    |last| == |first| && forall i: nat :: i < |first| ==> ByteOfLog(recs, i, first[i], last[i])
  }

  lemma ReplayedBytes(image: seq<byte>, recs: seq<Record>)
    requires AllFit(recs, |image|)
    ensures BytesOfLog(recs, image, Replay(image, recs))
  {
    hide ByteOfLog, Replay, AllFit;
    forall i: nat | i < |image|
      ensures ByteOfLog(recs, i, image[i], Replay(image, recs)[i])
    {
      ReplayAt(image, recs, i);
    }
  }

  /**
    Loading a region, whatever is in it: each byte of the image is the one from the last
    record of the longest certified chain that covers it, and 0xFF if there is none.
   */
  lemma LoadedBytes(l: Layout, region: seq<byte>, generation: nat) returns (recs: seq<Record>)
    requires l.Valid() && |region| == l.regionSize && LoadRegion(l, region, generation).Loaded?
    ensures var r := LoadRegion(l, region, generation);
            && CertifiedLog(l, region, l.RecordArea(), recs, 0)
            && r.append == l.RecordArea() + LogSize(l, recs) && NoRecordAt(l, region, r.append, r.last)
            && r.last == LastSequence(0, recs) && (r.unusable <==> !BlankAt(l, region, r.append))
            && BytesOfLog(recs, Filled(l.logicalCapacity, ERASED), r.image)
  {
    hide Scan, Certified, CertifiedLog, Replay, AllFit, LogSize, LastSequence, NoRecordAt, BytesOfLog, Filled, AlignUp, BlankAt;
    var blank := Filled(l.logicalCapacity, ERASED);
    recs := ScanIsExact(l, region, l.RecordArea(), 0, generation == 1, blank);
    CertifiedFit(l, region, l.RecordArea(), recs, 0);
    ReplayedBytes(blank, recs);
  }

  // ---------- a run ----------

  predicate Writes(e: Event, i: nat) { e.Wrote? && e.offset <= i < e.offset + |e.data| }

  /** Event `k` is the last kept one that writes byte `i`. */
  predicate LastKept(events: seq<Event>, kept: seq<bool>, k: nat, i: nat)
    requires |kept| == |events|
  {
    && k < |events| && kept[k] && Writes(events[k], i)
    && forall m :: k < m < |events| && kept[m] ==> !Writes(events[m], i)
  }

  predicate NoneKept(events: seq<Event>, kept: seq<bool>, i: nat)
    requires |kept| == |events|
  {
    forall k :: 0 <= k < |events| && kept[k] ==> !Writes(events[k], i)
  }

  ghost predicate ByteKept(events: seq<Event>, kept: seq<bool>, i: nat, first: byte, last: byte)
    requires |kept| == |events|
  {
    && (NoneKept(events, kept, i) ==> last == first)
    && forall k: nat :: LastKept(events, kept, k, i) ==> last == events[k].data[i - events[k].offset]
  }

  predicate KeptFit(events: seq<Event>, kept: seq<bool>, size: nat)
    requires |kept| == |events|
  {
    forall k :: 0 <= k < |events| && kept[k] && events[k].Wrote? ==> events[k].offset + |events[k].data| <= size
  }

  lemma {:induction false} OutcomesAt(image: seq<byte>, events: seq<Event>, kept: seq<bool>, i: nat)
    requires |kept| == |events| && i < |image| && KeptFit(events, kept, |image|)
    ensures ByteKept(events, kept, i, image[i], Outcomes(image, events, kept)[i])
    decreases events
  {
    hide Put;
    if events != [] {
      var n := |events| - 1;
      OutcomesAt(image, events[..n], kept[..n], i);
      OneMoreEvent(events, kept, i, image[i], Outcomes(image, events[..n], kept[..n]));
    }
  }

  lemma OneMoreEvent(events: seq<Event>, kept: seq<bool>, i: nat, first: byte, before: seq<byte>)
    requires |kept| == |events| > 0 && KeptFit(events, kept, |before|) && i < |before|
    requires var n := |events| - 1; ByteKept(events[..n], kept[..n], i, first, before[i])
    ensures var e := events[|events| - 1];
            var now := if kept[|events| - 1] && e.Wrote? then Put(before, e.offset, e.data) else before;
            ByteKept(events, kept, i, first, now[i])
  {
    var n := |events| - 1;
    var e := events[n];
    if kept[n] && e.Wrote? {
      ByteAfterPut(before, e.offset, e.data, i);
    }
    WritesIs(e, i);
    hide Put, Writes, KeptFit, NoneKept, LastKept;
    if NoneKept(events, kept, i) {
      NoneKeptBefore(events, kept, i);
    }
    var now := if kept[n] && e.Wrote? then Put(before, e.offset, e.data) else before;
    forall k: nat | LastKept(events, kept, k, i)
      ensures k < |events| && Writes(events[k], i) && now[i] == events[k].data[i - events[k].offset]
    {
      LastKeptBefore(events, kept, k, i);
      WritesIs(events[k], i);
      assert k < n ==> events[..n][k] == events[k];
    }
  }

  lemma NoneKeptBefore(events: seq<Event>, kept: seq<bool>, i: nat)
    requires |kept| == |events| > 0 && NoneKept(events, kept, i)
    ensures var n := |events| - 1; NoneKept(events[..n], kept[..n], i) && !(kept[n] && Writes(events[n], i))
  {
    hide Writes;
  }

  lemma LastKeptBefore(events: seq<Event>, kept: seq<bool>, k: nat, i: nat)
    requires |kept| == |events| > 0 && LastKept(events, kept, k, i)
    ensures k < |events| && Writes(events[k], i) && kept[k]
    ensures var n := |events| - 1;
            k < n ==> LastKept(events[..n], kept[..n], k, i) && !(kept[n] && Writes(events[n], i))
  {
    hide Writes;
    var n := |events| - 1;
    assert forall m :: 0 <= m < n ==> events[..n][m] == events[m] && kept[..n][m] == kept[m];
  }

  lemma WritesIs(e: Event, i: nat)
    ensures Writes(e, i) <==> e.Wrote? && 0 <= i - e.offset < |e.data|
  {
  }

  /** Byte by byte, the image at the end is what the kept writes leave. */
  ghost predicate BytesKept(first: seq<byte>, events: seq<Event>, kept: seq<bool>, last: seq<byte>)
    requires |kept| == |events|
  {
    |last| == |first| && forall i: nat :: i < |first| ==> ByteKept(events, kept, i, first[i], last[i])
  }

  /**
    The account of a run, byte by byte. Whatever choice `kept` explains the run, each byte
    of the image is the one from the last kept write that covers it, and the one the run
    began with if there is none.
   */
  lemma RunBytes(l: Layout, states: seq<State>, events: seq<Event>, kept: seq<bool>)
    requires |states| == |events| + 1 && Shapes(l, states) && Explains(l, states, events, kept)
    requires Outcomes(states[0].mirror, events, kept) == states[|events|].mirror
    ensures BytesKept(states[0].mirror, events, kept, states[|events|].mirror)
  {
    hide Outcomes, ByteKept, Shape, Lost, SettledAt;
    var image := states[0].mirror;
    ImageSize(l, states[0]);
    forall k | 0 <= k < |events| && kept[k] && events[k].Wrote?
      ensures events[k].offset + |events[k].data| <= |image|
    {
      assert ExplainsAt(l, states, events, kept, k);
    }
    forall i: nat | i < |image|
      ensures ByteKept(events, kept, i, image[i], Outcomes(image, events, kept)[i])
    {
      OutcomesAt(image, events, kept, i);
    }
  }

  lemma ImageSize(l: Layout, s: State)
    requires Shape(l, s)
    ensures |s.mirror| == l.logicalCapacity
  {
  }

  /**
    Crash atomicity, byte by byte: a run and the mount behind it leave in each byte what the
    last kept write that covers it put there, where all acknowledged writes that are not
    lost are kept, and of the others only stopped ones.
   */
  lemma CrashBytes(l: Layout, states: seq<State>, events: seq<Event>, recs: seq<Record>)
    returns (t: State, kept: seq<bool>)
    requires |states| > 0 && Inv(l, states[0], recs, None, None) && HeaderInOneUnit(l)
    requires Run(l, states, events) && AllSound(l, states, events)
    ensures Mount(l, states[|events|].First(), states[|events|].Second()) == Mounted(t)
    ensures Shapes(l, states + [t]) && Explains(l, states + [t], events + [Restarted], kept)
    ensures BytesKept(states[0].mirror, events + [Restarted], kept, t.mirror)
  {
    hide Explains, Inv, Step, Mount, Outcomes, Shape, Sound, BytesKept, Shapes;
    t := MountExplained(l, states, events, recs);
    kept := MountedRunBytes(l, states, events, t);
  }

  lemma MountedRunBytes(l: Layout, states: seq<State>, events: seq<Event>, t: State) returns (kept: seq<bool>)
    requires |states| == |events| + 1 && Shapes(l, states + [t])
    requires Explained(l, states + [t], events + [Restarted])
    ensures Explains(l, states + [t], events + [Restarted], kept)
    ensures BytesKept(states[0].mirror, events + [Restarted], kept, t.mirror)
  {
    hide ExplainsAt, Outcomes, Shape, BytesKept, Shapes;
    var states', events' := states + [t], events + [Restarted];
    kept :| Explains(l, states', events', kept)
            && Outcomes(states'[0].mirror, events', kept) == states'[|events'|].mirror;
    RunBytes(l, states', events', kept);
  }

  // ---------- one write ----------

  /** No sequence number or no generation is left for this write. */
  predicate NumbersUsedUp(s: State, compacts: bool) {
    s.last + 1 >= U64_LIMIT || (compacts && (s.generation + 1 >= U64_LIMIT || s.last + 2 >= U64_LIMIT))
  }

  /**
    What any write comes to, in terms of bytes and numbers. Its arguments are refused
    exactly if they leave the range or the atomic size; otherwise it goes through unless a
    flash operation stops it or the numbers are used up. Success changes the bytes of its
    range to the data and no others, failure changes none. It compacts exactly if the tail
    is unusable or too short.
   */
  lemma WriteComesTo(l: Layout, s: State, recs: seq<Record>, pending: Option<Record>,
                     offset: nat, data: seq<byte>, r: Outcome<JournalError>, t: State)
    requires Core(l, s, recs, pending) && WriteRel(l, s, offset, data, r, t)
    ensures |t.mirror| == |s.mirror| == l.logicalCapacity
    ensures r == Fail(JournalError.OutOfRange) <==> offset + |data| > l.logicalCapacity
    ensures r == Fail(TooLarge) <==> offset + |data| <= l.logicalCapacity && |data| > l.maxAtomicWrite
    ensures r.Fail? ==> r.error in {JournalError.OutOfRange, TooLarge, NoSpace} || r.error.Flash?
    ensures r.Pass? ==>
              && t.mirror[offset..offset + |data|] == data
              && forall i :: 0 <= i < l.logicalCapacity && !(offset <= i < offset + |data|) ==>
                   t.mirror[i] == s.mirror[i]
    ensures r.Fail? ==> t.mirror == s.mirror
    ensures var compacts := s.unusable || s.append + l.RecordSize(|data|) > l.regionSize;
            && (r == Fail(NoSpace) ==> NumbersUsedUp(s, compacts))
            && (r.Pass? && |data| > 0 ==> !NumbersUsedUp(s, compacts))
            && (r.Pass? && |data| > 0 ==> t.generation == s.generation + if compacts then 1 else 0)
  {
    hide LogInv, TailInv, Inspect, LoadRegion, OtherInv, OtherIsOlder, Put, HoldsRecord, RecordStopped, Committed;
    hide FullyBuilt, BeingBuilt, BeingCommitted, PartlyErased, SameBut, AlignUp;
    var recs', pending', held' := WriteKeeps(l, s, recs, pending, None, offset, data, r, t);
    if r.Pass? && |data| > 0 {
      PutAt(s.mirror, offset, data);
    }
    if l.RangeValid(offset, |data|) && 0 < |data| <= l.maxAtomicWrite && NeedsCompaction(l, s, |data|) {
      var c, mid :| CompactAndAppend(l, s, offset, data, c, mid, r, t);
    }
  }
}
