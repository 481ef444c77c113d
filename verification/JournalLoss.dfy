/**
  Where crash atomicity ends. A compaction may report failure although its commit
  marker reached the flash: the marker's own program call or the sync behind it
  failed. The live object then keeps appending to the old region while the next
  mount will choose the new one.
 */
module JournalLoss {
  import opened Bytes
  import opened Wrappers
  import opened NorFlash
  import opened JournalLayout
  import opened JournalFormat
  import opened JournalRecovery
  import opened JournalState
  import opened JournalSteps
  import opened JournalRuns

  /**
    The exact condition: an acknowledged write is there after the next mount if and
    only if the other region would not have taken over before the call, or the call
    had to compact, or what the mount would have given was the new image already.
   */
  lemma AcknowledgedWriteSurvives(l: Layout, s: State, recs: seq<Record>, pending: Option<Record>, held: Option<Record>,
                                  offset: nat, data: seq<byte>, t: State)
    requires Inv(l, s, recs, pending, held) && |data| > 0
    requires WriteRel(l, s, offset, data, Pass, t)
    ensures Shape(l, t) && t.mirror == Put(s.mirror, offset, data)
    ensures Mount(l, t.First(), t.Second()).Mounted?
    ensures Recoverable(l, t) == Some(t.mirror)
            <==> || !TakesOver(l, s) || NeedsCompaction(l, s, |data|)
                 || Recoverable(l, s) == Some(Put(s.mirror, offset, data))
  {
    hide Mount, LogInv, TailInv, WriteRel, OtherInv, OtherIsOlder, LoadRegion, Inspect, Put;
    var recs', pending', held' := WriteKeeps(l, s, recs, pending, held, offset, data, Pass, t);
    var u, recs'' := MountKeeps(l, t, recs', pending', held');
    TakesOverIs(l, s, recs, pending, held);
    if held.Some? {
      var v, recs3 := MountKeeps(l, s, recs, pending, held);
    }
  }

  // ---------- the smallest run that loses a write ----------

  /** A region with `rec` programmed at `at`. */
  function WithRecord(l: Layout, region: seq<byte>, at: nat, rec: Record): (r: seq<byte>)
    requires l.Valid() && at + l.RecordSize(|rec.data|) <= |region|
    ensures |r| == |region|
  {
    Splice(region, at, RecordHeader(l, rec) + Payload(l, rec.data) + RecordCommit(l, rec))
  }

  lemma WithRecordHolds(l: Layout, region: seq<byte>, at: nat, rec: Record)
    requires l.Valid() && at + l.RecordSize(|rec.data|) <= |region|
    ensures HoldsRecord(l, WithRecord(l, region, at, rec), at, rec)
    ensures SameBut(region, WithRecord(l, region, at, rec), at, at + l.RecordSize(|rec.data|))
  {
    hide RecordHeader, Payload, Commit;
    SplicePieces(region, at, RecordHeader(l, rec), Payload(l, rec.data), RecordCommit(l, rec));
  }

  /** A successful append. */
  function AfterAppend(l: Layout, s: State, offset: nat, data: seq<byte>): State
    requires Shape(l, s) && s.append + l.RecordSize(|data|) <= l.regionSize
  {
    var rec := Record(s.last + 1, offset, data);
    s.(own := WithRecord(l, s.own, s.append, rec),
       mirror := Put(s.mirror, offset, data), append := s.append + l.RecordSize(|data|), last := s.last + 1)
  }

  lemma AfterAppendRel(l: Layout, s: State, recs: seq<Record>, offset: nat, data: seq<byte>)
    requires Core(l, s, recs, None) && !s.unusable && s.last + 1 < U64_LIMIT
    requires 0 < |data| <= l.maxAtomicWrite && l.RangeValid(offset, |data|) && !NeedsCompaction(l, s, |data|)
    ensures var t := AfterAppend(l, s, offset, data);
            WriteRel(l, s, offset, data, Pass, t) && Shape(l, t) && t.mirror == Put(s.mirror, offset, data)
  {
    hide HoldsRecord, WithRecord, Put, LogInv, Inspect;
    var t := AfterAppend(l, s, offset, data);
    WithRecordHolds(l, s.own, s.append, Record(s.last + 1, offset, data));
    assert AppendRel(l, s, offset, data, Pass, t);
  }

  /** A compaction whose commit marker is complete but whose call reported an I/O error. */
  function AfterSilentCommit(l: Layout, s: State): State
    requires Shape(l, s)
  {
    WriteFitsAfterSnapshot(l, 0);
    s.(other := WithRecord(l, Formatted(l, s.generation + 1), l.RecordArea(), Snapshot(s)))
  }

  lemma AfterSilentCommitRel(l: Layout, s: State)
    requires Shape(l, s) && s.generation + 1 < U64_LIMIT && s.last + 1 < U64_LIMIT
    ensures CompactRel(l, s, Fail(Flash(Io)), AfterSilentCommit(l, s))
    ensures Shape(l, AfterSilentCommit(l, s))
  {
    hide HoldsRecord, WithRecord, Formatted, RegionHeader, Commit, Committed, Holds, PartOf, BeingBuilt, PartlyErased;
    hide Switched;
    WriteFitsAfterSnapshot(l, 0);
    var blank := Formatted(l, s.generation + 1);
    var region := WithRecord(l, blank, l.RecordArea(), Snapshot(s));
    FormattedCommitted(l, s.generation + 1);
    WithRecordHolds(l, blank, l.RecordArea(), Snapshot(s));
    CommittedFrame(l, blank, region, s.generation + 1);
    CommittedIsPart(l, region, s.generation + 1);
    assert BeingCommitted(l, s, region);
  }

  lemma CommittedIsPart(l: Layout, region: seq<byte>, generation: nat)
    requires l.Valid() && Committed(l, region, generation)
    ensures Holds(region, 0, RegionHeader(l, generation))
    ensures PartOf(region, l.RegionHeaderSize(), Commit(l, REGION_COMMIT_MAGIC, generation))
  {
    hide Commit, RegionHeader;
    DoneIsPart(region, l.RegionHeaderSize(), Commit(l, REGION_COMMIT_MAGIC, generation));
  }

  /** One-byte units, regions of one 225-byte erase unit, writes of up to two bytes. */
  const SMALL: Layout := Layout(1, 1, 225, 450, 2, 2, 0, 225)

  lemma SmallSizes()
    ensures SMALL.Valid() && SMALL.RecordArea() == 52
    ensures SMALL.RecordSize(1) == 57 && SMALL.RecordSize(2) == 58
  {
    assert Gcd(1, 1) == Gcd(1, 0) == 1;
    assert SMALL.IoUnit() == 1;
    assert AlignUp(36, 1) == 36 && AlignUp(40, 1) == 40 && AlignUp(16, 1) == 16;
    assert AlignUp(1, 1) == 1 && AlignUp(2, 1) == 2;
    WholeProduct(225, 1);
    WholeProduct(1, 225);
    WholeProduct(0, 225);
    WholeProduct(0, 1);
  }

  /**
    A freshly formatted journal, four writes and a restart: two writes succeed, the
    third needs a compaction and fails although its marker was committed, the fourth
    still fits the old region and is acknowledged. After the restart it is gone.
   */
  lemma AcknowledgedWriteLost()
    ensures exists states: seq<State> ::
              && |states| == 6 && states[0] == Fresh(SMALL) && Run(SMALL, states, LOSING)
              && states[4].mirror == [9, 2] && states[5].mirror == [1, 2]
              && Lost(SMALL, states, LOSING, 3)
  {
    hide HoldsRecord, WithRecord, Formatted, Inspect, LogInv, TailInv, WriteRel, Mount, LoadRegion, Inv, OtherIsOlder;
    SmallSizes();
    FreshInv(SMALL);
    var s0 := Fresh(SMALL);
    var s1, recs1 := Appends(SMALL, s0, [], None, 0, [1, 2]);
    var s2, recs2 := Appends(SMALL, s1, recs1, None, 0, [1, 2]);
    assert s2.mirror == [1, 2];
    var s3 := SilentCommit(SMALL, s2, recs2, 0, [3, 4]);
    var s4, recs4 := Appends(SMALL, s3, recs2, Some(Snapshot(s2)), 0, [9]);
    assert s4.mirror == [9, 2];
    var s5 := TakenOver(SMALL, s4, recs4, Snapshot(s2));
    var states := [s0, s1, s2, s3, s4, s5];
    assert NextMount(LOSING, 3, 4) && Bypassed(SMALL, states[3], states[4]);
  }

  const LOSING: seq<Event> :=
    [Wrote(0, [1, 2], Pass), Wrote(0, [1, 2], Pass), Wrote(0, [3, 4], Fail(Flash(Io))), Wrote(0, [9], Pass), Restarted]

  /** A write that fits the region succeeds. */
  lemma Appends(l: Layout, s: State, recs: seq<Record>, held: Option<Record>, offset: nat, data: seq<byte>)
    returns (t: State, recs': seq<Record>)
    requires Inv(l, s, recs, None, held) && !s.unusable && s.last + 1 < U64_LIMIT
    requires 0 < |data| <= l.maxAtomicWrite && l.RangeValid(offset, |data|) && !NeedsCompaction(l, s, |data|)
    ensures Shape(l, s) && Shape(l, t) && Step(l, s, Wrote(offset, data, Pass), t)
    ensures Inv(l, t, recs', None, held) && !t.unusable
    ensures t.mirror == Put(s.mirror, offset, data) && t.append == s.append + l.RecordSize(|data|)
    ensures t.last == s.last + 1 && t.generation == s.generation && t.other == s.other
    ensures TakesOver(l, t) <==> TakesOver(l, s)
  {
    hide WithRecord, LogInv, TailInv, WriteRel, OtherInv, Put, TakesOver;
    t := AfterAppend(l, s, offset, data);
    AfterAppendRel(l, s, recs, offset, data);
    var pending', held';
    recs', pending', held' := WriteKeeps(l, s, recs, None, held, offset, data, Pass, t);
    TakesOverIs(l, s, recs, None, held);
    TakesOverIs(l, t, recs', None, held);
  }

  /** A write that needs a compaction fails behind the complete commit marker. */
  lemma SilentCommit(l: Layout, s: State, recs: seq<Record>, offset: nat, data: seq<byte>) returns (t: State)
    requires Inv(l, s, recs, None, None) && s.generation + 1 < U64_LIMIT && s.last + 1 < U64_LIMIT
    requires 0 < |data| <= l.maxAtomicWrite && l.RangeValid(offset, |data|) && NeedsCompaction(l, s, |data|)
    ensures Shape(l, s) && Shape(l, t) && Step(l, s, Wrote(offset, data, Fail(Flash(Io))), t)
    ensures Inv(l, t, recs, None, Some(Snapshot(s))) && t == s.(other := t.other) && TakesOver(l, t)
  {
    hide HoldsRecord, WithRecord, Formatted, Committed, HoldsLog, OrderedAfter, CompactRel, TakesOver;
    t := AfterSilentCommit(l, s);
    AfterSilentCommitRel(l, s);
    FailedCompactionWrite(l, s, offset, data, t);
    SilentCommitHolds(l, s);
    LogInvFrame(l, s, recs, t);
    TakesOverIs(l, t, recs, None, Some(Snapshot(s)));
  }

  /** The next mount gives the snapshot. */
  lemma TakenOver(l: Layout, s: State, recs: seq<Record>, snap: Record) returns (t: State)
    requires Inv(l, s, recs, None, Some(snap))
    ensures Shape(l, s) && Shape(l, t) && Step(l, s, Restarted, t) && t.mirror == snap.data
  {
    hide Mount, LogInv, TailInv;
    var recs';
    t, recs' := MountKeeps(l, s, recs, None, Some(snap));
  }

  lemma FailedCompactionWrite(l: Layout, s: State, offset: nat, data: seq<byte>, t: State)
    requires Shape(l, s) && NeedsCompaction(l, s, |data|)
    requires 0 < |data| <= l.maxAtomicWrite && l.RangeValid(offset, |data|)
    requires CompactRel(l, s, Fail(Flash(Io)), t)
    ensures WriteRel(l, s, offset, data, Fail(Flash(Io)), t)
  {
    hide CompactRel;
    assert CompactAndAppend(l, s, offset, data, Fail(Flash(Io)), t, Fail(Flash(Io)), t);
  }

  lemma SilentCommitHolds(l: Layout, s: State)
    requires Shape(l, s) && s.generation + 1 < U64_LIMIT && s.last + 1 < U64_LIMIT
    ensures Shape(l, AfterSilentCommit(l, s)) && SupersededBy(l, AfterSilentCommit(l, s), Snapshot(s))
  {
    hide HoldsRecord, WithRecord, Formatted, RegionHeader, Commit, Committed;
    WriteFitsAfterSnapshot(l, 0);
    var blank := Formatted(l, s.generation + 1);
    var region := WithRecord(l, blank, l.RecordArea(), Snapshot(s));
    FormattedCommitted(l, s.generation + 1);
    WithRecordHolds(l, blank, l.RecordArea(), Snapshot(s));
    CommittedFrame(l, blank, region, s.generation + 1);
  }

  // ---------- what a misread region gives ----------

  /**
    What a misread comes to: the remains of the snapshot pass the header check, the
    marker check and the checksum of the payload, and the next mount gives them.
   */
  lemma MisreadGives(l: Layout, s: State, recs: seq<Record>, pending: Option<Record>, held: Option<Record>, t: State)
    returns (rec: Record)
    requires Inv(l, s, recs, pending, held) && HeaderInOneUnit(l)
    requires |t.other| == l.regionSize && Misread(l, s, t)
    ensures Certified(l, t.other, l.RecordArea(), rec) && IsSnapshot(l, rec)
    ensures Shape(l, t) && Recoverable(l, t) == Some(rec.data)
  {
    hide LogInv, Inspect, TailInv, PartlyErased, LoadRegion, Mount, ErasedFrom, Certified, OtherInv;
    hide BeingBuilt, BeingCommitted;
    hide IsSnapshot, OtherIsNewer;
    MisreadNeeds(l, s, t);
    TakesOverIff(l, s, recs, pending, held);
    ErasedBehind(l, s, held, t);
    rec := LoadsSnapshot(l, t.other, s.generation + 1);
    MountsOther(l, t);
  }

  lemma ErasedBehind(l: Layout, s: State, held: Option<Record>, t: State)
    requires Shape(l, s) && OtherInv(l, s, held) && OtherIsNewer(l, s)
    requires PartlyErased(s.other, 0, l.regionSize, l.eraseSize, t.other)
    ensures ErasedFrom(t.other, l.RecordArea() + l.RecordSize(l.logicalCapacity))
  {
    hide ErasedFrom, Inspect, LoadRegion, Committed, HoldsRecord, PartlyErased;
    ErasedStaysErased(l, s.other, t.other, l.RecordArea() + l.RecordSize(l.logicalCapacity));
  }

  /** A region that loads and is erased behind its first place for a record holds one certified snapshot. */
  lemma LoadsSnapshot(l: Layout, region: seq<byte>, generation: nat) returns (rec: Record)
    requires l.Valid() && |region| == l.regionSize && generation != 1
    requires ErasedFrom(region, l.RecordArea() + l.RecordSize(l.logicalCapacity))
    requires LoadRegion(l, region, generation) != Corrupt
    ensures Certified(l, region, l.RecordArea(), rec) && IsSnapshot(l, rec)
    ensures LoadRegion(l, region, generation).image == rec.data
  {
    hide Certified, Probe, ErasedFrom, Put;
    var at := l.RecordArea();
    var f := Probe(l, region, at, 0, false);
    rec := f.rec;
    FoundIffCertified(l, region, at, 0, false, rec);
    PutWhole(Filled(l.logicalCapacity, ERASED), rec.data);
    ScanErased(l, region, at + l.RecordSize(|rec.data|), rec.sequence, rec.data);
  }

  lemma MountsOther(l: Layout, t: State)
    requires Shape(l, t) && Inspect(l, t.own) == Some(t.generation) && Inspect(l, t.other) == Some(t.generation + 1)
    requires LoadRegion(l, t.other, t.generation + 1) != Corrupt
    ensures Recoverable(l, t) == Some(LoadRegion(l, t.other, t.generation + 1).image)
  {
    hide Inspect, LoadRegion;
  }
}
