/**
  A journal together with the flash under it, as one value: what mounting makes
  of two regions, and the invariant that every operation keeps.
 */
module JournalState {
  import opened Bytes
  import opened Wrappers
  import opened NorFlash
  import opened JournalLayout
  import opened JournalFormat
  import opened JournalRecovery
  import Crc32

  function Opposite(region: nat): nat { if region == 0 then 1 else 0 }

  lemma OppositeTwice(region: nat)
    requires region <= 1
    ensures Opposite(region) <= 1 && Opposite(Opposite(region)) == region
  {
  }

  /**
    `own` is the active region, `other` the one a compaction would build; `append`
    is relative to the start of the active region.
   */
  datatype State = State(own: seq<byte>, other: seq<byte>, mirror: seq<byte>,
                         generation: nat, last: nat, append: nat, active: nat, unusable: bool)
  {
    function Destination(): nat { Opposite(active) }

    function First(): seq<byte> { if active == 0 then own else other }

    function Second(): seq<byte> { if active == 0 then other else own }
  }

  // ---------- mounting ----------

  datatype Mounting = Unformatted | Unrecovered | Mounted(state: State)

  function LoadInto(l: Layout, first: seq<byte>, second: seq<byte>, active: nat, generation: nat): Mounting
    requires l.Valid() && |first| == |second| == l.regionSize
  {
    var own, other := if active == 0 then first else second, if active == 0 then second else first;
    match LoadRegion(l, own, generation)
    case Corrupt => Unrecovered
    case Loaded(image, last, append, unusable) =>
      Mounted(State(own, other, image, generation, last, append, active, unusable))
  }

  function Mount(l: Layout, first: seq<byte>, second: seq<byte>): (m: Mounting)
    requires l.Valid() && |first| == |second| == l.regionSize
    ensures m.Mounted? ==> m.state.First() == first && m.state.Second() == second
  {
    var a, b := Inspect(l, first), Inspect(l, second);
    if a.None? && b.None? then
      if AllErased(first) && AllErased(second) then Unformatted else Unrecovered
    else if a.Some? && b.Some? && a.value == b.value then Unrecovered
    else
      var secondIsNewer := b.Some? && (a.None? || b.value > a.value);
      var loaded := if secondIsNewer then LoadInto(l, first, second, 1, b.value)
                    else LoadInto(l, first, second, 0, a.value);
      if loaded.Mounted? then loaded
      else if secondIsNewer then
        if a.None? then Unrecovered else LoadInto(l, first, second, 0, a.value)
      else
        if b.None? then Unrecovered else LoadInto(l, first, second, 1, b.value)
  }

  // ---------- the invariant ----------

  ghost predicate Committed(l: Layout, region: seq<byte>, generation: nat)
    requires l.Valid()
  {
    && Holds(region, 0, RegionHeader(l, generation))
    && Holds(region, l.RegionHeaderSize(), Commit(l, REGION_COMMIT_MAGIC, generation))
  }

  /** The live values are those of the log in the active region. */
  ghost predicate LogInv(l: Layout, s: State, recs: seq<Record>)
    requires l.Valid()
  {
    && Committed(l, s.own, s.generation)
    && HoldsLog(l, s.own, l.RecordArea(), recs)
    && OrderedAfter(l, 0, recs)
    && (s.generation == 1 || (recs != [] && IsSnapshot(l, recs[0])))
    && s.mirror == Replay(Filled(l.logicalCapacity, ERASED), recs)
    && s.last == LastSequence(0, recs)
    && s.append == l.RecordArea() + LogSize(l, recs)
  }

  /** Recovery stops here without applying anything. */
  ghost predicate DeadEnd(l: Layout, region: seq<byte>, at: nat, last: nat)
    requires l.Valid()
  {
    at + l.RecordHeaderSize() + l.CommitSize() > |region| || Probe(l, region, at, last, true) == Dead
  }

  /** A complete record whose write was reported as failed. */
  ghost predicate Survivor(l: Layout, region: seq<byte>, at: nat, last: nat, rec: Record)
    requires l.Valid()
  {
    && RecordOk(l, rec) && rec.sequence > last
    && HoldsRecord(l, region, at, rec) && ErasedFrom(region, at + l.RecordSize(|rec.data|))
  }

  /** Behind the log: erased cells while the tail is usable; else what one failed write left. */
  ghost predicate TailInv(l: Layout, s: State, pending: Option<Record>)
    requires l.Valid()
  {
    || (ErasedFrom(s.own, s.append) && (s.unusable || pending.None?))
    || (s.unusable && DeadEnd(l, s.own, s.append, s.last))
    || (s.unusable && pending.Some? && Survivor(l, s.own, s.append, s.last, pending.value))
  }

  function Snapshot(s: State): Record { Record(s.last + 1, 0, s.mirror) }

  /** The other region is committed with a complete snapshot, by a compaction whose success was never reported. */
  ghost predicate SupersededBy(l: Layout, s: State, snap: Record)
    requires l.Valid()
  {
    && s.generation + 1 < U64_LIMIT && RecordOk(l, snap) && IsSnapshot(l, snap) && snap.sequence <= s.last + 1
    && Committed(l, s.other, s.generation + 1)
    && HoldsRecord(l, s.other, l.RecordArea(), snap)
    && ErasedFrom(s.other, l.RecordArea() + l.RecordSize(l.logicalCapacity))
  }

  /** The other region is newer by its header but has lost its snapshot to an erase that was cut. */
  ghost predicate Broken(l: Layout, s: State)
    requires l.Valid() && |s.other| == l.regionSize
  {
    && s.generation + 1 < U64_LIMIT && Inspect(l, s.other) == Some(s.generation + 1)
    && LoadRegion(l, s.other, s.generation + 1) == Corrupt
    && ErasedFrom(s.other, l.RecordArea() + l.RecordSize(l.logicalCapacity))
  }

  predicate OtherIsNewer(l: Layout, s: State)
    requires l.Valid() && |s.other| == l.regionSize
  {
    Inspect(l, s.other).Some? && Inspect(l, s.other).value > s.generation
  }

  predicate OtherIsOlder(l: Layout, s: State)
    requires l.Valid() && |s.other| == l.regionSize
  {
    Inspect(l, s.other).None? || Inspect(l, s.other).value < s.generation
  }

  ghost predicate Shape(l: Layout, s: State) {
    && l.Valid()
    && |s.own| == |s.other| == l.regionSize
    && |s.mirror| == l.logicalCapacity
    && s.active <= 1
    && 0 < s.generation < U64_LIMIT && s.last < U64_LIMIT && s.append <= l.regionSize
  }

  /** What the live object relies on: its own region, whatever the other one holds. */
  ghost predicate Core(l: Layout, s: State, recs: seq<Record>, pending: Option<Record>) {
    Shape(l, s) && LogInv(l, s, recs) && TailInv(l, s, pending)
  }

  /** The next mount would choose the other region. */
  predicate TakesOver(l: Layout, s: State)
    requires l.Valid() && |s.other| == l.regionSize
  {
    OtherIsNewer(l, s) && LoadRegion(l, s.other, Inspect(l, s.other).value) != Corrupt
  }

  /** The other region counts for less, or holds the snapshot `held` that the next mount will choose. */
  ghost predicate OtherInv(l: Layout, s: State, held: Option<Record>)
    requires l.Valid() && |s.other| == l.regionSize
  {
    match held
    case None => OtherIsOlder(l, s) || Broken(l, s)
    case Some(snap) => SupersededBy(l, s, snap)
  }

  /** What the live object and the next mount rely on. */
  ghost predicate Inv(l: Layout, s: State, recs: seq<Record>, pending: Option<Record>, held: Option<Record>) {
    Core(l, s, recs, pending) && OtherInv(l, s, held)
  }

  // ---------- inspecting regions ----------

  lemma InspectCommitted(l: Layout, region: seq<byte>, generation: nat)
    requires l.Valid() && |region| == l.regionSize && 0 < generation < U64_LIMIT
    requires Committed(l, region, generation)
    ensures Inspect(l, region) == Some(generation)
  {
    hide RegionHeaderValid, CommitValid, Sealed, Commit;
    HeaderStarts(l, region, generation);
    RegionHeaderRoundTrip(l, generation, region[..l.RegionHeaderSize()]);
    CommitReadsBack(l, region, l.RegionHeaderSize(), REGION_COMMIT_MAGIC, generation);
  }

  lemma HeaderStarts(l: Layout, region: seq<byte>, generation: nat)
    requires l.Valid() && Holds(region, 0, RegionHeader(l, generation))
    ensures l.RegionHeaderSize() <= |region|
    ensures region[..l.RegionHeaderSize()][..36] == Sealed(RegionBody(l, generation))
  {
    var header := region[..l.RegionHeaderSize()];
    assert header == region[0..0 + l.RegionHeaderSize()] == RegionHeader(l, generation);
    assert header[..36] == Sealed(RegionBody(l, generation));
  }

  /** Until its commit marker is complete a region counts for nothing. */
  lemma InspectUncommitted(l: Layout, region: seq<byte>, generation: nat)
    requires l.Valid() && |region| == l.regionSize && 0 < generation < U64_LIMIT
    requires Holds(region, 0, RegionHeader(l, generation))
    requires PartOf(region, l.RegionHeaderSize(), Commit(l, REGION_COMMIT_MAGIC, generation))
    ensures Inspect(l, region).None? || (Inspect(l, region) == Some(generation) && Committed(l, region, generation))
  {
    hide RegionHeaderValid, CommitValid, Sealed, Commit, PartOf;
    HeaderStarts(l, region, generation);
    RegionHeaderRoundTrip(l, generation, region[..l.RegionHeaderSize()]);
    if Inspect(l, region).Some? {
      CommitPartPinned(l, region, l.RegionHeaderSize(), REGION_COMMIT_MAGIC, generation);
    }
  }

  lemma InspectWithoutCommit(l: Layout, region: seq<byte>)
    requires l.Valid() && |region| == l.regionSize && region[l.RegionHeaderSize()] == ERASED
    ensures Inspect(l, region) == None
  {
    hide RegionHeaderValid, CommitValid;
    var header := region[..l.RegionHeaderSize()];
    ErasedCommitRefused(l, region, l.RegionHeaderSize(), REGION_COMMIT_MAGIC, Field(header, 8, 8));
  }

  lemma InspectWithoutHeader(l: Layout, region: seq<byte>)
    requires l.Valid() && |region| == l.regionSize && region[0] == ERASED
    ensures Inspect(l, region) == None
  {
    hide CommitValid;
    ErasedMagicRefused(region[..l.RegionHeaderSize()], REGION_MAGIC);
  }

  /**
    While an erase is under way a region whose header and marker share an erase
    unit either still reads as before or no longer counts.
   */
  lemma InspectPartlyErased(l: Layout, before: seq<byte>, region: seq<byte>)
    requires l.Valid() && |before| == l.regionSize && l.RecordArea() <= l.eraseSize
    requires PartlyErased(before, 0, l.regionSize, l.eraseSize, region)
    ensures Inspect(l, region).None? || Inspect(l, region) == Inspect(l, before)
  {
    hide RegionHeaderValid, CommitValid;
    var n := l.RecordArea();
    if region[..n] == before[..n] {
      assert region[..l.RegionHeaderSize()] == region[..n][..l.RegionHeaderSize()];
      assert before[..l.RegionHeaderSize()] == before[..n][..l.RegionHeaderSize()];
      assert region[l.RegionHeaderSize()..n] == region[..n][l.RegionHeaderSize()..];
      assert before[l.RegionHeaderSize()..n] == before[..n][l.RegionHeaderSize()..];
    } else {
      var j :| 0 <= j < n && region[j] != before[j];
      FirstUnit(j, l.eraseSize);
      assert region[0] == ERASED;
      InspectWithoutHeader(l, region);
    }
  }

  lemma FirstUnit(j: nat, unit: nat)
    requires j < unit
    ensures SameUnit(0, j, unit)
  {
  }

  /** When a region is one erase unit, an interrupted erase leaves it alone or makes it count for nothing. */
  lemma OneUnitPartlyErased(l: Layout, before: seq<byte>, region: seq<byte>)
    requires l.Valid() && |before| == l.regionSize == l.eraseSize
    requires PartlyErased(before, 0, l.regionSize, l.eraseSize, region)
    ensures region == before || Inspect(l, region) == None
  {
    if region != before {
      var j :| 0 <= j < |region| && region[j] != before[j];
      FirstUnit(j, l.eraseSize);
      InspectWithoutHeader(l, region);
    }
  }

  // ---------- mounting a state that satisfies the invariant ----------

  /** What the scan makes of the tail: nothing, or the one record that survived. */
  lemma ScanTail(l: Layout, s: State, pending: Option<Record>)
    requires Shape(l, s) && TailInv(l, s, pending)
    ensures var r := Scan(l, s.own, s.append, s.last, true, s.mirror);
            || (&& r.Loaded? && r.image == s.mirror && r.last == s.last && r.append == s.append
                && (ErasedFrom(s.own, s.append) || (r.unusable && DeadEnd(l, s.own, s.append, s.last)))
                && (ErasedFrom(s.own, s.append) ==>
                      (r.unusable <==> s.append + l.RecordHeaderSize() + l.CommitSize() > l.regionSize)))
            || (&& pending.Some? && Survivor(l, s.own, s.append, s.last, pending.value)
                && r.Loaded? && r.image == Put(s.mirror, pending.value.offset, pending.value.data)
                && r.last == pending.value.sequence
                && r.append == s.append + l.RecordSize(|pending.value.data|)
                && ErasedFrom(s.own, r.append))
  {
    hide Holds, HoldsRecord, Probe, Committed;
    var region := s.own;
    if ErasedFrom(region, s.append) {
      ScanErased(l, region, s.append, s.last, s.mirror);
    } else if !DeadEnd(l, region, s.append, s.last) {
      var rec := pending.value;
      ProbeComplete(l, region, s.append, rec, s.last, true);
      ScanErased(l, region, s.append + l.RecordSize(|rec.data|), rec.sequence, Put(s.mirror, rec.offset, rec.data));
    }
  }

  lemma ScanErased(l: Layout, region: seq<byte>, at: nat, last: nat, image: seq<byte>)
    requires l.Valid() && at <= |region| && |image| == l.logicalCapacity && ErasedFrom(region, at)
    ensures Scan(l, region, at, last, true, image)
         == Loaded(image, last, at, at + l.RecordHeaderSize() + l.CommitSize() > |region|)
  {
  }

  /** Loading the active region rebuilds the live values, up to the one failed write. */
  lemma LoadActive(l: Layout, s: State, recs: seq<Record>)
    requires Shape(l, s) && LogInv(l, s, recs)
    ensures LoadRegion(l, s.own, s.generation) == Scan(l, s.own, s.append, s.last, true, s.mirror)
  {
    hide Scan, Committed, HoldsLog, OrderedAfter;
    ScanAcrossLog(l, s.own, l.RecordArea(), recs, 0, s.generation == 1, Filled(l.logicalCapacity, ERASED));
  }

  // ---------- growing a log ----------

  lemma LogSizeAppend(l: Layout, recs: seq<Record>, rec: Record)
    requires l.PositiveUnits()
    ensures LogSize(l, recs + [rec]) == LogSize(l, recs) + l.RecordSize(|rec.data|)
  {
    if recs == [] {
      assert (recs + [rec])[1..] == [];
    } else {
      LogSizeAppend(l, recs[1..], rec);
      assert (recs + [rec])[1..] == recs[1..] + [rec];
    }
  }

  /** Holding a record depends on its own cells only. */
  lemma HoldsRecordFrame(l: Layout, region: seq<byte>, other: seq<byte>, at: nat, rec: Record)
    requires l.Valid() && HoldsRecord(l, region, at, rec) && |other| == |region|
    requires forall i :: at <= i < at + l.RecordSize(|rec.data|) ==> other[i] == region[i]
    ensures HoldsRecord(l, other, at, rec)
  {
    hide RecordHeader, Payload, Commit;
    var payloadAt := at + l.RecordHeaderSize();
    var commitAt := payloadAt + l.PaddedSize(|rec.data|);
    assert other[at..payloadAt] == region[at..payloadAt];
    assert other[payloadAt..commitAt] == region[payloadAt..commitAt];
    assert other[commitAt..commitAt + l.CommitSize()] == region[commitAt..commitAt + l.CommitSize()];
  }

  lemma {:induction false} HoldsLogAppend(l: Layout, region: seq<byte>, other: seq<byte>, at: nat,
                                          recs: seq<Record>, rec: Record)
    requires l.Valid() && HoldsLog(l, region, at, recs) && |other| == |region|
    requires forall i :: at <= i < at + LogSize(l, recs) && i < |region| ==> other[i] == region[i]
    requires HoldsRecord(l, other, at + LogSize(l, recs), rec)
    ensures HoldsLog(l, other, at, recs + [rec])
    decreases recs
  {
    hide HoldsRecord;
    if recs == [] {
      assert (recs + [rec])[1..] == [];
    } else {
      RecordFits(l, region, at, recs[0]);
      HoldsRecordFrame(l, region, other, at, recs[0]);
      HoldsLogAppend(l, region, other, at + l.RecordSize(|recs[0].data|), recs[1..], rec);
      assert (recs + [rec])[1..] == recs[1..] + [rec];
    }
  }

  lemma {:induction false} OrderedAppend(l: Layout, last: nat, recs: seq<Record>, rec: Record)
    requires OrderedAfter(l, last, recs) && RecordOk(l, rec) && rec.sequence > LastSequence(last, recs)
    ensures OrderedAfter(l, last, recs + [rec]) && LastSequence(last, recs + [rec]) == rec.sequence
    decreases recs
  {
    if recs == [] {
      assert (recs + [rec])[1..] == [];
    } else {
      OrderedAppend(l, recs[0].sequence, recs[1..], rec);
      assert (recs + [rec])[1..] == recs[1..] + [rec];
    }
  }

  lemma {:induction false} ReplayAppend(image: seq<byte>, recs: seq<Record>, rec: Record)
    ensures Replay(image, recs + [rec]) == Put(Replay(image, recs), rec.offset, rec.data)
    decreases recs
  {
    if recs == [] {
      assert (recs + [rec])[1..] == [];
    } else {
      ReplayAppend(Put(image, recs[0].offset, recs[0].data), recs[1..], rec);
      assert (recs + [rec])[1..] == recs[1..] + [rec];
    }
  }

  /** Replacing the cells behind the log by a record extends the log by that record. */
  lemma LogInvAppend(l: Layout, s: State, recs: seq<Record>, rec: Record, t: State)
    requires Shape(l, s) && LogInv(l, s, recs) && Shape(l, t)
    requires RecordOk(l, rec) && rec.sequence > s.last
    requires forall i :: 0 <= i < s.append ==> t.own[i] == s.own[i]
    requires HoldsRecord(l, t.own, s.append, rec)
    requires t.generation == s.generation && t.last == rec.sequence
    requires t.mirror == Put(s.mirror, rec.offset, rec.data)
    requires t.append == s.append + l.RecordSize(|rec.data|)
    ensures LogInv(l, t, recs + [rec])
  {
    hide Committed, IsSnapshot, HoldsRecord, HoldsLog, Put, OrderedAfter, LastSequence, RecordOk, LogSize;
    CommittedFrame(l, s.own, t.own, s.generation);
    HoldsLogAppend(l, s.own, t.own, l.RecordArea(), recs, rec);
    OrderedAppend(l, 0, recs, rec);
    ReplayAppend(Filled(l.logicalCapacity, ERASED), recs, rec);
    LogSizeAppend(l, recs, rec);
  }

  lemma CommittedFrame(l: Layout, region: seq<byte>, other: seq<byte>, generation: nat)
    requires l.Valid() && Committed(l, region, generation) && |other| == |region|
    requires forall i :: 0 <= i < l.RecordArea() ==> other[i] == region[i]
    ensures Committed(l, other, generation)
  {
    hide RegionHeader, Commit;
    assert other[0..l.RegionHeaderSize()] == region[0..l.RegionHeaderSize()];
    assert other[l.RegionHeaderSize()..l.RecordArea()] == region[l.RegionHeaderSize()..l.RecordArea()];
  }

  // ---------- what mounting returns ----------

  /** The state a superseding region stands for. */
  function FromSnapshot(l: Layout, s: State, snap: Record): State
    requires l.Valid()
  {
    s.(own := s.other, other := s.own, mirror := snap.data,
       generation := s.generation + 1, last := snap.sequence, active := s.Destination(),
       append := l.RecordArea() + l.RecordSize(l.logicalCapacity),
       unusable := l.RecordArea() + l.RecordSize(l.logicalCapacity)
                   + l.RecordHeaderSize() + l.CommitSize() > l.regionSize)
  }

  /** A region holding just a committed snapshot satisfies the log invariant. */
  lemma SnapshotLog(l: Layout, t: State, snap: Record)
    requires l.Valid() && RecordOk(l, snap) && IsSnapshot(l, snap)
    requires Committed(l, t.own, t.generation) && HoldsRecord(l, t.own, l.RecordArea(), snap)
    requires t.mirror == snap.data && t.last == snap.sequence
    requires t.append == l.RecordArea() + l.RecordSize(l.logicalCapacity)
    ensures LogInv(l, t, [snap])
  {
    hide HoldsRecord, Committed, HoldsLog, OrderedAfter, LastSequence, Put, LogSize;
    SingleLog(l, t.own, l.RecordArea(), snap);
    PutWhole(Filled(l.logicalCapacity, ERASED), snap.data);
    ReplayAppend(Filled(l.logicalCapacity, ERASED), [], snap);
    assert [] + [snap] == [snap];
  }

  lemma SingleLog(l: Layout, region: seq<byte>, at: nat, rec: Record)
    requires l.Valid() && RecordOk(l, rec) && HoldsRecord(l, region, at, rec)
    ensures HoldsLog(l, region, at, [rec]) && OrderedAfter(l, 0, [rec])
    ensures LastSequence(0, [rec]) == rec.sequence && LogSize(l, [rec]) == l.RecordSize(|rec.data|)
  {
    hide HoldsRecord;
    assert [rec][1..] == [];
  }

  lemma PutWhole(image: seq<byte>, data: seq<byte>)
    requires |image| == |data|
    ensures Put(image, 0, data) == data
  {
  }

  /** Whether the other region takes over is what `held` says. */
  lemma TakesOverIff(l: Layout, s: State, recs: seq<Record>, pending: Option<Record>, held: Option<Record>)
    requires Inv(l, s, recs, pending, held)
    ensures Inspect(l, s.own) == Some(s.generation) && Inspect(l, s.other) != Some(s.generation)
    ensures OtherIsNewer(l, s) ==> Inspect(l, s.other) == Some(s.generation + 1)
    ensures TakesOver(l, s) <==> held.Some?
    ensures OtherIsNewer(l, s) <==> held.Some? || Broken(l, s)
    ensures held.Some? ==>
              var t := FromSnapshot(l, s, held.value);
              LoadRegion(l, s.other, s.generation + 1) == Loaded(t.mirror, t.last, t.append, t.unusable)
  {
    hide HoldsRecord, HoldsLog, OrderedAfter, Committed, Inspect, LoadRegion, TailInv, LogSize, LastSequence, ErasedFrom;
    InspectCommitted(l, s.own, s.generation);
    if held.Some? {
      InspectCommitted(l, s.other, s.generation + 1);
      SupersedingLoads(l, s, held.value);
    }
  }

  lemma SupersedingLoads(l: Layout, s: State, snap: Record)
    requires Shape(l, s) && SupersededBy(l, s, snap)
    ensures var t := FromSnapshot(l, s, snap);
            && Shape(l, t) && LogInv(l, t, [snap])
            && LoadRegion(l, s.other, s.generation + 1) == Loaded(t.mirror, t.last, t.append, t.unusable)
  {
    hide HoldsRecord, Committed, Probe, Scan;
    var t := FromSnapshot(l, s, snap);
    WriteFitsAfterSnapshot(l, 0);
    SnapshotLog(l, t, snap);
    LoadActive(l, t, [snap]);
    ScanErased(l, t.own, t.append, t.last, t.mirror);
  }

  /**
    Mounting any state that satisfies the invariant succeeds. If the other region
    takes over, the result is exactly its snapshot. Otherwise it is the live object
    rebuilt, the image possibly with the one failed write that is outstanding.
   */
  lemma MountKeeps(l: Layout, s: State, recs: seq<Record>, pending: Option<Record>, held: Option<Record>)
    returns (t: State, recs': seq<Record>)
    requires Inv(l, s, recs, pending, held)
    ensures Mount(l, s.First(), s.Second()) == Mounted(t)
    ensures Inv(l, t, recs', None, None) && !TakesOver(l, t)
    ensures held.Some? || OtherIsOlder(l, s) ==> OtherIsOlder(l, t)
    ensures held.Some? ==> t == FromSnapshot(l, s, held.value)
    ensures held.None? ==> t.own == s.own && t.other == s.other && t.active == s.active && t.generation == s.generation
    ensures held.None? ==>
              t.mirror == s.mirror
              || (pending.Some? && t.mirror == Put(s.mirror, pending.value.offset, pending.value.data))
    ensures held.None? && pending.None? ==>
              && t == s.(unusable := t.unusable)
              && (t.unusable <==> !ErasedFrom(s.own, s.append)
                                  || s.append + l.RecordHeaderSize() + l.CommitSize() > l.regionSize)
  {
    hide HoldsRecord, Committed, Probe, Scan, HoldsLog, OrderedAfter, Inspect, Survivor, DeadEnd, LoadRegion, Put;
    hide ErasedFrom, LogSize, LastSequence;
    TakesOverIff(l, s, recs, pending, held);
    if held.None? {
      t, recs' := MountActive(l, s, recs, pending);
    } else {
      t, recs' := MountSuperseded(l, s, recs, pending, held.value);
    }
    TakesOverIff(l, t, recs', None, None);
  }

  lemma MountActive(l: Layout, s: State, recs: seq<Record>, pending: Option<Record>)
    returns (t: State, recs': seq<Record>)
    requires Inv(l, s, recs, pending, None)
    requires Inspect(l, s.own) == Some(s.generation)
    ensures Mount(l, s.First(), s.Second()) == Mounted(t)
    ensures Inv(l, t, recs', None, None)
    ensures t.mirror == s.mirror
         || (pending.Some? && t.mirror == Put(s.mirror, pending.value.offset, pending.value.data))
    ensures t.own == s.own && t.other == s.other && t.active == s.active && t.generation == s.generation
    ensures pending.None? ==>
              && t == s.(unusable := t.unusable)
              && (t.unusable <==> !ErasedFrom(s.own, s.append)
                                  || s.append + l.RecordHeaderSize() + l.CommitSize() > l.regionSize)
  {
    hide HoldsRecord, Committed, Probe, Scan, HoldsLog, OrderedAfter, Inspect, Put, RecordOk, LastSequence, LogSize;
    hide Broken;
    LoadActive(l, s, recs);
    ScanTail(l, s, pending);
    var r := Scan(l, s.own, s.append, s.last, true, s.mirror);
    t := s.(mirror := r.image, last := r.last, append := r.append, unusable := r.unusable);
    MountsActive(l, s, t);
    StillLess(l, s, t);
    if r.image == s.mirror && r.last == s.last && r.append == s.append
       && (ErasedFrom(s.own, s.append) || (r.unusable && DeadEnd(l, s.own, s.append, s.last))) {
      recs' := recs;
      SameLog(l, s, recs, t);
    } else {
      var rec := pending.value;
      recs' := recs + [rec];
      SurvivorFits(l, s.own, s.append, s.last, rec);
      LogInvAppend(l, s, recs, rec, t);
    }
  }

  /** What the other region is good for depends on its cells and the live generation alone. */
  lemma StillLess(l: Layout, s: State, t: State)
    requires l.Valid() && |s.other| == l.regionSize && t.other == s.other && t.generation == s.generation
    ensures OtherIsOlder(l, s) == OtherIsOlder(l, t) && Broken(l, s) == Broken(l, t)
    ensures s.last <= t.last ==> forall snap :: SupersededBy(l, s, snap) ==> SupersededBy(l, t, snap)
  {
    hide Inspect, LoadRegion, HoldsRecord, Committed;
  }

  lemma SurvivorFits(l: Layout, region: seq<byte>, at: nat, last: nat, rec: Record)
    requires l.Valid() && Survivor(l, region, at, last, rec)
    ensures RecordOk(l, rec) && rec.sequence < U64_LIMIT && at + l.RecordSize(|rec.data|) <= |region|
  {
  }

  lemma SameLog(l: Layout, s: State, recs: seq<Record>, t: State)
    requires l.Valid() && LogInv(l, s, recs) && t == s.(unusable := t.unusable)
    ensures LogInv(l, t, recs)
  {
    hide HoldsLog, Committed, OrderedAfter;
  }

  lemma MountsActive(l: Layout, s: State, t: State)
    requires Shape(l, s) && Inspect(l, s.own) == Some(s.generation)
    requires OtherIsOlder(l, s) || Broken(l, s)
    requires t.own == s.own && t.other == s.other && t.generation == s.generation && t.active == s.active
    requires LoadRegion(l, s.own, s.generation) == Loaded(t.mirror, t.last, t.append, t.unusable)
    ensures Mount(l, s.First(), s.Second()) == Mounted(t)
  {
    hide Inspect, LoadRegion, ErasedFrom;
  }

  lemma MountSuperseded(l: Layout, s: State, recs: seq<Record>, pending: Option<Record>, snap: Record)
    returns (t: State, recs': seq<Record>)
    requires Inv(l, s, recs, pending, Some(snap)) && Inspect(l, s.own) == Some(s.generation)
    ensures Mount(l, s.First(), s.Second()) == Mounted(t)
    ensures t == FromSnapshot(l, s, snap) && Inv(l, t, recs', None, None)
  {
    hide HoldsRecord, Committed, Probe, Scan, Inspect, LoadRegion, LogInv, HoldsLog, OrderedAfter;
    InspectCommitted(l, s.other, s.generation + 1);
    t := FromSnapshot(l, s, snap);
    recs' := [snap];
    SupersedingLoads(l, s, snap);
  }

  // ---------- a freshly formatted journal ----------

  function Formatted(l: Layout, generation: nat): (r: seq<byte>)
    requires l.Valid()
    ensures |r| == l.regionSize
  {
    Splice(Filled(l.regionSize, ERASED), 0,
           RegionHeader(l, generation) + Commit(l, REGION_COMMIT_MAGIC, generation))
  }

  lemma SplicePieces(region: seq<byte>, at: nat, a: seq<byte>, b: seq<byte>, c: seq<byte>)
    requires at + |a| + |b| + |c| <= |region|
    ensures var r := Splice(region, at, a + b + c);
            Holds(r, at, a) && Holds(r, at + |a|, b) && Holds(r, at + |a| + |b|, c)
  {
    var r := Splice(region, at, a + b + c);
    assert r[at..at + |a|] == a;
    assert r[at + |a|..at + |a| + |b|] == b;
    assert r[at + |a| + |b|..at + |a| + |b| + |c|] == c;
  }

  lemma FormattedCommitted(l: Layout, generation: nat)
    requires l.Valid()
    ensures Committed(l, Formatted(l, generation), generation)
    ensures ErasedFrom(Formatted(l, generation), l.RecordArea())
  {
    hide RegionHeader, Commit;
    var header, commit := RegionHeader(l, generation), Commit(l, REGION_COMMIT_MAGIC, generation);
    SplicePieces(Filled(l.regionSize, ERASED), 0, header, commit, []);
    assert header + commit + [] == header + commit;
  }

  /** The state of a freshly formatted journal. */
  function Fresh(l: Layout): State
    requires l.Valid()
  {
    State(Formatted(l, 1), Filled(l.regionSize, ERASED), Filled(l.logicalCapacity, ERASED), 1, 0, l.RecordArea(), 0, false)
  }

  lemma FreshInv(l: Layout)
    requires l.Valid()
    ensures Inv(l, Fresh(l), [], None, None) && OtherIsOlder(l, Fresh(l))
  {
    hide Committed, Formatted, Inspect;
    FormattedCommitted(l, 1);
    InspectWithoutHeader(l, Filled(l.regionSize, ERASED));
    WriteFitsAfterSnapshot(l, 0);
  }
}
