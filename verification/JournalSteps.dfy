/**
  What one call does to the journal and its flash, including every point at which
  a flash operation may stop, and that each such outcome keeps the invariant.

  A power cut is an operation that stops and never returns; the journal issues no
  operation after one that stopped, so the outcomes of failing calls are also the
  states a power cut can leave.
 */
module JournalSteps {
  import opened Bytes
  import opened Wrappers
  import opened NorFlash
  import opened JournalLayout
  import opened JournalFormat
  import opened JournalRecovery
  import opened JournalState

  datatype JournalError = BadArgument | OutOfRange | TooLarge | NoSpace | Flash(cause: FlashError) | Corrupted

  ghost predicate SameBut(before: seq<byte>, now: seq<byte>, lo: nat, hi: nat) {
    && |now| == |before|
    && forall i :: 0 <= i < |before| && !(lo <= i < hi) ==> now[i] == before[i]
  }

  // ---------- appending ----------

  ghost predicate Appended(l: Layout, s: State, rec: Record, t: State)
    requires l.Valid()
  {
    && t == s.(own := t.own, mirror := Put(s.mirror, rec.offset, rec.data),
               append := s.append + l.RecordSize(|rec.data|), last := rec.sequence)
    && SameBut(s.own, t.own, s.append, s.append + l.RecordSize(|rec.data|))
    && HoldsRecord(l, t.own, s.append, rec)
  }

  ghost predicate AppendStopped(l: Layout, s: State, rec: Record, t: State)
    requires l.Valid()
  {
    && t == s.(own := t.own, unusable := true)
    && SameBut(s.own, t.own, s.append, s.append + l.RecordSize(|rec.data|))
    && RecordStopped(l, t.own, s.append, rec)
  }

  ghost predicate AppendRel(l: Layout, s: State, offset: nat, data: seq<byte>, r: Outcome<JournalError>, t: State)
    requires l.Valid()
  {
    if s.last + 1 >= U64_LIMIT then r == Fail(NoSpace) && t == s
    else
      var rec := Record(s.last + 1, offset, data);
      match r
      case Pass => Appended(l, s, rec, t)
      case Fail(error) => error.Flash? && AppendStopped(l, s, rec, t)
  }

  lemma DoneIsPart(region: seq<byte>, at: nat, data: seq<byte>)
    requires Holds(region, at, data)
    ensures PartOf(region, at, data)
  {
    forall i | 0 <= i < |data|
      ensures Between(ERASED, data[i], region[at + i])
    {
      assert region[at..at + |data|][i] == data[i];
      OverErased(data[i]);
      ClearsReflexive(data[i]);
    }
  }

  // ---------- compacting ----------

  /** The new region before its commit marker is touched. */
  ghost predicate BeingBuilt(l: Layout, s: State, region: seq<byte>)
    requires l.Valid()
  {
    var header := RegionHeader(l, s.generation + 1);
    && |region| == l.regionSize
    && (|| (PartOf(region, 0, header) && ErasedFrom(region, l.RegionHeaderSize()))
        || (&& Holds(region, 0, header)
            && (forall i :: l.RegionHeaderSize() <= i < l.RecordArea() ==> region[i] == ERASED)
            && RecordStopped(l, region, l.RecordArea(), Snapshot(s))))
  }

  /** The new region while its commit marker is programmed, up to and including the whole marker. */
  ghost predicate BeingCommitted(l: Layout, s: State, region: seq<byte>)
    requires l.Valid()
  {
    && |region| == l.regionSize
    && Holds(region, 0, RegionHeader(l, s.generation + 1))
    && PartOf(region, l.RegionHeaderSize(), Commit(l, REGION_COMMIT_MAGIC, s.generation + 1))
    && HoldsRecord(l, region, l.RecordArea(), Snapshot(s))
    && ErasedFrom(region, l.RecordArea() + l.RecordSize(l.logicalCapacity))
  }

  ghost predicate FullyBuilt(l: Layout, s: State, region: seq<byte>)
    requires l.Valid()
  {
    && |region| == l.regionSize
    && Committed(l, region, s.generation + 1)
    && HoldsRecord(l, region, l.RecordArea(), Snapshot(s))
    && ErasedFrom(region, l.RecordArea() + l.RecordSize(l.logicalCapacity))
  }

  /** Compaction stopped on the new region; the live object still uses the old one. */
  ghost predicate CompactionStopped(l: Layout, s: State, t: State)
    requires l.Valid()
  {
    && t == s.(other := t.other)
    && (|| PartlyErased(s.other, 0, l.regionSize, l.eraseSize, t.other)
        || BeingBuilt(l, s, t.other)
        || BeingCommitted(l, s, t.other))
  }

  /** The live object has moved to the new region; the old one is what `old` says. */
  ghost predicate Switched(l: Layout, s: State, t: State)
    requires l.Valid()
  {
    && FullyBuilt(l, s, t.own)
    && t == s.(own := t.own, other := t.other,
               active := s.Destination(), generation := s.generation + 1, last := s.last + 1,
               append := l.RecordArea() + l.RecordSize(l.logicalCapacity), unusable := false)
  }

  ghost predicate CompactRel(l: Layout, s: State, r: Outcome<JournalError>, t: State)
    requires l.Valid()
  {
    if s.generation + 1 >= U64_LIMIT || s.last + 1 >= U64_LIMIT then r == Fail(NoSpace) && t == s
    else
      match r
      case Pass => Switched(l, s, t) && |t.other| == l.regionSize && AllErased(t.other)
      case Fail(error) =>
        && error.Flash?
        && (|| CompactionStopped(l, s, t)
            || (Switched(l, s, t) && PartlyErased(s.own, 0, l.regionSize, l.eraseSize, t.other)))
  }

  // ---------- writing ----------

  predicate NeedsCompaction(l: Layout, s: State, length: nat)
    requires l.Valid() && s.append <= l.regionSize
  {
    s.unusable || l.RecordSize(length) > l.regionSize - s.append
  }

  ghost predicate CompactAndAppend(l: Layout, s: State, offset: nat, data: seq<byte>,
                                   c: Outcome<JournalError>, mid: State, r: Outcome<JournalError>, t: State)
    requires l.Valid()
  {
    && CompactRel(l, s, c, mid)
    && if c.Fail? then r == c && t == mid else AppendRel(l, mid, offset, data, r, t)
  }

  ghost predicate WriteRel(l: Layout, s: State, offset: nat, data: seq<byte>, r: Outcome<JournalError>, t: State)
    requires l.Valid() && s.append <= l.regionSize
  {
    if !l.RangeValid(offset, |data|) then r == Fail(JournalError.OutOfRange) && t == s
    else if |data| > l.maxAtomicWrite then r == Fail(TooLarge) && t == s
    else if |data| == 0 then r == Pass && t == s
    else if NeedsCompaction(l, s, |data|) then
      exists c, mid :: CompactAndAppend(l, s, offset, data, c, mid, r, t)
    else AppendRel(l, s, offset, data, r, t)
  }

  // ---------- every outcome keeps the invariant ----------

  /** Header and marker share an erase unit, as recovery relies on. */
  predicate HeaderInOneUnit(l: Layout)
    requires l.Valid()
  {
    l.RecordArea() <= l.eraseSize
  }

  lemma AppendKeeps(l: Layout, s: State, recs: seq<Record>, offset: nat, data: seq<byte>,
                    r: Outcome<JournalError>, t: State)
    returns (recs': seq<Record>, pending': Option<Record>)
    requires Core(l, s, recs, None) && !s.unusable
    requires l.RangeValid(offset, |data|) && |data| > 0
    requires l.RecordSize(|data|) <= l.regionSize - s.append
    requires AppendRel(l, s, offset, data, r, t)
    ensures Core(l, t, recs', pending')
    ensures t.other == s.other && t.generation == s.generation && s.last <= t.last
    ensures forall held :: OtherInv(l, s, held) ==> OtherInv(l, t, held)
    ensures OtherIsOlder(l, s) ==> OtherIsOlder(l, t)
    ensures r.Pass? ==> pending' == None && t.mirror == Put(s.mirror, offset, data) && !t.unusable
    ensures r.Fail? ==> t.mirror == s.mirror
    ensures pending'.Some? ==> r.Fail? && r.error.Flash? && pending'.value.offset == offset && pending'.value.data == data
  {
    hide HoldsRecord, Probe, HoldsLog, OrderedAfter, Inspect, Put, Committed, LastSequence, LogSize, RecordStopped;
    hide LoadRegion, Broken;
    StillLess(l, s, t);
    if s.last + 1 >= U64_LIMIT {
      return recs, None;
    }
    var rec := Record(s.last + 1, offset, data);
    if r.Pass? {
      LogInvAppend(l, s, recs, rec, t);
      return recs + [rec], None;
    }
    LogInvFrame(l, s, recs, t);
    ProbeStopped(l, t.own, s.append, rec, s.last);
    return recs, Some(rec);
  }

  lemma LogInvFrame(l: Layout, s: State, recs: seq<Record>, t: State)
    requires Shape(l, s) && LogInv(l, s, recs) && |t.own| == l.regionSize
    requires forall i :: 0 <= i < s.append ==> t.own[i] == s.own[i]
    requires t.mirror == s.mirror && t.generation == s.generation && t.last == s.last && t.append == s.append
    ensures LogInv(l, t, recs)
  {
    hide HoldsRecord, HoldsLog, OrderedAfter, LastSequence, LogSize;
    CommittedFrame(l, s.own, t.own, s.generation);
    HoldsLogFrame(l, s.own, t.own, l.RecordArea(), recs);
  }

  lemma {:induction false} HoldsLogFrame(l: Layout, region: seq<byte>, other: seq<byte>, at: nat, recs: seq<Record>)
    requires l.Valid() && HoldsLog(l, region, at, recs) && |other| == |region|
    requires forall i :: at <= i < at + LogSize(l, recs) && i < |region| ==> other[i] == region[i]
    ensures HoldsLog(l, other, at, recs)
    decreases recs
  {
    hide HoldsRecord;
    if recs != [] {
      RecordFits(l, region, at, recs[0]);
      HoldsRecordFrame(l, region, other, at, recs[0]);
      HoldsLogFrame(l, region, other, at + l.RecordSize(|recs[0].data|), recs[1..]);
    }
  }

  // ---------- erasing a region that counts ----------

  /** Compaction was stopped in its first erase, the one of the region it is going to build. */
  ghost predicate StoppedInErase(l: Layout, s: State, t: State)
    requires l.Valid()
  {
    && t == s.(other := t.other) && PartlyErased(s.other, 0, l.regionSize, l.eraseSize, t.other)
    && !BeingBuilt(l, s, t.other) && !BeingCommitted(l, s, t.other)
  }

  /**
    The one event the checksums cannot rule out: an erase of the newer region was
    cut, and what is left of it has changed, is still marked, and nevertheless loads.
   */
  ghost predicate Misread(l: Layout, s: State, t: State)
    requires l.Valid() && |t.other| == l.regionSize
  {
    && StoppedInErase(l, s, t) && t.other != s.other
    && Inspect(l, t.other) == Some(s.generation + 1) && LoadRegion(l, t.other, s.generation + 1) != Corrupt
  }

  /** Nothing has been erased, or the first cell has. */
  predicate FromTheFront(before: seq<byte>, now: seq<byte>) { now == before || (|now| > 0 && now[0] == ERASED) }

  /** It takes several erase units, erased out of order, in a region that was newer before. */
  lemma MisreadNeeds(l: Layout, s: State, t: State)
    requires Shape(l, s) && |t.other| == l.regionSize && HeaderInOneUnit(l) && Misread(l, s, t)
    ensures l.regionSize != l.eraseSize && !FromTheFront(s.other, t.other) && OtherIsNewer(l, s)
  {
    hide Inspect, LoadRegion, PartlyErased, BeingBuilt, BeingCommitted;
    InspectPartlyErased(l, s.other, t.other);
    if t.other[0] == ERASED {
      InspectWithoutHeader(l, t.other);
    }
    if l.regionSize == l.eraseSize {
      OneUnitPartlyErased(l, s.other, t.other);
    }
  }

  /** An erase that works from the front is never misread. */
  lemma FrontIsSound(l: Layout, s: State, t: State)
    requires l.Valid() && |t.other| == l.regionSize
    requires StoppedInErase(l, s, t) ==> FromTheFront(s.other, t.other)
    ensures !Misread(l, s, t)
  {
    hide Inspect, LoadRegion, PartlyErased, BeingBuilt, BeingCommitted;
    if Misread(l, s, t) {
      InspectWithoutHeader(l, t.other);
    }
  }

  lemma ErasedStaysErased(l: Layout, before: seq<byte>, now: seq<byte>, at: nat)
    requires l.Valid() && PartlyErased(before, 0, l.regionSize, l.eraseSize, now) && ErasedFrom(before, at)
    ensures ErasedFrom(now, at)
  {
    hide SameUnit;
  }

  /** A cut erase leaves the other region as it was or worth less, unless it is misread. */
  lemma HalfErased(l: Layout, s: State, held: Option<Record>, t: State) returns (held': Option<Record>)
    requires Shape(l, s) && OtherInv(l, s, held) && HeaderInOneUnit(l) && s.generation + 1 < U64_LIMIT
    requires t == s.(other := t.other) && PartlyErased(s.other, 0, l.regionSize, l.eraseSize, t.other)
    requires |t.other| == l.regionSize && !Misread(l, s, t)
    requires !BeingBuilt(l, s, t.other) && !BeingCommitted(l, s, t.other)
    ensures OtherInv(l, t, held')
    ensures held' == None || (held' == held && t.other == s.other)
    ensures OtherIsOlder(l, s) ==> OtherIsOlder(l, t)
  {
    hide Inspect, LoadRegion, PartlyErased, ErasedFrom, HoldsRecord, Committed, BeingBuilt, BeingCommitted;
    if t.other == s.other {
      StillLess(l, s, t);
      return held;
    }
    InspectPartlyErased(l, s.other, t.other);
    if !OtherIsOlder(l, s) {
      ErasedStaysErased(l, s.other, t.other, l.RecordArea() + l.RecordSize(l.logicalCapacity));
      if held.Some? {
        InspectCommitted(l, s.other, s.generation + 1);
      }
    }
    return None;
  }

  /** Wherever compaction stops on the new region, that region counts for less or holds a complete snapshot. */
  lemma StoppedRegion(l: Layout, s: State, held: Option<Record>, t: State) returns (held': Option<Record>)
    requires Shape(l, s) && HeaderInOneUnit(l) && CompactionStopped(l, s, t) && OtherInv(l, s, held)
    requires s.generation + 1 < U64_LIMIT && s.last + 1 < U64_LIMIT
    requires |t.other| == l.regionSize && !Misread(l, s, t)
    ensures OtherInv(l, t, held')
    ensures held' == None || held' == Some(Snapshot(s)) || (held' == held && t.other == s.other)
    ensures OtherIsOlder(l, s) ==> OtherIsOlder(l, t) || held' == Some(Snapshot(s))
  {
    hide HoldsRecord, Inspect, Committed, Holds, PartOf, RecordStopped, LoadRegion, PartlyErased;
    var region := t.other;
    if BeingBuilt(l, s, region) {
      InspectWithoutCommit(l, region);
      held' := None;
    } else if BeingCommitted(l, s, region) {
      InspectUncommitted(l, region, s.generation + 1);
      held' := if Inspect(l, region).None? then None else Some(Snapshot(s));
    } else {
      held' := HalfErased(l, s, held, t);
    }
  }

  lemma SwitchedKeeps(l: Layout, s: State, t: State)
    returns (recs': seq<Record>)
    requires Shape(l, s) && Switched(l, s, t) && |t.other| == l.regionSize
    requires s.generation + 1 < U64_LIMIT && s.last + 1 < U64_LIMIT
    ensures Core(l, t, recs', None) && !t.unusable && t.mirror == s.mirror
  {
    hide HoldsRecord, Inspect, Committed;
    recs' := [Snapshot(s)];
    WriteFitsAfterSnapshot(l, 0);
    SnapshotLog(l, t, Snapshot(s));
  }

  /**
    Whatever compaction did, the live object stays consistent. If region header and
    marker share an erase unit, the other region stays one that counts for less or
    holds a complete snapshot, barring a misread.
   */
  lemma CompactKeeps(l: Layout, s: State, recs: seq<Record>, pending: Option<Record>, held: Option<Record>,
                     r: Outcome<JournalError>, t: State)
    returns (recs': seq<Record>, pending': Option<Record>, held': Option<Record>)
    requires Core(l, s, recs, pending) && CompactRel(l, s, r, t)
    ensures Core(l, t, recs', pending') && t.mirror == s.mirror
    ensures OtherInv(l, s, held) && HeaderInOneUnit(l) && !Misread(l, s, t) ==>
              && OtherInv(l, t, held')
              && (OtherIsOlder(l, s) ==>
                    OtherIsOlder(l, t) || (held' == Some(Snapshot(s)) && r.Fail? && r.error.Flash?))
    ensures pending' == if t.generation == s.generation then pending else None
    ensures || held' == None
            || (t.generation == s.generation && held' == held && t.other == s.other)
            || (t.generation == s.generation && held' == Some(Snapshot(s)) && r.Fail? && r.error.Flash?)
    ensures r.Pass? ==> !t.unusable && OtherIsOlder(l, t) && held' == None
    ensures r.Pass? ==> t.generation == s.generation + 1 && t.append == l.RecordArea() + l.RecordSize(l.logicalCapacity)
  {
    hide HoldsRecord, Inspect, Committed, Holds, PartlyErased, BeingBuilt, BeingCommitted, HoldsLog, OrderedAfter;
    hide LogSize, LastSequence, IsSnapshot, LoadRegion;
    if s.generation + 1 >= U64_LIMIT || s.last + 1 >= U64_LIMIT {
      return recs, pending, held;
    }
    InspectCommitted(l, s.own, s.generation);
    held' := None;
    if r.Pass? {
      InspectWithoutHeader(l, t.other);
      recs' := SwitchedKeeps(l, s, t);
      pending' := None;
    } else if CompactionStopped(l, s, t) {
      StoppedLength(l, s, t);
      LogInvFrame(l, s, recs, t);
      if HeaderInOneUnit(l) && OtherInv(l, s, held) && !Misread(l, s, t) {
        held' := StoppedRegion(l, s, held, t);
      }
      recs', pending' := recs, pending;
    } else {
      PartlyErasedLength(s.own, l, t.other);
      recs' := SwitchedKeeps(l, s, t);
      if HeaderInOneUnit(l) {
        InspectPartlyErased(l, s.own, t.other);
      }
      pending' := None;
    }
  }

  lemma StoppedLength(l: Layout, s: State, t: State)
    requires Shape(l, s) && CompactionStopped(l, s, t)
    ensures |t.other| == l.regionSize
  {
    hide HoldsRecord, Committed, Holds, PartOf, RecordStopped;
  }

  lemma PartlyErasedLength(before: seq<byte>, l: Layout, now: seq<byte>)
    requires l.Valid() && PartlyErased(before, 0, l.regionSize, l.eraseSize, now)
    ensures |now| == |before|
  {
  }

  // ---------- compaction and the recoverable contents ----------

  /** The image the next mount would give. */
  function Recoverable(l: Layout, s: State): Option<seq<byte>>
    requires Shape(l, s)
  {
    match Mount(l, s.First(), s.Second())
    case Mounted(t) => Some(t.mirror)
    case _ => None
  }

  /**
    Wherever compaction stops, in an erase, a header, a snapshot, a torn commit
    marker or the last erase, the next mount gives the live image. Besides, only a
    failed write that was outstanding before may show, until the new region counts;
    and a region that took over before still does as long as it is untouched.
   */
  lemma CompactionInvisible(l: Layout, s: State, recs: seq<Record>, pending: Option<Record>, held: Option<Record>,
                            r: Outcome<JournalError>, t: State)
    requires Inv(l, s, recs, pending, held) && HeaderInOneUnit(l) && CompactRel(l, s, r, t)
    ensures Shape(l, t) && t.mirror == s.mirror
    ensures || Recoverable(l, t) == Some(s.mirror)
            || (&& pending.Some? && t.generation == s.generation && !TakesOver(l, t)
                && Recoverable(l, t) == Some(Put(s.mirror, pending.value.offset, pending.value.data)))
            || (TakesOver(l, s) && t.other == s.other && Recoverable(l, t) == Recoverable(l, s))
            || Misread(l, s, t)
  {
    hide LogInv, TailInv, Inspect, CompactRel, Mount, Put, Broken, SupersededBy, LoadRegion;
    TakesOverIff(l, s, recs, pending, held);
    var recs', pending', held' := CompactKeeps(l, s, recs, pending, held, r, t);
    if !Misread(l, s, t) {
      TakesOverIff(l, t, recs', pending', held');
      var u, recs'' := MountKeeps(l, t, recs', pending', held');
      if held'.Some? && held' == held {
        var v, recs3 := MountKeeps(l, s, recs, pending, held);
      }
    }
  }

  /**
    Two valid regions never carry the same generation. A newer one is newer by one
    and either holds a complete snapshot, which the next mount gives, or does not load.
   */
  lemma GenerationsDiffer(l: Layout, s: State, recs: seq<Record>, pending: Option<Record>, held: Option<Record>)
    requires Inv(l, s, recs, pending, held)
    ensures Inspect(l, s.own) == Some(s.generation) && Inspect(l, s.other) != Some(s.generation)
    ensures OtherIsNewer(l, s) ==> Inspect(l, s.other) == Some(s.generation + 1)
    ensures TakesOver(l, s) ==> held.Some? && Recoverable(l, s) == Some(held.value.data)
    ensures !TakesOver(l, s) ==>
              || Recoverable(l, s) == Some(s.mirror)
              || (pending.Some? && Recoverable(l, s) == Some(Put(s.mirror, pending.value.offset, pending.value.data)))
  {
    hide LogInv, TailInv, Inspect, Mount, Put, Broken, SupersededBy, LoadRegion;
    TakesOverIff(l, s, recs, pending, held);
    var t, recs' := MountKeeps(l, s, recs, pending, held);
  }

  /** One compaction always suffices: afterwards every permitted write fits without another one. */
  lemma OneCompactionSuffices(l: Layout, s: State, t: State, length: nat)
    requires l.Valid() && CompactRel(l, s, Pass, t) && length <= l.maxAtomicWrite
    ensures t.append + l.RecordSize(length) <= l.regionSize && !NeedsCompaction(l, t, length)
  {
    hide FullyBuilt;
    WriteFitsAfterSnapshot(l, length);
  }

  /** A write that compacted and went through has appended to the new region; the log never passes its end. */
  lemma WriteStaysInRegion(l: Layout, s: State, offset: nat, data: seq<byte>, r: Outcome<JournalError>, t: State)
    requires Shape(l, s) && WriteRel(l, s, offset, data, r, t)
    ensures s.append <= l.regionSize && t.append <= l.regionSize
    ensures r.Pass? && |data| > 0 ==>
              t.last == (if t.generation == s.generation then s.last + 1 else s.last + 2)
    ensures s.last <= t.last && s.generation <= t.generation <= s.generation + 1
  {
    hide FullyBuilt, CompactionStopped, PartlyErased, HoldsRecord, RecordStopped, SameBut, Put;
    if l.RangeValid(offset, |data|) && 0 < |data| <= l.maxAtomicWrite {
      WriteFitsAfterSnapshot(l, |data|);
      if NeedsCompaction(l, s, |data|) {
        var c, mid :| CompactAndAppend(l, s, offset, data, c, mid, r, t);
        CompactPosition(l, s, c, mid);
      }
    }
  }

  lemma CompactPosition(l: Layout, s: State, c: Outcome<JournalError>, t: State)
    requires Shape(l, s) && CompactRel(l, s, c, t)
    ensures || (t.append == s.append && t.generation == s.generation && t.last == s.last && c.Fail?)
            || (&& t.append == l.RecordArea() + l.RecordSize(l.logicalCapacity)
                && t.generation == s.generation + 1 && t.last == s.last + 1)
  {
    hide FullyBuilt, PartlyErased, BeingBuilt, BeingCommitted;
  }
}
