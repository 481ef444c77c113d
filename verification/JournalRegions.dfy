/**
  The cells of the two regions under single flash operations: how an operation on
  the flash looks from inside a region, and what a record or a destination region
  looks like after each of the steps that write it.
 */
module JournalRegions {
  import opened Arithmetic
  import opened Bytes
  import opened Wrappers
  import opened NorFlash
  import opened JournalLayout
  import opened JournalFormat
  import opened JournalRecovery
  import opened JournalState
  import opened JournalSteps
  import opened JournalRuns
  import Crc32

  // ---------- regions inside the flash ----------

  function Slice(l: Layout, cells: seq<byte>, region: nat): (r: seq<byte>)
    requires l.RegionStart(region) + l.regionSize <= |cells|
    ensures |r| == l.regionSize
  {
    cells[l.RegionStart(region)..l.RegionStart(region) + l.regionSize]
  }

  predicate Fits(l: Layout, cells: seq<byte>) { l.Valid() && |cells| == l.flashCapacity }

  lemma SpliceInside(cells: seq<byte>, start: nat, size: nat, at: nat, data: seq<byte>)
    requires start + size <= |cells| && at + |data| <= size
    ensures Splice(cells, start + at, data)[start..start + size] == Splice(cells[start..start + size], at, data)
  {
    hide Splice;
  }

  lemma SpliceElsewhere(cells: seq<byte>, lo: nat, hi: nat, at: nat, data: seq<byte>)
    requires lo <= hi <= |cells| && at + |data| <= |cells| && (hi <= at || at + |data| <= lo)
    ensures Splice(cells, at, data)[lo..hi] == cells[lo..hi]
  {
    hide Splice;
  }

  lemma SliceRead(l: Layout, cells: seq<byte>, region: nat, offset: nat, length: nat)
    requires l.RegionStart(region) + l.regionSize <= |cells| && l.RegionStart(region) <= offset
    requires offset + length <= l.RegionStart(region) + l.regionSize
    ensures cells[offset..offset + length] == Slice(l, cells, region)[offset - l.RegionStart(region)..][..length]
  {
    var at := offset - l.RegionStart(region);
    var a, b := cells[offset..offset + length], Slice(l, cells, region)[at..][..length];
    assert forall k :: 0 <= k < length ==> b[k] == Slice(l, cells, region)[at + k] == a[k];
  }

  lemma SliceProgrammed(l: Layout, before: seq<byte>, region: nat, at: nat, data: seq<byte>, after: seq<byte>)
    requires Fits(l, before) && region <= 1 && at + |data| <= l.regionSize
    requires l.RegionStart(1) + l.regionSize <= |before| && l.RegionStart(region) + at + |data| <= |before|
    requires after == Splice(before, l.RegionStart(region) + at, data)
    ensures Slice(l, after, region) == Splice(Slice(l, before, region), at, data)
    ensures Slice(l, after, Opposite(region)) == Slice(l, before, Opposite(region))
  {
    hide Splice, AlignUp, Layout.IoUnit, Layout.Valid;
    var other := l.RegionStart(Opposite(region));
    SpliceInside(before, l.RegionStart(region), l.regionSize, at, data);
    SpliceElsewhere(before, other, other + l.regionSize, l.RegionStart(region) + at, data);
  }

  ghost predicate ErasedBetween(region: seq<byte>, lo: nat, hi: nat) {
    hi <= |region| && forall i :: lo <= i < hi ==> region[i] == ERASED
  }

  lemma SlicePartlyProgrammed(l: Layout, before: seq<byte>, region: nat, at: nat, data: seq<byte>, after: seq<byte>)
    requires Fits(l, before) && region <= 1 && at + |data| <= l.regionSize
    requires l.RegionStart(1) + l.regionSize <= |before|
    requires PartlyProgrammed(before, l.RegionStart(region) + at, data, after)
    requires ErasedBetween(Slice(l, before, region), at, at + |data|)
    ensures |after| == |before|
    ensures PartOf(Slice(l, after, region), at, data)
    ensures SameBut(Slice(l, before, region), Slice(l, after, region), at, at + |data|)
    ensures Slice(l, after, Opposite(region)) == Slice(l, before, Opposite(region))
  {
    hide Between, ClearsOnly, Layout.Valid;
    var start := l.RegionStart(region);
    var b, a := Slice(l, before, region), Slice(l, after, region);
    forall i | 0 <= i < |data|
      ensures Between(ERASED, data[i], a[at + i])
    {
      var j := start + at + i;
      assert b[at + i] == before[j] == ERASED && a[at + i] == after[j];
      assert after[j] == before[j] || Between(before[j], data[j - (start + at)], after[j]);
      UntouchedIsBetween(data[i]);
    }
  }

  lemma UntouchedIsBetween(d: byte)
    ensures Between(ERASED, d, ERASED)
  {
    OverErased(d);
    OverErased(ERASED);
  }

  lemma SliceErased(l: Layout, before: seq<byte>, region: nat, after: seq<byte>)
    requires Fits(l, before) && region <= 1
    requires l.RegionStart(1) + l.regionSize <= |before|
    requires after == ErasedRange(before, l.RegionStart(region), l.regionSize)
    ensures |after| == |before|
    ensures Slice(l, after, region) == Filled(l.regionSize, ERASED)
    ensures Slice(l, after, Opposite(region)) == Slice(l, before, Opposite(region))
  {
    hide Splice, Filled;
  }

  lemma SameUnitShifted(i: nat, j: nat, start: nat, unit: nat)
    requires unit > 0 && Whole(start, unit) && SameUnit(i, j, unit)
    ensures SameUnit(start + i, start + j, unit)
  {
    var q := start / unit;
    assert start == unit * q;
    assert start + i == unit * (q + i / unit) + i % unit by {
      assert unit * (q + i / unit) == unit * q + unit * (i / unit);
    }
    assert start + j == unit * (q + j / unit) + j % unit by {
      assert unit * (q + j / unit) == unit * q + unit * (j / unit);
    }
    QuotientIsUnique(start + i, unit, q + i / unit, i % unit);
    QuotientIsUnique(start + j, unit, q + j / unit, j % unit);
  }

  lemma SlicePartlyErased(l: Layout, before: seq<byte>, region: nat, after: seq<byte>)
    requires Fits(l, before) && region <= 1
    requires l.RegionStart(1) + l.regionSize <= |before|
    requires PartlyErased(before, l.RegionStart(region), l.RegionStart(region) + l.regionSize, l.eraseSize, after)
    ensures |after| == |before|
    ensures PartlyErased(Slice(l, before, region), 0, l.regionSize, l.eraseSize, Slice(l, after, region))
    ensures Slice(l, after, Opposite(region)) == Slice(l, before, Opposite(region))
  {
    hide SameUnit;
    RegionPlacement(l, region);
    var start := l.RegionStart(region);
    var b, a := Slice(l, before, region), Slice(l, after, region);
    forall i: nat, j: nat | 0 <= i < j < l.regionSize && SameUnit(i, j, l.eraseSize) && a[j] != b[j]
      ensures a[i] == ERASED
    {
      SameUnitShifted(i, j, start, l.eraseSize);
      assert after[start + j] != before[start + j];
    }
  }

  // ---------- buffers ----------

  lemma SpliceChain(s: seq<byte>, at: nat, a: seq<byte>, b: seq<byte>)
    requires at + |a| + |b| <= |s|
    ensures Splice(Splice(s, at, a), at + |a|, b) == Splice(s, at, a + b)
  {
    hide Splice;
  }

  lemma SplicedIsPadded(n: nat, s: seq<byte>)
    requires |s| <= n
    ensures Splice(Filled(n, ERASED), 0, s) == Padded(s, n)
  {
    hide Filled;
  }

  // ---------- payload chunks ----------

  /** The first chunk position not before the end of the payload is its padded size. */
  lemma ChunksEnd(at: nat, length: nat, unit: nat)
    requires unit > 0 && Whole(at, unit) && length <= at <= AlignUp(length, unit)
    ensures at == AlignUp(length, unit)
  {
    AlignUpFacts(length, unit);
    var a, b := at / unit, AlignUp(length, unit) / unit;
    assert at == unit * a && AlignUp(length, unit) == unit * b;
    if a < b {
      Grows(unit, a, b);
    }
  }

  lemma NextChunk(l: Layout, done: nat, destination: nat, length: nat)
    requires l.Valid() && Whole(done, l.IoUnit()) && Whole(destination, l.IoUnit()) && done < length
    ensures done + l.IoUnit() <= l.PaddedSize(length)
    ensures Whole(l.IoUnit(), l.IoUnit())
    ensures Whole(done + l.IoUnit(), l.IoUnit()) && Whole(destination + l.IoUnit(), l.IoUnit())
  {
    AlignUpFacts(length, l.IoUnit());
    UnitFits(done, l.PaddedSize(length), l.IoUnit());
    WholeUnit(l.IoUnit());
    WholeSum(destination, l.IoUnit(), l.IoUnit());
  }

  lemma NoMoreChunks(l: Layout, done: nat, length: nat)
    requires l.Valid() && Whole(done, l.IoUnit()) && length <= done <= l.PaddedSize(length)
    ensures done == l.PaddedSize(length)
  {
    ChunksEnd(done, length, l.IoUnit());
  }

  // ---------- the destination region while compaction builds it ----------

  lemma AllOfIt(n: nat, k: nat)
    requires k <= n
    ensures ErasedBetween(Filled(n, ERASED), 0, k)
  {
  }

  lemma AllFilledErased(n: nat)
    ensures AllErased(Filled(n, ERASED))
  {
  }

  /** Header and snapshot are there, the commit marker is not. */
  ghost predicate SnapshotDone(l: Layout, s: State, region: seq<byte>)
    requires l.Valid()
  {
    && |region| == l.regionSize
    && Holds(region, 0, RegionHeader(l, s.generation + 1))
    && ErasedBetween(region, l.RegionHeaderSize(), l.RecordArea())
    && HoldsRecord(l, region, l.RecordArea(), Snapshot(s))
    && ErasedFrom(region, l.RecordArea() + l.RecordSize(l.logicalCapacity))
  }

  /** The header is there, everything behind it is erased. */
  ghost predicate HeaderDone(l: Layout, s: State, region: seq<byte>)
    requires l.Valid()
  {
    && |region| == l.regionSize
    && Holds(region, 0, RegionHeader(l, s.generation + 1))
    && ErasedFrom(region, l.RegionHeaderSize())
  }

  /** What is being built depends on the live values, not on the region it is built in. */
  lemma SameBuild(l: Layout, s: State, t: State, region: seq<byte>)
    requires l.Valid() && t == s.(other := t.other)
    ensures HeaderDone(l, s, region) == HeaderDone(l, t, region)
    ensures BeingBuilt(l, s, region) == BeingBuilt(l, t, region)
    ensures SnapshotDone(l, s, region) == SnapshotDone(l, t, region)
    ensures BeingCommitted(l, s, region) == BeingCommitted(l, t, region)
    ensures FullyBuilt(l, s, region) == FullyBuilt(l, t, region)
  {
    hide RegionHeader, Commit, Holds, HoldsRecord, RecordStopped, PartOf;
  }

  lemma HeaderLeavesErased(l: Layout, s: State, region: seq<byte>)
    requires l.Valid() && HeaderDone(l, s, region)
    ensures ErasedFrom(region, l.RecordArea())
  {
  }

  lemma HeaderStopped(l: Layout, s: State, now: seq<byte>)
    requires l.Valid() && l.RegionHeaderSize() <= l.regionSize
    requires PartOf(now, 0, RegionHeader(l, s.generation + 1))
    requires SameBut(Filled(l.regionSize, ERASED), now, 0, l.RegionHeaderSize())
    ensures BeingBuilt(l, s, now)
  {
    hide PartOf, RegionHeader, Holds, RecordStopped;
  }

  lemma HeaderInPlace(l: Layout, s: State)
    requires l.Valid() && l.RecordArea() <= l.regionSize
    ensures var region := Splice(Filled(l.regionSize, ERASED), 0, RegionHeader(l, s.generation + 1));
            HeaderDone(l, s, region)
  {
    hide RegionHeader;
  }

  lemma HoldsFrame(region: seq<byte>, now: seq<byte>, at: nat, data: seq<byte>)
    requires Holds(region, at, data) && |now| == |region|
    requires forall i :: at <= i < at + |data| ==> now[i] == region[i]
    ensures Holds(now, at, data)
  {
    assert now[at..at + |data|] == region[at..at + |data|];
  }

  lemma SnapshotStopped(l: Layout, s: State, before: seq<byte>, now: seq<byte>)
    requires l.Valid() && |s.mirror| == l.logicalCapacity && HeaderDone(l, s, before)
    requires SameBut(before, now, l.RecordArea(), l.RecordArea() + l.RecordSize(|s.mirror|))
    requires RecordStopped(l, now, l.RecordArea(), Snapshot(s))
    ensures BeingBuilt(l, s, now)
  {
    hide RecordStopped, RegionHeader, Holds;
    HoldsFrame(before, now, 0, RegionHeader(l, s.generation + 1));
  }

  lemma SnapshotInPlace(l: Layout, s: State, before: seq<byte>, now: seq<byte>)
    requires l.Valid() && |s.mirror| == l.logicalCapacity && HeaderDone(l, s, before)
    requires SameBut(before, now, l.RecordArea(), l.RecordArea() + l.RecordSize(|s.mirror|))
    requires HoldsRecord(l, now, l.RecordArea(), Snapshot(s))
    ensures SnapshotDone(l, s, now)
  {
    hide HoldsRecord, RegionHeader, Holds;
    HoldsFrame(before, now, 0, RegionHeader(l, s.generation + 1));
  }

  /** A complete snapshot without a marker is also a state compaction can stop in. */
  lemma SnapshotDoneFacts(l: Layout, s: State, region: seq<byte>)
    requires l.Valid() && |s.mirror| == l.logicalCapacity && SnapshotDone(l, s, region)
    ensures BeingBuilt(l, s, region)
    ensures ErasedBetween(region, l.RegionHeaderSize(), l.RecordArea())
  {
    hide RegionHeader, RecordHeader, Payload, Commit, PartOf, Holds;
    RecordFits(l, region, l.RecordArea(), Snapshot(s));
    DoneIsPart(region, l.RecordArea() + l.RecordHeaderSize() + l.PaddedSize(|s.mirror|), RecordCommit(l, Snapshot(s)));
    assert RecordStopped(l, region, l.RecordArea(), Snapshot(s));
  }

  lemma CommitStopped(l: Layout, s: State, before: seq<byte>, now: seq<byte>)
    requires l.Valid() && |s.mirror| == l.logicalCapacity && SnapshotDone(l, s, before)
    requires PartOf(now, l.RegionHeaderSize(), Commit(l, REGION_COMMIT_MAGIC, s.generation + 1))
    requires SameBut(before, now, l.RegionHeaderSize(), l.RecordArea())
    ensures BeingCommitted(l, s, now)
  {
    hide HoldsRecord, RegionHeader, Holds, PartOf, Commit, AlignUp, Layout.IoUnit;
    HoldsFrame(before, now, 0, RegionHeader(l, s.generation + 1));
    HoldsRecordFrame(l, before, now, l.RecordArea(), Snapshot(s));
  }

  lemma CommitDone(l: Layout, s: State, before: seq<byte>, now: seq<byte>)
    requires l.Valid() && |s.mirror| == l.logicalCapacity && SnapshotDone(l, s, before)
    requires Holds(now, l.RegionHeaderSize(), Commit(l, REGION_COMMIT_MAGIC, s.generation + 1))
    requires SameBut(before, now, l.RegionHeaderSize(), l.RecordArea())
    ensures FullyBuilt(l, s, now) && BeingCommitted(l, s, now)
  {
    hide HoldsRecord, RegionHeader, Commit, PartOf, Holds, AlignUp, Layout.IoUnit;
    HoldsFrame(before, now, 0, RegionHeader(l, s.generation + 1));
    HoldsRecordFrame(l, before, now, l.RecordArea(), Snapshot(s));
    DoneIsPart(now, l.RegionHeaderSize(), Commit(l, REGION_COMMIT_MAGIC, s.generation + 1));
  }

  lemma SpliceHolds(region: seq<byte>, at: nat, data: seq<byte>)
    requires at + |data| <= |region|
    ensures Holds(Splice(region, at, data), at, data)
    ensures SameBut(region, Splice(region, at, data), at, at + |data|)
  {
    hide Splice;
  }

  lemma CommitInPlace(l: Layout, s: State, before: seq<byte>)
    requires l.Valid() && |s.mirror| == l.logicalCapacity && SnapshotDone(l, s, before)
    ensures var now := Splice(before, l.RegionHeaderSize(), Commit(l, REGION_COMMIT_MAGIC, s.generation + 1));
            FullyBuilt(l, s, now) && BeingCommitted(l, s, now)
  {
    hide HoldsRecord, RegionHeader, Commit, PartOf, Holds, Splice, SameBut, FullyBuilt, BeingCommitted;
    var marker := Commit(l, REGION_COMMIT_MAGIC, s.generation + 1);
    SpliceHolds(before, l.RegionHeaderSize(), marker);
    CommitDone(l, s, before, Splice(before, l.RegionHeaderSize(), marker));
  }

  // ---------- the cells while a record is written ----------

  lemma NothingSpliced(region: seq<byte>, at: nat, data: seq<byte>)
    requires at <= |region|
    ensures Splice(region, at, data[..0]) == region
  {
    hide Splice;
    assert data[..0] == [];
  }

  lemma SpliceExtends(region: seq<byte>, at: nat, data: seq<byte>, a: nat, b: nat)
    requires at + |data| <= |region| && a <= b <= |data|
    ensures Splice(Splice(region, at, data[..a]), at + a, data[a..b]) == Splice(region, at, data[..b])
  {
    hide Splice;
  }

  lemma ChunkOfPayload(l: Layout, payload: seq<byte>, at: nat, copied: nat)
    requires l.Valid() && at + copied <= |payload| && at + l.IoUnit() <= l.PaddedSize(|payload|)
    requires copied == if |payload| - at < l.IoUnit() then |payload| - at else l.IoUnit()
    ensures Padded(payload[at..at + copied], l.IoUnit()) == Payload(l, payload)[at..at + l.IoUnit()]
  {
    hide Filled, AlignUp, Layout.IoUnit;
  }

  /** The region once the header and the first `done` bytes of payload are in place. */
  function Progress(l: Layout, before: seq<byte>, at: nat, rec: Record, done: nat): (r: seq<byte>)
    requires l.Valid() && at + l.RecordSize(|rec.data|) <= |before| && done <= l.PaddedSize(|rec.data|)
    ensures |r| == |before|
  {
    Splice(Splice(before, at, RecordHeader(l, rec)), at + l.RecordHeaderSize(), Payload(l, rec.data)[..done])
  }

  lemma ProgressExtends(l: Layout, before: seq<byte>, at: nat, rec: Record, done: nat, upTo: nat)
    requires l.Valid() && at + l.RecordSize(|rec.data|) <= |before|
    requires done <= upTo <= l.PaddedSize(|rec.data|)
    ensures Splice(Progress(l, before, at, rec, done), at + l.RecordHeaderSize() + done, Payload(l, rec.data)[done..upTo])
         == Progress(l, before, at, rec, upTo)
  {
    hide Payload, RecordHeader, Splice;
    SpliceExtends(Splice(before, at, RecordHeader(l, rec)), at + l.RecordHeaderSize(), Payload(l, rec.data), done, upTo);
  }

  lemma ErasedAhead(region: seq<byte>, at: nat, n: nat)
    requires at + n <= |region| && ErasedFrom(region, at)
    ensures ErasedBetween(region, at, at + n)
  {
  }

  lemma StillErased(l: Layout, before: seq<byte>, at: nat, rec: Record, done: nat, upTo: nat)
    requires l.Valid() && at + l.RecordSize(|rec.data|) <= |before| && done <= l.PaddedSize(|rec.data|)
    requires done <= upTo <= l.PaddedSize(|rec.data|) + l.CommitSize()
    requires ErasedFrom(before, at)
    ensures ErasedBetween(Progress(l, before, at, rec, done),
                          at + l.RecordHeaderSize() + done, at + l.RecordHeaderSize() + upTo)
  {
    hide Splice, RecordHeader, Payload;
  }

  lemma StoppedInHeader(l: Layout, before: seq<byte>, at: nat, rec: Record, now: seq<byte>)
    requires l.Valid() && at + l.RecordSize(|rec.data|) <= |before| && ErasedFrom(before, at)
    requires PartOf(now, at, RecordHeader(l, rec)) && SameBut(before, now, at, at + l.RecordHeaderSize())
    ensures RecordStopped(l, now, at, rec)
    ensures SameBut(before, now, at, at + l.RecordSize(|rec.data|))
  {
    hide PartOf, RecordHeader, AlignUp;
  }

  lemma StoppedInPayload(l: Layout, before: seq<byte>, at: nat, rec: Record, done: nat, upTo: nat, now: seq<byte>)
    requires l.Valid() && at + l.RecordSize(|rec.data|) <= |before| && ErasedFrom(before, at)
    requires done <= upTo <= l.PaddedSize(|rec.data|)
    requires PartOf(now, at + l.RecordHeaderSize() + done, Payload(l, rec.data)[done..upTo])
    requires SameBut(Progress(l, before, at, rec, done), now,
                     at + l.RecordHeaderSize() + done, at + l.RecordHeaderSize() + upTo)
    ensures RecordStopped(l, now, at, rec)
    ensures SameBut(before, now, at, at + l.RecordSize(|rec.data|))
  {
    hide Splice, RecordHeader, Payload, Between, AlignUp, Commit;
    var header, padded := RecordHeader(l, rec), Payload(l, rec.data);
    var payloadAt := at + l.RecordHeaderSize();
    assert now[at..payloadAt] == header;
    forall i | 0 <= i < |padded|
      ensures Between(ERASED, padded[i], now[payloadAt + i])
    {
      if i < done {
        DoneByteIsBetween(padded[i]);
      } else if i < upTo {
        assert Between(ERASED, padded[done..upTo][i - done], now[payloadAt + done + (i - done)]);
      } else {
        UntouchedIsBetween(padded[i]);
      }
    }
  }

  lemma DoneByteIsBetween(d: byte)
    ensures Between(ERASED, d, d)
  {
    OverErased(d);
    ClearsReflexive(d);
  }

  lemma StoppedInCommit(l: Layout, before: seq<byte>, at: nat, rec: Record, now: seq<byte>)
    requires l.Valid() && at + l.RecordSize(|rec.data|) <= |before| && ErasedFrom(before, at)
    requires var commitAt := at + l.RecordHeaderSize() + l.PaddedSize(|rec.data|);
             && PartOf(now, commitAt, RecordCommit(l, rec))
             && SameBut(Progress(l, before, at, rec, l.PaddedSize(|rec.data|)), now, commitAt, commitAt + l.CommitSize())
    ensures RecordStopped(l, now, at, rec)
    ensures SameBut(before, now, at, at + l.RecordSize(|rec.data|))
  {
    hide Splice, RecordHeader, Payload, PartOf, AlignUp, Commit;
    var payloadAt := at + l.RecordHeaderSize();
    assert now[at..payloadAt] == RecordHeader(l, rec);
    assert now[payloadAt..payloadAt + l.PaddedSize(|rec.data|)] == Payload(l, rec.data);
  }

  lemma RecordDone(l: Layout, before: seq<byte>, at: nat, rec: Record)
    requires l.Valid() && at + l.RecordSize(|rec.data|) <= |before|
    ensures var now := Splice(Progress(l, before, at, rec, l.PaddedSize(|rec.data|)),
                              at + l.RecordHeaderSize() + l.PaddedSize(|rec.data|), RecordCommit(l, rec));
            HoldsRecord(l, now, at, rec) && SameBut(before, now, at, at + l.RecordSize(|rec.data|))
  {
    hide Splice, RecordHeader, Payload, AlignUp, Commit;
    var payloadAt := at + l.RecordHeaderSize();
    var commitAt := payloadAt + l.PaddedSize(|rec.data|);
    var now := Splice(Progress(l, before, at, rec, l.PaddedSize(|rec.data|)), commitAt, RecordCommit(l, rec));
    assert now[at..payloadAt] == RecordHeader(l, rec);
    assert now[payloadAt..commitAt] == Payload(l, rec.data);
    assert now[commitAt..commitAt + l.CommitSize()] == RecordCommit(l, rec);
  }

  // ---------- composing a write ----------

  lemma CoreLimits(l: Layout, s: State, recs: seq<Record>, pending: Option<Record>)
    requires Core(l, s, recs, pending)
    ensures l.Valid() && s.generation < U64_LIMIT && s.last < U64_LIMIT
  {
  }

  lemma RefusedWrite(l: Layout, s: State, offset: nat, input: seq<byte>)
    requires l.Valid() && s.append <= l.regionSize
    ensures !l.RangeValid(offset, |input|) ==> WriteRel(l, s, offset, input, Fail(JournalError.OutOfRange), s)
    ensures l.RangeValid(offset, |input|) && |input| > l.maxAtomicWrite ==>
              WriteRel(l, s, offset, input, Fail(TooLarge), s)
    ensures l.RangeValid(offset, |input|) && |input| == 0 ==> WriteRel(l, s, offset, input, Pass, s)
  {
  }

  lemma StoppedBeforeAppend(l: Layout, s: State, offset: nat, input: seq<byte>, r: Outcome<JournalError>, t: State)
    requires l.Valid() && s.append <= l.regionSize && l.RangeValid(offset, |input|) && 0 < |input| <= l.maxAtomicWrite
    requires NeedsCompaction(l, s, |input|) && CompactRel(l, s, r, t) && r.Fail?
    ensures WriteRel(l, s, offset, input, r, t)
  {
    hide CompactRel, AppendRel;
    assert CompactAndAppend(l, s, offset, input, r, t, r, t);
  }

  lemma WrittenThrough(l: Layout, s: State, offset: nat, input: seq<byte>, mid: State,
                       r: Outcome<JournalError>, t: State)
    requires l.Valid() && s.append <= l.regionSize && l.RangeValid(offset, |input|) && 0 < |input| <= l.maxAtomicWrite
    requires if NeedsCompaction(l, s, |input|) then CompactRel(l, s, Pass, mid) else mid == s
    requires AppendRel(l, mid, offset, input, r, t)
    ensures WriteRel(l, s, offset, input, r, t)
  {
    hide CompactRel, AppendRel;
    if NeedsCompaction(l, s, |input|) {
      assert CompactAndAppend(l, s, offset, input, Pass, mid, r, t);
    }
  }

  /** A usable tail is erased and its start is aligned. */
  lemma ReadyToAppend(l: Layout, s: State, recs: seq<Record>)
    requires Core(l, s, recs, None) && !s.unusable
    ensures ErasedFrom(s.own, s.append)
    ensures s.active <= 1 && Whole(l.RegionStart(s.active) + s.append, l.IoUnit())
  {
    hide HoldsLog, OrderedAfter, Whole, Committed, DeadEnd, Survivor;
    RegionPlacement(l, s.active);
    LayoutFacts(l);
    LogSizeWhole(l, recs);
    WholeSum(l.RecordArea(), LogSize(l, recs), l.IoUnit());
    WholeSum(l.RegionStart(s.active), s.append, l.IoUnit());
  }

  lemma {:induction false} LogSizeWhole(l: Layout, recs: seq<Record>)
    requires l.PositiveUnits()
    ensures Whole(LogSize(l, recs), l.IoUnit())
    decreases recs
  {
    if recs == [] {
      WholeZero(l.IoUnit());
    } else {
      RecordFacts(l, |recs[0].data|);
      LogSizeWhole(l, recs[1..]);
      WholeSum(l.RecordSize(|recs[0].data|), LogSize(l, recs[1..]), l.IoUnit());
    }
  }

  // ---------- reading back ----------

  lemma RegionEndWhole(l: Layout, region: nat)
    requires l.Valid() && region <= 1
    ensures Whole(l.RegionStart(region) + l.regionSize, l.IoUnit())
  {
    RegionPlacement(l, region);
    WholeSum(l.RegionStart(region), l.regionSize, l.IoUnit());
  }

  lemma ErasedChunk(region: seq<byte>, at: nat, unit: nat)
    requires at + unit <= |region| && AllErased(region[..at])
    ensures var chunk := region[at..][..unit];
            && (AllErased(chunk) ==> AllErased(region[..at + unit]))
            && (!AllErased(chunk) ==> !AllErased(region))
  {
    var chunk := region[at..][..unit];
    assert forall i :: 0 <= i < unit ==> chunk[i] == region[at + i];
    assert forall i :: at <= i < at + unit ==> region[i] == chunk[i - at];
    assert forall i :: 0 <= i < at ==> region[i] == region[..at][i];
  }

  lemma EndsOfPrefix(region: seq<byte>)
    ensures AllErased(region[..0]) && region[..|region|] == region
  {
  }

  lemma ChunkOfRange(region: seq<byte>, at: nat, length: nat, done: nat, unit: nat, copied: nat)
    requires at + length <= |region| && at + done + unit <= |region| && copied <= unit && done + copied <= length
    ensures region[at + done..][..unit][..copied] == region[at..][..length][done..done + copied]
  {
    var a, b := region[at + done..][..unit][..copied], region[at..][..length][done..done + copied];
    assert forall i :: 0 <= i < copied ==> a[i] == region[at + done + i] == b[i];
  }

  lemma StartOfFold(payload: seq<byte>)
    ensures Crc32.Update(0xFFFFFFFF, payload[..0]) == 0xFFFFFFFF
  {
  }

  lemma FoldExtends(region: seq<byte>, at: nat, length: nat, done: nat, unit: nat, consumed: nat)
    requires at + length <= |region| && done < length && at + done + unit <= |region|
    requires consumed == if length - done < unit then length - done else unit
    ensures var payload := region[at..][..length];
            Crc32.Update(Crc32.Update(0xFFFFFFFF, payload[..done]), region[at + done..][..unit][..consumed])
            == Crc32.Update(0xFFFFFFFF, payload[..done + consumed])
  {
    hide Crc32.Update;
    var payload := region[at..][..length];
    var chunk := region[at + done..][..unit][..consumed];
    assert payload[..done] + chunk == payload[..done + consumed];
    Crc32.UpdateConcat(0xFFFFFFFF, payload[..done], chunk);
  }

  lemma RecordsBegin(l: Layout, region: nat)
    requires l.Valid() && region <= 1
    ensures Whole(l.RegionStart(region) + l.RecordArea(), l.IoUnit()) && l.RecordArea() <= l.regionSize
    ensures Whole(l.RecordHeaderSize(), l.IoUnit())
  {
    RegionPlacement(l, region);
    LayoutFacts(l);
    WriteFitsAfterSnapshot(l, 0);
    WholeSum(l.RegionStart(region), l.RecordArea(), l.IoUnit());
  }

  lemma RecordPlaces(l: Layout, at: nat, length: nat)
    requires l.PositiveUnits() && Whole(at, l.IoUnit())
    ensures Whole(at + l.RecordHeaderSize(), l.IoUnit())
    ensures Whole(at + l.RecordHeaderSize() + l.PaddedSize(length), l.IoUnit())
    ensures Whole(l.CommitSize(), l.IoUnit())
    ensures Whole(at + l.RecordSize(length), l.IoUnit())
  {
    hide Whole;
    LayoutFacts(l);
    RecordFacts(l, length);
    WholeSum(at, l.RecordHeaderSize(), l.IoUnit());
    WholeSum(at + l.RecordHeaderSize(), l.PaddedSize(length), l.IoUnit());
    WholeSum(at, l.RecordSize(length), l.IoUnit());
  }

  // ---------- erases that work from the front ----------

  lemma SliceFromTheFront(l: Layout, before: seq<byte>, region: nat, after: seq<byte>)
    requires Fits(l, before) && region <= 1 && |after| == |before|
    requires l.RegionStart(1) + l.regionSize <= |before|
    requires after == before || (l.RegionStart(region) < |after| && after[l.RegionStart(region)] == ERASED)
    ensures FromTheFront(Slice(l, before, region), Slice(l, after, region))
  {
  }

  lemma BuiltIsNotErased(l: Layout, s: State, t: State)
    requires l.Valid() && |t.other| == l.regionSize
    requires t.other == s.other || t.generation != s.generation
             || BeingBuilt(l, s, t.other) || BeingCommitted(l, s, t.other)
    ensures StoppedInErase(l, s, t) ==> FromTheFront(s.other, t.other)
  {
    hide PartlyErased, BeingBuilt, BeingCommitted;
  }

  lemma WrittenIsNotErased(l: Layout, s: State, offset: nat, input: seq<byte>, mid: State, r: Outcome<JournalError>, t: State)
    requires l.Valid() && s.append <= l.regionSize && |t.other| == l.regionSize
    requires if NeedsCompaction(l, s, |input|) then CompactRel(l, s, Pass, mid) else mid == s
    requires AppendRel(l, mid, offset, input, r, t)
    ensures StoppedInErase(l, s, t) ==> FromTheFront(s.other, t.other)
  {
    hide FullyBuilt, HoldsRecord, RecordStopped, PartlyErased, BeingBuilt, BeingCommitted;
    BuiltIsNotErased(l, s, t);
  }

  /** One step of the scan, from what the header says. */
  lemma ScanAt(l: Layout, region: seq<byte>, at: nat, last: nat, loaded: bool, image: seq<byte>)
    requires l.Valid() && at <= |region| && |image| == l.logicalCapacity
    ensures at + l.RecordHeaderSize() + l.CommitSize() > |region| ==>
              Scan(l, region, at, last, loaded, image) == FinishTail(loaded, image, last, at, true)
    ensures at + l.RecordHeaderSize() + l.CommitSize() <= |region| ==>
              var claim := ReadHeader(l, region[at..][..l.RecordHeaderSize()], |region| - at, last, loaded);
              Scan(l, region, at, last, loaded, image)
              == match claim
                 case NoHeader => FinishTail(loaded, image, last, at, false)
                 case BadHeader => FinishTail(loaded, image, last, at, true)
                 case NotTheSnapshot => Corrupt
                 case Claim(_, _, _, _) =>
                   match ReadBody(l, region, at, claim)
                   case Found(rec) => Scan(l, region, at + l.RecordSize(claim.length), claim.sequence, true,
                                           Put(image, claim.offset, rec.data))
                   case _ => FinishTail(loaded, image, last, at, true)
  {
    hide ReadHeader, ReadBody, Put;
    if at + l.RecordHeaderSize() + l.CommitSize() <= |region| {
      assert region[at..][..l.RecordHeaderSize()] == region[at..at + l.RecordHeaderSize()];
    }
  }

  lemma BodyOutcome(l: Layout, region: seq<byte>, at: nat, claim: Claim)
    requires l.Valid() && claim.Claim? && at + l.RecordSize(claim.length) <= |region|
    ensures var payloadAt := at + l.RecordHeaderSize();
            var commit := region[payloadAt + l.PaddedSize(claim.length)..][..l.CommitSize()];
            var payload := region[payloadAt..][..claim.length];
            ReadBody(l, region, at, claim)
            == if CommitValid(commit, RECORD_COMMIT_MAGIC, claim.sequence) && Crc32.Checksum(payload) == claim.checksum
               then Found(Record(claim.sequence, claim.offset, payload)) else Dead
  {
    hide CommitValid, Crc32.Checksum;
    var payloadAt := at + l.RecordHeaderSize();
    var commitAt := payloadAt + l.PaddedSize(claim.length);
    assert region[commitAt..][..l.CommitSize()] == region[commitAt..commitAt + l.CommitSize()];
    assert region[payloadAt..][..claim.length] == region[payloadAt..payloadAt + claim.length];
  }

  lemma FormatFacts(l: Layout)
    requires l.Valid()
    ensures var blank := Filled(l.regionSize, ERASED);
            var header, commit := RegionHeader(l, 1), Commit(l, REGION_COMMIT_MAGIC, 1);
            && l.RecordArea() <= l.regionSize
            && ErasedBetween(blank, 0, l.RegionHeaderSize())
            && ErasedBetween(Splice(blank, 0, header), l.RegionHeaderSize(), l.RecordArea())
            && Splice(Splice(blank, 0, header), l.RegionHeaderSize(), commit) == Formatted(l, 1)
  {
    hide RegionHeader, Commit;
    WriteFitsAfterSnapshot(l, 0);
    SpliceChain(Filled(l.regionSize, ERASED), 0, RegionHeader(l, 1), Commit(l, REGION_COMMIT_MAGIC, 1));
  }
}
