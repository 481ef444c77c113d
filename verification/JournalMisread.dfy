/**
  A half-erased snapshot that still passes every check. The erase has to skip the
  first erase unit of the region, and the bytes it takes away have to be ones that
  the checksum cannot tell from erased ones.
 */
module JournalMisread {
  import opened Bytes
  import opened Wrappers
  import opened NorFlash
  import opened JournalLayout
  import opened JournalFormat
  import opened JournalRecovery
  import opened JournalState
  import opened JournalSteps
  import opened JournalRuns
  import opened JournalLoss
  import Crc32

  /** One-byte units, regions of three 100-byte erase units, 120 bytes of memory. */
  const TORN: Layout := Layout(1, 1, 100, 600, 120, 5, 0, 300)

  const BLANK: seq<byte> := Filled(120, ERASED)

  const IMAGE: seq<byte> := Put(BLANK, 8, Crc32.TWIN)

  const WRITES: Event := Wrote(8, Crc32.TWIN, Pass)

  /** Four writes succeed, two compactions stop behind the marker and in the first erase, and power fails. */
  const MISREADING: seq<Event> :=
    [WRITES, WRITES, WRITES, WRITES,
     Wrote(8, Crc32.TWIN, Fail(Flash(Io))), Wrote(8, Crc32.TWIN, Fail(Flash(EraseFailed))), Restarted]

  lemma TornSizes()
    ensures TORN.Valid() && TORN.RecordArea() == 52 && TORN.RegionHeaderSize() == 36 && TORN.CommitSize() == 16
    ensures TORN.RecordHeaderSize() == 40 && TORN.PaddedSize(120) == 120
    ensures TORN.RecordSize(5) == 61 && TORN.RecordSize(120) == 176
  {
    assert Gcd(1, 1) == Gcd(1, 0) == 1;
    assert TORN.IoUnit() == 1;
    assert AlignUp(36, 1) == 36 && AlignUp(40, 1) == 40 && AlignUp(16, 1) == 16;
    assert AlignUp(5, 1) == 5 && AlignUp(120, 1) == 120;
    WholeProduct(3, 100);
    WholeProduct(300, 1);
    WholeProduct(0, 100);
    WholeProduct(0, 1);
  }

  /** The second erase unit of the other region is erased, and no more. */
  function SecondUnitErased(s: State): State
    requires |s.other| == 300
  {
    s.(other := Splice(s.other, 100, Filled(100, ERASED)))
  }

  lemma UnitErased(s: State)
    requires |s.other| == 300
    ensures PartlyErased(s.other, 0, 300, 100, SecondUnitErased(s).other)
  {
  }

  lemma SameChecksum()
    ensures Crc32.Checksum(IMAGE) == Crc32.Checksum(BLANK)
  {
    hide Crc32.Checksum;
    Crc32.FiveBytesUnnoticed(Filled(8, ERASED), Filled(107, ERASED));
    assert IMAGE == Filled(8, ERASED) + Crc32.TWIN + Filled(107, ERASED);
    assert BLANK == Filled(8, ERASED) + Filled(5, ERASED) + Filled(107, ERASED);
  }

  /** What is left of the snapshot is a complete snapshot of a blank image. */
  lemma BlankSnapshot(region: seq<byte>, sequence: nat)
    requires |region| == 300 && TORN.Valid()
    requires HoldsRecord(TORN, region, 52, Record(sequence, 0, IMAGE))
    ensures HoldsRecord(TORN, Splice(region, 100, Filled(100, ERASED)), 52, Record(sequence, 0, BLANK))
  {
    hide Sealed, Commit, Splice, Crc32.Checksum, Layout.Valid;
    TornSizes();
    SameChecksum();
    var snap, blank := Record(sequence, 0, IMAGE), Record(sequence, 0, BLANK);
    var now := Splice(region, 100, Filled(100, ERASED));
    assert RecordBody(snap) == RecordBody(blank);
    assert now[52..92] == region[52..92];
    assert now[212..228] == region[212..228];
    forall i | 92 <= i < 212
      ensures now[i] == ERASED
    {
      assert region[92..212][i - 92] == Payload(TORN, IMAGE)[i - 92] == IMAGE[i - 92];
    }
    assert now[92..212] == Payload(TORN, BLANK);
  }

  /** The erase of the second compaction is cut behind that unit. */
  lemma CutErase(s: State, recs: seq<Record>, snap: Record) returns (t: State)
    requires TORN.Valid() && Inv(TORN, s, recs, None, Some(snap)) && NeedsCompaction(TORN, s, 5)
    requires snap.data == IMAGE && s.mirror == IMAGE && s.last + 1 < U64_LIMIT
    ensures Shape(TORN, s) && Shape(TORN, t) && Step(TORN, s, Wrote(8, Crc32.TWIN, Fail(Flash(EraseFailed))), t)
    ensures Inv(TORN, t, recs, None, Some(snap.(data := BLANK))) && Misread(TORN, s, t)
  {
    hide LogInv, TailInv, CompactRel, WriteRel, BeingBuilt, BeingCommitted, HoldsRecord, Inspect, LoadRegion;
    hide PartlyErased, Committed, Splice, Layout.Valid;
    TornSizes();
    t := SecondUnitErased(s);
    UnitErased(s);
    HoldsBlank(s, recs, snap);
    TwinGone(s, t, snap);
    EraseCut(s, t);
  }

  lemma HoldsBlank(s: State, recs: seq<Record>, snap: Record)
    requires TORN.Valid() && Inv(TORN, s, recs, None, Some(snap)) && snap.data == IMAGE
    ensures var t := SecondUnitErased(s);
            && Inv(TORN, t, recs, None, Some(snap.(data := BLANK)))
            && Inspect(TORN, t.other) == Some(s.generation + 1)
            && LoadRegion(TORN, t.other, s.generation + 1) != Corrupt
  {
    hide Splice, HoldsRecord, Committed, Inspect, LoadRegion, LogInv, TailInv, PartlyErased, Layout.Valid, ErasedFrom;
    TornSizes();
    var t, blank := SecondUnitErased(s), snap.(data := BLANK);
    UnitErased(s);
    StillSuperseding(s, snap, t);
    SameOwn(s, recs, t);
    InspectCommitted(TORN, t.other, s.generation + 1);
    SupersedingLoads(TORN, t, blank);
  }

  lemma StillSuperseding(s: State, snap: Record, t: State)
    requires TORN.Valid() && Shape(TORN, s) && SupersededBy(TORN, s, snap) && snap.data == IMAGE
    requires t == SecondUnitErased(s) && PartlyErased(s.other, 0, 300, 100, t.other)
    ensures SupersededBy(TORN, t, snap.(data := BLANK))
  {
    hide HoldsRecord, Committed, PartlyErased, Layout.Valid, ErasedFrom, LogInv;
    TornSizes();
    BlankSnapshot(s.other, snap.sequence);
    CommittedFrame(TORN, s.other, t.other, s.generation + 1);
    ErasedStaysErased(TORN, s.other, t.other, 228);
  }

  lemma SameOwn(s: State, recs: seq<Record>, t: State)
    requires TORN.Valid() && Core(TORN, s, recs, None) && t == s.(other := t.other) && |t.other| == 300
    ensures Core(TORN, t, recs, None)
  {
    hide HoldsLog, OrderedAfter, Committed, Probe;
  }

  /** The bytes that were erased are missing from a snapshot of the image, old or new. */
  lemma TwinGone(s: State, t: State, snap: Record)
    requires TORN.Valid() && Shape(TORN, s) && s.mirror == IMAGE && t == SecondUnitErased(s)
    requires HoldsRecord(TORN, s.other, 52, snap) && snap.data == IMAGE
    requires Inspect(TORN, t.other).Some?
    ensures t.other != s.other && !BeingBuilt(TORN, s, t.other) && !BeingCommitted(TORN, s, t.other)
  {
    hide Sealed, Commit, Crc32.Checksum, Layout.Valid, Committed;
    TornSizes();
    assert s.other[92..212][8] == Payload(TORN, IMAGE)[8] == IMAGE[8] == 0xBE;
    assert t.other[100] == ERASED;
    if t.other[36] == ERASED {
      InspectWithoutCommit(TORN, t.other);
    }
  }

  lemma EraseCut(s: State, t: State)
    requires TORN.Valid() && Shape(TORN, s) && NeedsCompaction(TORN, s, 5)
    requires s.generation + 1 < U64_LIMIT && s.last + 1 < U64_LIMIT
    requires t == s.(other := t.other) && PartlyErased(s.other, 0, 300, 100, t.other)
    ensures WriteRel(TORN, s, 8, Crc32.TWIN, Fail(Flash(EraseFailed)), t)
  {
    hide PartlyErased, BeingBuilt, BeingCommitted, Switched;
    var failed: Outcome<JournalError> := Fail(Flash(EraseFailed));
    assert CompactRel(TORN, s, failed, t);
    assert CompactAndAppend(TORN, s, 8, Crc32.TWIN, failed, t, failed, t);
  }

  lemma PutTwice(image: seq<byte>, offset: nat, data: seq<byte>)
    ensures Put(Put(image, offset, data), offset, data) == Put(image, offset, data)
  {
  }

  /** Once one such write is kept, its bytes stay whatever else is kept. */
  lemma {:induction false} TwinStays(events: seq<Event>, kept: seq<bool>, i: nat)
    requires |kept| == |events| && i < |events| && kept[i] && events[i].Wrote?
    requires forall e :: e in events && e.Wrote? ==> e.offset == 8 && e.data == Crc32.TWIN
    ensures Outcomes(BLANK, events, kept)[8] == 0xBE
    decreases events
  {
    var n := |events| - 1;
    assert events[n] in events;
    if i < n {
      TwinStays(events[..n], kept[..n], i);
    }
  }

  /** The first write was acknowledged and not made past a snapshot, so every account would keep it. */
  lemma NoAccount(states: seq<State>)
    requires |states| == 8 && TORN.Valid() && Shapes(TORN, states) && !TakesOver(TORN, states[0])
    requires states[0].mirror == BLANK && states[7].mirror == BLANK
    ensures !Explained(TORN, states, MISREADING)
  {
    hide Shape, TakesOver, Outcomes, SettledAt;
    forall kept | Explains(TORN, states, MISREADING, kept)
      ensures Outcomes(BLANK, MISREADING, kept) != BLANK
    {
      assert ExplainsAt(TORN, states, MISREADING, kept, 0);
      TwinStays(MISREADING, kept, 0);
    }
  }

  /**
    A run with one misread, behind which no account of the writes explains the image:
    every acknowledged write is gone, although none was made past a snapshot.
   */
  lemma HalfErasedSnapshotMisread()
    ensures exists states: seq<State> ::
              && |states| == 8 && states[0] == Fresh(TORN) && Run(TORN, states, MISREADING)
              && Misread(TORN, states[5], states[6])
              && states[4].mirror == IMAGE && states[7].mirror == BLANK && !Explained(TORN, states, MISREADING)
  {
    hide Formatted, LogInv, TailInv, WriteRel, Mount, Inv, OtherIsOlder, Layout.Valid, TakesOver, Misread, Put;
    TornSizes();
    FreshInv(TORN);
    var s0 := Fresh(TORN);
    var s1, recs1 := Appends(TORN, s0, [], None, 8, Crc32.TWIN);
    PutTwice(BLANK, 8, Crc32.TWIN);
    var s2, recs2 := Appends(TORN, s1, recs1, None, 8, Crc32.TWIN);
    var s3, recs3 := Appends(TORN, s2, recs2, None, 8, Crc32.TWIN);
    var s4, recs4 := Appends(TORN, s3, recs3, None, 8, Crc32.TWIN);
    assert s4.mirror == IMAGE && s4.append == 296;
    var s5 := SilentCommit(TORN, s4, recs4, 8, Crc32.TWIN);
    var s6 := CutErase(s5, recs4, Snapshot(s4));
    var s7 := TakenOver(TORN, s6, recs4, Snapshot(s4).(data := BLANK));
    var states := [s0, s1, s2, s3, s4, s5, s6, s7];
    TakesOverIs(TORN, s0, [], None, None);
    NoAccount(states);
  }
}
