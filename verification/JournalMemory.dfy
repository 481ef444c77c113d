/**
  The journal object over its flash: every operation as the driver performs it,
  each proved against the region-level description of what it does to the flash
  and to the live fields, for success and for every way a flash operation can stop.
 */
module JournalMemory {
  import opened Bytes
  import opened Wrappers
  import opened NorFlash
  import opened JournalLayout
  import opened JournalFormat
  import opened JournalRecovery
  import opened JournalState
  import opened JournalSteps
  import opened JournalRuns
  import opened JournalRegions
  import opened JournalImages
  import opened JournalMounting
  import Crc32

  // ---------- encoding into a buffer ----------

  /** One more field behind those already there. */
  method PutNext(buffer: array<byte>, ghost blank: seq<byte>, ghost fields: seq<byte>,
                 offset: nat, value: nat, width: nat)
    requires |blank| == buffer.Length && offset == |fields| && offset + width <= buffer.Length
    requires buffer[..] == Splice(blank, 0, fields)
    modifies buffer
    ensures buffer[..] == Splice(blank, 0, fields + LittleEndian(value, width))
  {
    hide Splice, LittleEndian;
    PutField(buffer, offset, value, width);
    SpliceChain(blank, 0, fields, LittleEndian(value, width));
  }

  /** The checksum of the fields so far, behind them. */
  method Seal(buffer: array<byte>, ghost fields: seq<byte>, size: nat)
    requires size == |fields| && size + 4 <= buffer.Length
    requires buffer[..] == Splice(Filled(buffer.Length, ERASED), 0, fields)
    modifies buffer
    ensures buffer[..] == Padded(Sealed(fields), buffer.Length)
  {
    hide Splice, LittleEndian, Filled, Crc32.Checksum;
    assert buffer[..size] == fields;
    var checksum := Crc32.Compute(buffer[..size]);
    PutNext(buffer, Filled(buffer.Length, ERASED), fields, size, checksum, 4);
    SplicedIsPadded(buffer.Length, Sealed(fields));
  }

  lemma NoFields(blank: seq<byte>)
    ensures Splice(blank, 0, []) == blank
  {
  }

  /** An erased buffer with the fields of a region header and their checksum. */
  method BuildRegionHeader(l: Layout, generation: nat) returns (header: seq<byte>)
    requires l.Valid()
    ensures header == RegionHeader(l, generation)
  {
    hide Splice, Filled, LittleEndian, Crc32.Checksum, Padded, Sealed, Layout.Valid, Layout.IoUnit, AlignUp;
    UnitsPositive(l);
    var buffer := new byte[l.RegionHeaderSize()](_ => ERASED);
    ghost var blank, f := Filled(l.RegionHeaderSize(), ERASED), [];
    assert buffer[..] == blank;
    NoFields(blank);
    PutNext(buffer, blank, f, 0, REGION_MAGIC, 4);
    f := f + LittleEndian(REGION_MAGIC, 4);
    PutNext(buffer, blank, f, 4, FORMAT_VERSION, 2);
    f := f + LittleEndian(FORMAT_VERSION, 2);
    PutNext(buffer, blank, f, 6, 0, 2);
    f := f + LittleEndian(0, 2);
    PutNext(buffer, blank, f, 8, generation, 8);
    f := f + LittleEndian(generation, 8);
    PutNext(buffer, blank, f, 16, l.logicalCapacity, 8);
    f := f + LittleEndian(l.logicalCapacity, 8);
    PutNext(buffer, blank, f, 24, l.maxAtomicWrite, 8);
    f := f + LittleEndian(l.maxAtomicWrite, 8);
    assert f == RegionBody(l, generation);
    Seal(buffer, f, 32);
    header := buffer[..];
  }

  method BuildCommit(l: Layout, magic: nat, number: nat) returns (commit: seq<byte>)
    requires l.Valid()
    ensures commit == Commit(l, magic, number)
  {
    hide Splice, Filled, LittleEndian, Crc32.Checksum, Padded, Sealed, Layout.Valid, Layout.IoUnit, AlignUp;
    UnitsPositive(l);
    var buffer := new byte[l.CommitSize()](_ => ERASED);
    ghost var blank, f := Filled(l.CommitSize(), ERASED), [];
    assert buffer[..] == blank;
    NoFields(blank);
    PutNext(buffer, blank, f, 0, magic, 4);
    f := f + LittleEndian(magic, 4);
    PutNext(buffer, blank, f, 4, number, 8);
    f := f + LittleEndian(number, 8);
    assert f == CommitBody(magic, number);
    Seal(buffer, f, 12);
    commit := buffer[..];
  }

  method BuildRecordHeader(l: Layout, rec: Record) returns (header: seq<byte>)
    requires l.Valid()
    ensures header == RecordHeader(l, rec)
  {
    hide Splice, Filled, LittleEndian, Crc32.Checksum, Padded, Sealed, Layout.Valid, Layout.IoUnit, AlignUp;
    UnitsPositive(l);
    var buffer := new byte[l.RecordHeaderSize()](_ => ERASED);
    ghost var blank, f := Filled(l.RecordHeaderSize(), ERASED), [];
    assert buffer[..] == blank;
    NoFields(blank);
    PutNext(buffer, blank, f, 0, RECORD_MAGIC, 4);
    f := f + LittleEndian(RECORD_MAGIC, 4);
    PutNext(buffer, blank, f, 4, FORMAT_VERSION, 2);
    f := f + LittleEndian(FORMAT_VERSION, 2);
    PutNext(buffer, blank, f, 6, 0, 2);
    f := f + LittleEndian(0, 2);
    PutNext(buffer, blank, f, 8, rec.sequence, 8);
    f := f + LittleEndian(rec.sequence, 8);
    PutNext(buffer, blank, f, 16, rec.offset, 8);
    f := f + LittleEndian(rec.offset, 8);
    PutNext(buffer, blank, f, 24, |rec.data|, 8);
    f := f + LittleEndian(|rec.data|, 8);
    var payloadChecksum := Crc32.Compute(rec.data);
    PutNext(buffer, blank, f, 32, payloadChecksum, 4);
    f := f + LittleEndian(payloadChecksum, 4);
    assert f == RecordBody(rec);
    Seal(buffer, f, 36);
    header := buffer[..];
  }

  datatype RegionInfo = RegionInfo(valid: bool, erased: bool, generation: nat)

  /** What inspecting a region reports. */
  function InfoOf(l: Layout, region: seq<byte>): RegionInfo
    requires l.Valid() && |region| == l.regionSize
  {
    match Inspect(l, region)
    case Some(generation) => RegionInfo(true, false, generation)
    case None => RegionInfo(false, AllErased(region), 0)
  }

  /** The flash is the one the layout was computed for. */
  ghost predicate Suits(l: Layout, flash: FileNorFlash)
    reads flash`cells
    ensures Suits(l, flash) ==> l.Valid() && l.RegionStart(0) + l.regionSize <= l.RegionStart(1) + l.regionSize
    ensures Suits(l, flash) ==> l.RegionStart(1) + l.regionSize <= |flash.cells|
  {
    && l.Valid() && flash.Valid()
    && flash.capacity == l.flashCapacity && flash.readSize == l.readSize
    && flash.programSize == l.programSize && flash.eraseSize == l.eraseSize
    && l.RegionStart(1) + l.regionSize <= |flash.cells|
  }

  class JournalMemory {
    const layout: Layout
    const flash: FileNorFlash
    const mirror: array<byte>
    var generation: nat
    var lastSequence: nat
    var appendOffset: nat
    var activeRegion: nat
    var tailUnusable: bool
    ghost var log: seq<Record>
    ghost var pending: Option<Record>
    ghost var held: Option<Record>

    // ----- what the object and its flash stand for -----

    ghost predicate Attached()
      reads flash`cells
      ensures Attached() ==> layout.Valid() && layout.PositiveUnits() && mirror.Length == layout.logicalCapacity
    {
      Suits(layout, flash) && mirror.Length == layout.logicalCapacity
    }

    ghost function Region(region: nat): (r: seq<byte>)
      requires Attached() && region <= 1
      reads flash`cells
      ensures |r| == layout.regionSize
    {
      Slice(layout, flash.cells, region)
    }

    ghost predicate Placed()
      reads `activeRegion, `appendOffset, flash`cells
      ensures Placed() ==> Attached() && activeRegion <= 1
    {
      && Attached() && activeRegion <= 1
      && layout.RegionStart(activeRegion) <= appendOffset
                                           <= layout.RegionStart(activeRegion) + layout.regionSize
    }

    ghost function View(): (s: State)
      requires Placed()
      reads `generation, `lastSequence, `appendOffset, `activeRegion, `tailUnusable, flash`cells, mirror
      ensures s.generation == generation && s.last == lastSequence && s.active == activeRegion
      ensures |s.own| == |s.other| == layout.regionSize && |s.mirror| == layout.logicalCapacity
      ensures s.append == appendOffset - layout.RegionStart(activeRegion) <= layout.regionSize
      ensures s.unusable == tailUnusable && s.mirror == mirror[..]
    {
      State(Region(activeRegion), Region(Opposite(activeRegion)), mirror[..], generation, lastSequence,
            appendOffset - layout.RegionStart(activeRegion), activeRegion, tailUnusable)
    }

    /** The live object agrees with its own region. */
    ghost predicate Consistent()
      reads this, flash, mirror
    {
      Placed() && Core(layout, View(), log, pending)
    }

    /** Moreover, mounting would agree with it. */
    ghost predicate Valid()
      reads this, flash, mirror
      ensures Valid() ==> Consistent()
    {
      Placed() && Inv(layout, View(), log, pending, held)
    }

    ghost function Live(): Load
      requires Placed()
      reads `lastSequence, `appendOffset, `activeRegion, `tailUnusable, flash`cells, mirror
    {
      Loaded(mirror[..], lastSequence, appendOffset - layout.RegionStart(activeRegion), tailUnusable)
    }

    ghost predicate LoadsTo(loaded: Load)
      requires Attached() && activeRegion <= 1
      reads `generation, `activeRegion, flash`cells
    {
      LoadRegion(layout, Region(activeRegion), generation) == loaded
    }

    constructor Attach(layout: Layout, flash: FileNorFlash, mirror: array<byte>)
      ensures this.layout == layout && this.flash == flash && this.mirror == mirror
      ensures generation == 0 && lastSequence == 0 && appendOffset == 0 && activeRegion == 0 && !tailUnusable
    {
      this.layout, this.flash, this.mirror := layout, flash, mirror;
      generation, lastSequence, appendOffset, activeRegion, tailUnusable := 0, 0, 0, 0, false;
      log, pending, held := [], None, None;
    }

    // ----- flash access -----

    method ReadArray(offset: nat, length: nat, ghost region: nat) returns (r: Result<seq<byte>, JournalError>)
      requires Attached() && flash.powered && region <= 1
      requires layout.RegionStart(region) <= offset && offset + length <= layout.RegionStart(region) + layout.regionSize
      requires Whole(offset, layout.IoUnit()) && Whole(length, layout.IoUnit())
      modifies flash`powered, flash`faults
      ensures Attached()
      ensures r.Success? ==> flash.powered
                             && r.value == Region(region)[offset - layout.RegionStart(region)..][..length]
      ensures r.Failure? ==> r.error == Flash(Io)
      ensures flash.faults == old(flash.faults) + if r.Failure? then 1 else 0
    {
      hide Whole, Slice, Layout.IoUnit, AlignUp;
      RegionPlacement(layout, region);
      UnitsSuit(layout, offset);
      UnitsSuit(layout, length);
      SliceRead(layout, flash.cells, region, offset, length);
      var read := flash.Read(offset, length);
      match read
      case Success(data) =>
        return Success(data);
      case Failure(error) =>
        return Failure(Flash(error));
    }

    /** Every program the journal issues is aligned, inside its region and over erased cells. */
    method ProgramArray(offset: nat, data: seq<byte>, ghost region: nat) returns (r: Outcome<JournalError>)
      requires Attached() && flash.powered && region <= 1
      requires layout.RegionStart(region) <= offset
      requires offset + |data| <= layout.RegionStart(region) + layout.regionSize
      requires Whole(offset, layout.IoUnit()) && Whole(|data|, layout.IoUnit())
      requires var at := offset - layout.RegionStart(region); ErasedBetween(Region(region), at, at + |data|)
      modifies flash
      ensures Attached()
      ensures Region(Opposite(region)) == old(Region(Opposite(region)))
      ensures var at := offset - layout.RegionStart(region);
              match r
              case Pass => flash.powered && Region(region) == Splice(old(Region(region)), at, data)
              case Fail(error) =>
                && error == Flash(Io)
                && PartOf(Region(region), at, data)
                && SameBut(old(Region(region)), Region(region), at, at + |data|)
      ensures flash.faults == old(flash.faults) + if r.Fail? && r.error.Flash? then 1 else 0
    {
      hide Whole, Splice, Slice, ClearsOnly, PartlyProgrammed, PartOf, SameBut, ErasedBetween;
      hide Layout.Valid, Layout.IoUnit, AlignUp, Opposite, FileNorFlash.InBounds, ClearsBitsOnly;
      RegionPlacement(layout, region);
      UnitsSuit(layout, offset);
      UnitsSuit(layout, |data|);
      ghost var at := offset - layout.RegionStart(region);
      ghost var before := flash.cells;
      OverErasedCells(layout, before, region, offset, data);
      var programmed := flash.Program(offset, data);
      match programmed
      case Pass =>
        SliceProgrammed(layout, before, region, at, data, flash.cells);
        return Pass;
      case Fail(error) =>
        SlicePartlyProgrammed(layout, before, region, at, data, flash.cells);
        return Fail(Flash(error));
    }

    lemma OverErasedCells(l: Layout, cells: seq<byte>, region: nat, offset: nat, data: seq<byte>)
      requires Fits(l, cells) && region <= 1
      requires l.RegionStart(region) <= offset && offset + |data| <= l.RegionStart(region) + l.regionSize
      requires l.RegionStart(1) + l.regionSize <= |cells|
      requires var at := offset - l.RegionStart(region); ErasedBetween(Slice(l, cells, region), at, at + |data|)
      ensures offset + |data| <= |cells|
      ensures forall i :: 0 <= i < |data| ==> ClearsOnly(cells[offset + i], data[i])
    {
      var at := offset - l.RegionStart(region);
      forall i | 0 <= i < |data|
        ensures ClearsOnly(cells[offset + i], data[i])
      {
        assert Slice(l, cells, region)[at + i] == cells[offset + i];
        OverErased(data[i]);
      }
    }

    method EraseRegion(region: nat) returns (r: Outcome<JournalError>)
      requires Attached() && flash.powered && region <= 1
      modifies flash
      ensures Attached()
      ensures Region(Opposite(region)) == old(Region(Opposite(region)))
      ensures match r
              case Pass => flash.powered && Region(region) == Filled(layout.regionSize, ERASED)
              case Fail(error) =>
                && error == Flash(EraseFailed)
                && PartlyErased(old(Region(region)), 0, layout.regionSize, layout.eraseSize, Region(region))
                && FromTheFront(old(Region(region)), Region(region))
      ensures flash.faults == old(flash.faults) + if r.Fail? && r.error.Flash? then 1 else 0
    {
      hide Whole, Splice, Slice, PartlyErased, FromTheFront;
      RegionPlacement(layout, region);
      ghost var before := flash.cells;
      var start := layout.RegionStart(region);
      var erased := flash.Erase(start, layout.regionSize);
      match erased
      case Pass =>
        SliceErased(layout, before, region, flash.cells);
        return Pass;
      case Fail(error) =>
        SlicePartlyErased(layout, before, region, flash.cells);
        SliceFromTheFront(layout, before, region, flash.cells);
        return Fail(Flash(error));
    }

    method SyncFlash() returns (r: Outcome<JournalError>)
      requires Placed() && flash.powered
      modifies flash`powered, flash`faults, flash`dirty
      ensures Placed() && View() == old(View())
      ensures r.Pass? ==> flash.powered && !flash.dirty
      ensures r.Fail? ==> r.error == Flash(Io)
      ensures flash.faults == old(flash.faults) + if r.Fail? && r.error.Flash? then 1 else 0
    {
      var synced := flash.Sync();
      match synced
      case Pass => return Pass;
      case Fail(error) => return Fail(Flash(error));
    }

    // ----- writing records and region markers -----

    method WriteRegionHeader(region: nat, generation: nat) returns (r: Outcome<JournalError>)
      requires Attached() && flash.powered && region <= 1
      requires ErasedBetween(Region(region), 0, layout.RegionHeaderSize())
      modifies flash
      ensures Attached()
      ensures Region(Opposite(region)) == old(Region(Opposite(region)))
      ensures match r
              case Pass => flash.powered
                           && Region(region) == Splice(old(Region(region)), 0, RegionHeader(layout, generation))
              case Fail(error) =>
                && error == Flash(Io)
                && PartOf(Region(region), 0, RegionHeader(layout, generation))
                && SameBut(old(Region(region)), Region(region), 0, layout.RegionHeaderSize())
      ensures flash.faults == old(flash.faults) + if r.Fail? && r.error.Flash? then 1 else 0
    {
      hide RegionHeader, Whole, Splice, Slice;
      RegionPlacement(layout, region);
      LayoutFacts(layout);
      var header := BuildRegionHeader(layout, generation);
      r := ProgramArray(layout.RegionStart(region), header, region);
    }

    method WriteRegionCommit(region: nat, generation: nat) returns (r: Outcome<JournalError>)
      requires Attached() && flash.powered && region <= 1
      requires ErasedBetween(Region(region), layout.RegionHeaderSize(), layout.RecordArea())
      modifies flash
      ensures Attached()
      ensures Region(Opposite(region)) == old(Region(Opposite(region)))
      ensures var marker := Commit(layout, REGION_COMMIT_MAGIC, generation);
              match r
              case Pass => flash.powered
                           && Region(region) == Splice(old(Region(region)), layout.RegionHeaderSize(), marker)
              case Fail(error) =>
                && error == Flash(Io)
                && PartOf(Region(region), layout.RegionHeaderSize(), marker)
                && SameBut(old(Region(region)), Region(region), layout.RegionHeaderSize(), layout.RecordArea())
      ensures flash.faults == old(flash.faults) + if r.Fail? && r.error.Flash? then 1 else 0
    {
      hide Commit, Whole, Splice, Slice, Layout.Valid, Layout.RegionHeaderSize, Layout.CommitSize, AlignUp;
      RegionPlacement(layout, region);
      LayoutFacts(layout);
      WholeSum(layout.RegionStart(region), layout.RegionHeaderSize(), layout.IoUnit());
      var commit := BuildCommit(layout, REGION_COMMIT_MAGIC, generation);
      r := ProgramArray(layout.RegionStart(region) + layout.RegionHeaderSize(), commit, region);
    }

    /** One chunk of payload, padded with erased bytes. */
    method BuildChunk(payload: seq<byte>, source: nat, copied: nat) returns (chunk: seq<byte>)
      requires layout.Valid() && source + copied <= |payload| && copied <= layout.IoUnit()
      ensures chunk == Padded(payload[source..source + copied], layout.IoUnit())
    {
      hide Layout.IoUnit;
      var buffer := new byte[layout.IoUnit()](_ => ERASED);
      for index := 0 to copied
        invariant forall i :: 0 <= i < buffer.Length ==> buffer[i] == if i < index then payload[source + i] else ERASED
      {
        buffer[index] := payload[source + index];
      }
      chunk := buffer[..];
    }

    /** Header, padded payload chunk by chunk, commit marker: in this order, each over erased cells. */
    method WriteRecord(flashOffset: nat, sequence: nat, logicalOffset: nat, payload: seq<byte>, ghost region: nat)
      returns (r: Outcome<JournalError>)
      requires Attached() && flash.powered && region <= 1 && |payload| > 0
      requires layout.RegionStart(region) <= flashOffset
      requires flashOffset + layout.RecordSize(|payload|) <= layout.RegionStart(region) + layout.regionSize
      requires Whole(flashOffset, layout.IoUnit())
      requires ErasedFrom(Region(region), flashOffset - layout.RegionStart(region))
      modifies flash
      ensures Attached()
      ensures Region(Opposite(region)) == old(Region(Opposite(region)))
      ensures var at := flashOffset - layout.RegionStart(region);
              var rec := Record(sequence, logicalOffset, payload);
              && SameBut(old(Region(region)), Region(region), at, at + layout.RecordSize(|payload|))
              && match r
                 case Pass => flash.powered && HoldsRecord(layout, Region(region), at, rec)
                 case Fail(error) => error == Flash(Io) && RecordStopped(layout, Region(region), at, rec)
      ensures flash.faults == old(flash.faults) + if r.Fail? && r.error.Flash? then 1 else 0
    {
      hide Whole, Slice, Layout.IoUnit, AlignUp, SameBut, ErasedFrom, HoldsRecord, RecordStopped, Progress;
      var rec := Record(sequence, logicalOffset, payload);
      ghost var at := flashOffset - layout.RegionStart(region);
      ghost var before := Region(region);
      LayoutFacts(layout);
      RecordFacts(layout, |payload|);
      WholeSum(flashOffset, layout.RecordHeaderSize(), layout.IoUnit());
      WholeSum(flashOffset + layout.RecordHeaderSize(), layout.PaddedSize(|payload|), layout.IoUnit());
      r := WriteRecordHeader(flashOffset, rec, region);
      if r.Fail? {
        return;
      }
      var payloadOffset := flashOffset + layout.RecordHeaderSize();
      r := WritePayload(payloadOffset, rec, region, before, at);
      if r.Fail? {
        return;
      }
      r := WriteRecordCommit(payloadOffset + layout.PaddedSize(|payload|), rec, region, before, at);
    }

    method WriteRecordHeader(flashOffset: nat, rec: Record, ghost region: nat) returns (r: Outcome<JournalError>)
      requires Attached() && flash.powered && region <= 1
      requires layout.RegionStart(region) <= flashOffset
      requires flashOffset + layout.RecordSize(|rec.data|) <= layout.RegionStart(region) + layout.regionSize
      requires Whole(flashOffset, layout.IoUnit())
      requires ErasedFrom(Region(region), flashOffset - layout.RegionStart(region))
      modifies flash
      ensures Attached()
      ensures Region(Opposite(region)) == old(Region(Opposite(region)))
      ensures var at := flashOffset - layout.RegionStart(region);
              match r
              case Pass => flash.powered && Region(region) == Progress(layout, old(Region(region)), at, rec, 0)
              case Fail(error) =>
                && error == Flash(Io) && RecordStopped(layout, Region(region), at, rec)
                && SameBut(old(Region(region)), Region(region), at, at + layout.RecordSize(|rec.data|))
      ensures flash.faults == old(flash.faults) + if r.Fail? && r.error.Flash? then 1 else 0
    {
      hide RecordHeader, Commit, Payload, Padded, Whole, Splice, Slice, Layout.IoUnit, AlignUp, PartOf;
      hide SameBut, ErasedBetween, ErasedFrom, RecordStopped, Layout.Valid;
      ghost var at := flashOffset - layout.RegionStart(region);
      ghost var before := Region(region);
      LayoutFacts(layout);
      ErasedAhead(before, at, layout.RecordHeaderSize());
      NothingSpliced(Splice(before, at, RecordHeader(layout, rec)), at + layout.RecordHeaderSize(),
                     Payload(layout, rec.data));
      var header := BuildRecordHeader(layout, rec);
      r := ProgramArray(flashOffset, header, region);
      if r.Fail? {
        StoppedInHeader(layout, before, at, rec, Region(region));
      }
    }

    method WriteRecordCommit(destination: nat, rec: Record, ghost region: nat, ghost before: seq<byte>, ghost at: nat)
      returns (r: Outcome<JournalError>)
      requires Attached() && flash.powered && region <= 1
      requires |before| == layout.regionSize && at + layout.RecordSize(|rec.data|) <= layout.regionSize
      requires destination == layout.RegionStart(region) + at + layout.RecordHeaderSize() + layout.PaddedSize(|rec.data|)
      requires Whole(destination, layout.IoUnit()) && ErasedFrom(before, at)
      requires Region(region) == Progress(layout, before, at, rec, layout.PaddedSize(|rec.data|))
      modifies flash
      ensures Attached()
      ensures Region(Opposite(region)) == old(Region(Opposite(region)))
      ensures SameBut(before, Region(region), at, at + layout.RecordSize(|rec.data|))
      ensures match r
              case Pass => flash.powered && HoldsRecord(layout, Region(region), at, rec)
              case Fail(error) => error == Flash(Io) && RecordStopped(layout, Region(region), at, rec)
      ensures flash.faults == old(flash.faults) + if r.Fail? && r.error.Flash? then 1 else 0
    {
      hide RecordHeader, Commit, Payload, Padded, Whole, Splice, Slice, Layout.IoUnit, AlignUp, PartOf;
      hide SameBut, ErasedBetween, ErasedFrom, HoldsRecord, RecordStopped, Progress, Layout.Valid;
      hide Layout.RecordHeaderSize, Layout.CommitSize, Layout.PaddedSize;
      LayoutFacts(layout);
      ghost var padded := layout.PaddedSize(|rec.data|);
      StillErased(layout, before, at, rec, padded, padded + layout.CommitSize());
      var commit := BuildCommit(layout, RECORD_COMMIT_MAGIC, rec.sequence);
      r := ProgramArray(destination, commit, region);
      if r.Fail? {
        StoppedInCommit(layout, before, at, rec, Region(region));
      } else {
        RecordDone(layout, before, at, rec);
      }
    }

    method ProgramChunk(destination: nat, chunk: seq<byte>, ghost rec: Record, ghost region: nat,
                        ghost before: seq<byte>, ghost at: nat, ghost done: nat)
      returns (r: Outcome<JournalError>)
      requires Attached() && flash.powered && region <= 1
      requires |before| == layout.regionSize && at + layout.RecordSize(|rec.data|) <= layout.regionSize
      requires done + |chunk| <= layout.PaddedSize(|rec.data|)
      requires chunk == Payload(layout, rec.data)[done..done + |chunk|]
      requires destination == layout.RegionStart(region) + at + layout.RecordHeaderSize() + done
      requires Whole(destination, layout.IoUnit()) && Whole(|chunk|, layout.IoUnit()) && ErasedFrom(before, at)
      requires Region(region) == Progress(layout, before, at, rec, done)
      modifies flash
      ensures Attached()
      ensures Region(Opposite(region)) == old(Region(Opposite(region)))
      ensures match r
              case Pass => flash.powered && Region(region) == Progress(layout, before, at, rec, done + |chunk|)
              case Fail(error) =>
                && error == Flash(Io) && RecordStopped(layout, Region(region), at, rec)
                && SameBut(before, Region(region), at, at + layout.RecordSize(|rec.data|))
      ensures flash.faults == old(flash.faults) + if r.Fail? && r.error.Flash? then 1 else 0
    {
      hide RecordHeader, Commit, Payload, Padded, Whole, Splice, Slice, Layout.IoUnit, AlignUp, PartOf;
      hide SameBut, ErasedBetween, ErasedFrom, RecordStopped, Progress;
      StillErased(layout, before, at, rec, done, done + |chunk|);
      r := ProgramArray(destination, chunk, region);
      if r.Fail? {
        StoppedInPayload(layout, before, at, rec, done, done + |chunk|, Region(region));
      } else {
        ProgressExtends(layout, before, at, rec, done, done + |chunk|);
      }
    }

    /** The chunk loop of a record. */
    method WritePayload(start: nat, rec: Record, ghost region: nat, ghost before: seq<byte>, ghost at: nat)
      returns (r: Outcome<JournalError>)
      requires Attached() && flash.powered && region <= 1
      requires |before| == layout.regionSize && at + layout.RecordSize(|rec.data|) <= layout.regionSize
      requires start == layout.RegionStart(region) + at + layout.RecordHeaderSize()
      requires Whole(start, layout.IoUnit()) && ErasedFrom(before, at)
      requires Region(region) == Progress(layout, before, at, rec, 0)
      modifies flash
      ensures Attached()
      ensures Region(Opposite(region)) == old(Region(Opposite(region)))
      ensures match r
              case Pass => flash.powered
                           && Region(region) == Progress(layout, before, at, rec, layout.PaddedSize(|rec.data|))
              case Fail(error) =>
                && error == Flash(Io) && RecordStopped(layout, Region(region), at, rec)
                && SameBut(before, Region(region), at, at + layout.RecordSize(|rec.data|))
      ensures flash.faults == old(flash.faults) + if r.Fail? && r.error.Flash? then 1 else 0
    {
      hide RecordHeader, Commit, Payload, Padded, Whole, Splice, Slice, Layout.IoUnit, AlignUp, PartOf;
      hide SameBut, ErasedBetween, ErasedFrom, RecordStopped, Progress, Layout.Valid, Layout.PaddedSize;
      hide Attached, Region, Layout.RecordHeaderSize, Layout.CommitSize, Layout.RegionStart;
      var unit := layout.IoUnit();
      var length := |rec.data|;
      WholeZero(unit);
      var remaining := length;
      var source := 0;
      var destination := start;
      ghost var done := 0;
      while remaining > 0
        invariant Attached() && flash.powered && flash.faults == old(flash.faults)
        invariant remaining + source == length
        invariant done <= layout.PaddedSize(length) && destination == start + done
        invariant remaining > 0 ==> source == done
        invariant source <= done
        invariant Whole(done, unit) && Whole(destination, unit)
        invariant Region(region) == Progress(layout, before, at, rec, done)
        invariant Region(Opposite(region)) == old(Region(Opposite(region)))
      {
        var copied := if remaining < unit then remaining else unit;
        var chunk := BuildChunk(rec.data, source, copied);
        NextChunk(layout, done, destination, length);
        ChunkOfPayload(layout, rec.data, done, copied);
        r := ProgramChunk(destination, chunk, rec, region, before, at, done);
        if r.Fail? {
          return;
        }
        source := source + copied;
        destination := destination + unit;
        remaining := remaining - copied;
        done := done + unit;
      }
      NoMoreChunks(layout, done, length);
      r := Pass;
    }

    // ----- the steps of a compaction, seen as changes of the whole state -----

    method EraseDestination(destination: nat) returns (r: Outcome<JournalError>)
      requires Placed() && flash.powered && destination == View().Destination()
      modifies flash
      ensures Placed() && View() == old(View()).(other := View().other)
      ensures r.Pass? ==> flash.powered && View().other == Filled(layout.regionSize, ERASED)
      ensures r.Fail? ==> r.error == Flash(EraseFailed)
                          && PartlyErased(old(View()).other, 0, layout.regionSize, layout.eraseSize, View().other)
                          && FromTheFront(old(View()).other, View().other)
      ensures flash.faults == old(flash.faults) + if r.Fail? && r.error.Flash? then 1 else 0
    {
      hide Slice, Splice, Filled, RegionHeader, Commit, Holds, PartOf, SameBut, ErasedBetween, ErasedFrom;
      hide AllErased, HoldsRecord, RecordStopped, HeaderDone, BeingBuilt, SnapshotDone, BeingCommitted;
      hide FullyBuilt, PartlyErased, Opposite, Whole, AlignUp, Crc32.Checksum, Layout.IoUnit, Layout.Valid;
      OppositeTwice(activeRegion);
      r := EraseRegion(destination);
    }

    method WriteDestinationHeader(destination: nat, nextGeneration: nat) returns (r: Outcome<JournalError>)
      requires Placed() && flash.powered && destination == View().Destination()
      requires View().other == Filled(layout.regionSize, ERASED) && nextGeneration == generation + 1
      modifies flash
      ensures Placed() && View() == old(View()).(other := View().other)
      ensures r.Pass? ==> flash.powered && HeaderDone(layout, old(View()), View().other)
      ensures r.Fail? ==> r.error == Flash(Io) && BeingBuilt(layout, old(View()), View().other)
      ensures flash.faults == old(flash.faults) + if r.Fail? && r.error.Flash? then 1 else 0
    {
      hide Slice, Splice, Filled, RegionHeader, Commit, Holds, PartOf, SameBut, ErasedBetween, ErasedFrom;
      hide AllErased, HoldsRecord, RecordStopped, HeaderDone, BeingBuilt, SnapshotDone, BeingCommitted;
      hide FullyBuilt, PartlyErased, Opposite, Whole, AlignUp, Crc32.Checksum, Layout.IoUnit, Layout.Valid;
      ghost var s := View();
      WriteFitsAfterSnapshot(layout, 0);
      AllOfIt(layout.regionSize, layout.RegionHeaderSize());
      OppositeTwice(activeRegion);
      r := WriteRegionHeader(destination, nextGeneration);
      if r.Fail? {
        HeaderStopped(layout, s, Region(destination));
      } else {
        HeaderInPlace(layout, s);
      }
    }

    method WriteSnapshot(destination: nat, snapshotSequence: nat) returns (r: Outcome<JournalError>)
      requires Placed() && flash.powered && destination == View().Destination()
      requires HeaderDone(layout, View(), View().other) && snapshotSequence == lastSequence + 1
      modifies flash
      ensures Placed() && View() == old(View()).(other := View().other)
      ensures r.Pass? ==> flash.powered && SnapshotDone(layout, old(View()), View().other)
      ensures r.Fail? ==> r.error == Flash(Io) && BeingBuilt(layout, old(View()), View().other)
      ensures flash.faults == old(flash.faults) + if r.Fail? && r.error.Flash? then 1 else 0
    {
      hide Slice, Splice, Filled, RegionHeader, Commit, Holds, PartOf, SameBut, ErasedBetween, ErasedFrom;
      hide AllErased, HoldsRecord, RecordStopped, HeaderDone, BeingBuilt, SnapshotDone, BeingCommitted;
      hide FullyBuilt, PartlyErased, Opposite, Whole, AlignUp, Crc32.Checksum, Layout.IoUnit, Layout.Valid;
      ghost var s := View();
      LayoutFacts(layout);
      WriteFitsAfterSnapshot(layout, 0);
      OppositeTwice(activeRegion);
      UnitsPositive(layout);
      RegionPlacement(layout, destination);
      WholeSum(layout.RegionStart(destination), layout.RecordArea(), layout.IoUnit());
      HeaderLeavesErased(layout, s, s.other);
      var snapshotOffset := layout.RegionStart(destination) + layout.RecordArea();
      r := WriteRecord(snapshotOffset, snapshotSequence, 0, mirror[..], destination);
      if r.Fail? {
        SnapshotStopped(layout, s, s.other, Region(destination));
      } else {
        SnapshotInPlace(layout, s, s.other, Region(destination));
      }
    }

    /** The marker goes out only when everything it vouches for is durable. */
    method CommitDestination(destination: nat, nextGeneration: nat) returns (r: Outcome<JournalError>)
      requires Placed() && flash.powered && destination == View().Destination()
      requires SnapshotDone(layout, View(), View().other) && nextGeneration == generation + 1 && !flash.dirty
      modifies flash
      ensures Placed() && View() == old(View()).(other := View().other)
      ensures r.Pass? ==> flash.powered && FullyBuilt(layout, old(View()), View().other)
      ensures BeingCommitted(layout, old(View()), View().other)
      ensures r.Fail? ==> r.error == Flash(Io)
      ensures flash.faults == old(flash.faults) + if r.Fail? && r.error.Flash? then 1 else 0
    {
      hide Slice, Splice, Filled, RegionHeader, Commit, Holds, PartOf, SameBut, ErasedBetween, ErasedFrom;
      hide AllErased, HoldsRecord, RecordStopped, HeaderDone, BeingBuilt, SnapshotDone, BeingCommitted;
      hide FullyBuilt, PartlyErased, Opposite, Whole, AlignUp, Crc32.Checksum, Layout.IoUnit, Layout.Valid;
      ghost var s := View();
      SnapshotDoneFacts(layout, s, s.other);
      OppositeTwice(activeRegion);
      r := WriteRegionCommit(destination, nextGeneration);
      if r.Fail? {
        CommitStopped(layout, s, s.other, Region(destination));
      } else {
        CommitInPlace(layout, s, s.other);
      }
    }

    /** The live fields move over; the old region is erased last, when the marker of the new one is durable. */
    method MoveTo(destination: nat) returns (r: Outcome<JournalError>)
      requires Placed() && flash.powered && destination == View().Destination()
      requires FullyBuilt(layout, View(), View().other) && !flash.dirty
      modifies this, flash
      ensures Placed() && log == old(log) && pending == old(pending) && held == old(held)
      ensures Switched(layout, old(View()), View())
      ensures r.Pass? ==> flash.powered && AllErased(View().other)
      ensures r.Fail? ==> r.error == Flash(EraseFailed)
                          && PartlyErased(old(View()).own, 0, layout.regionSize, layout.eraseSize, View().other)
      ensures flash.faults == old(flash.faults) + if r.Fail? && r.error.Flash? then 1 else 0
    {
      hide Slice, Splice, Filled, RegionHeader, Commit, Holds, PartOf, SameBut, ErasedBetween, ErasedFrom;
      hide AllErased, HoldsRecord, RecordStopped, HeaderDone, BeingBuilt, SnapshotDone, BeingCommitted;
      hide FullyBuilt, PartlyErased, Opposite, Whole, AlignUp, Crc32.Checksum, Layout.IoUnit, Layout.Valid;
      WriteFitsAfterSnapshot(layout, 0);
      AllFilledErased(layout.regionSize);
      OppositeTwice(activeRegion);
      var oldRegion := activeRegion;
      activeRegion := destination;
      generation := generation + 1;
      lastSequence := lastSequence + 1;
      appendOffset := layout.RegionStart(destination) + layout.RecordArea() + layout.RecordSize(layout.logicalCapacity);
      tailUnusable := false;
      r := EraseRegion(oldRegion);
    }

    // ----- compaction -----

    /**
      Build the other region, make it durable, commit it, make that durable; then
      move over and, last, erase the old region.
     */
    method Compact() returns (r: Outcome<JournalError>)
      requires Placed() && flash.powered && generation < U64_LIMIT && lastSequence < U64_LIMIT
      modifies this, flash
      ensures Placed() && log == old(log) && pending == old(pending) && held == old(held)
      ensures CompactRel(layout, old(View()), r, View())
      ensures StoppedInErase(layout, old(View()), View()) ==> FromTheFront(old(View()).other, View().other)
      ensures r.Pass? ==> flash.powered
      ensures r.Fail? && r.error.Flash? ==> r.error.cause == Io || r.error.cause == EraseFailed
      ensures flash.faults == old(flash.faults) + if r.Fail? && r.error.Flash? then 1 else 0
    {
      hide Slice, Splice, Filled, RegionHeader, Commit, Holds, PartOf, SameBut, ErasedBetween, ErasedFrom;
      hide AllErased, HoldsRecord, RecordStopped, HeaderDone, BeingBuilt, SnapshotDone, BeingCommitted;
      hide Layout.RecordSize, Layout.RecordArea, Suits, StoppedInErase, FromTheFront, FullyBuilt, PartlyErased;
      hide Placed, View, Attached, Opposite, Whole, AlignUp, Crc32.Checksum;
      hide Layout.IoUnit, Layout.Valid;
      if generation == U64_LIMIT - 1 || lastSequence == U64_LIMIT - 1 {
        BuiltIsNotErased(layout, View(), View());
        return Fail(NoSpace);
      }
      ghost var s := View();
      var destination := Opposite(activeRegion);
      var nextGeneration := generation + 1;
      var snapshotSequence := lastSequence + 1;

      r := EraseDestination(destination);
      if r.Fail? {
        return;
      }
      ghost var now := View();
      r := WriteDestinationHeader(destination, nextGeneration);
      SameBuild(layout, s, now, View().other);
      if r.Fail? {
        BuiltIsNotErased(layout, s, View());
        return;
      }
      SameBuild(layout, s, View(), View().other);
      now := View();
      r := WriteSnapshot(destination, snapshotSequence);
      SameBuild(layout, s, now, View().other);
      if r.Fail? {
        BuiltIsNotErased(layout, s, View());
        return;
      }
      SnapshotDoneFacts(layout, s, View().other);
      var synced := SyncFlash();
      if synced.Fail? {
        BuiltIsNotErased(layout, s, View());
        return synced;
      }
      SameBuild(layout, s, View(), View().other);
      now := View();
      r := CommitDestination(destination, nextGeneration);
      SameBuild(layout, s, now, View().other);
      if r.Fail? {
        BuiltIsNotErased(layout, s, View());
        return;
      }
      synced := SyncFlash();
      if synced.Fail? {
        BuiltIsNotErased(layout, s, View());
        return synced;
      }
      SameBuild(layout, s, View(), View().other);
      now := View();
      r := MoveTo(destination);
      SameBuild(layout, s, now, View().own);
      BuiltIsNotErased(layout, s, View());
    }

    // ----- reading and writing -----

    method CopyIn(offset: nat, data: seq<byte>)
      requires offset + |data| <= mirror.Length
      modifies mirror
      ensures mirror[..] == Put(old(mirror[..]), offset, data)
      ensures mirror[offset..offset + |data|] == data
      ensures forall i :: 0 <= i < mirror.Length && !(offset <= i < offset + |data|) ==> mirror[i] == old(mirror[i])
    {
      for index := 0 to |data|
        invariant forall i :: 0 <= i < mirror.Length ==>
                    mirror[i] == if offset <= i < offset + index then data[i - offset] else old(mirror[i])
      {
        mirror[offset + index] := data[index];
      }
    }

    /** The second half of a write: one more record, then the mirror and the live fields. */
    method AppendRecord(offset: nat, input: seq<byte>) returns (r: Outcome<JournalError>)
      requires Placed() && flash.powered && lastSequence < U64_LIMIT
      requires |input| > 0 && layout.RangeValid(offset, |input|)
      requires layout.RecordSize(|input|) <= layout.regionSize - View().append
      requires Whole(appendOffset, layout.IoUnit()) && ErasedFrom(View().own, View().append)
      modifies this, flash, mirror
      ensures Placed() && log == old(log) && pending == old(pending) && held == old(held)
      ensures AppendRel(layout, old(View()), offset, input, r, View())
      ensures r.Pass? ==> flash.powered
      ensures r.Fail? ==> r.error == NoSpace || r.error == Flash(Io)
      ensures flash.faults == old(flash.faults) + if r.Fail? && r.error.Flash? then 1 else 0
    {
      hide Slice, Splice, Filled, Put, SameBut, ErasedFrom, HoldsRecord, RecordStopped, Whole, AlignUp;
      hide Crc32.Checksum, Layout.IoUnit, Layout.Valid, Opposite;
      if lastSequence == U64_LIMIT - 1 {
        return Fail(NoSpace);
      }
      var sequence := lastSequence + 1;
      r := WriteRecord(appendOffset, sequence, offset, input, activeRegion);
      if r.Fail? {
        tailUnusable := true;
        return;
      }
      CopyIn(offset, input);
      appendOffset := appendOffset + layout.RecordSize(|input|);
      lastSequence := sequence;
    }

    /** What a write that has ended leaves to remember. */
    ghost method Remember(s: State, offset: nat, input: seq<byte>, r: Outcome<JournalError>)
      requires Placed() && Core(layout, s, log, pending) && WriteRel(layout, s, offset, input, r, View())
      requires StoppedInErase(layout, s, View()) ==> FromTheFront(s.other, View().other)
      modifies `log, `pending, `held
      ensures Consistent() && View() == old(View())
      ensures old(OtherInv(layout, s, held)) && HeaderInOneUnit(layout) ==> Valid()
    {
      hide Core, OtherInv, OtherIsOlder, Misread, WriteRel, Put, Suits, Slice, StoppedInErase, FromTheFront;
      ghost var t := View();
      FrontIsSound(layout, s, t);
      log, pending, held := WriteKeeps(layout, s, log, pending, held, offset, input, r, t);
    }

    /**
      One write, in the source's order of checks. Beside the relation between the
      states it keeps the invariant, whatever goes wrong: this flash erases from the
      front, so that nothing it leaves is ever misread. And no failure is ever the
      flash refusing a program, an alignment or a range.
     */
    method Write(offset: nat, input: seq<byte>) returns (r: Outcome<JournalError>)
      requires Consistent() && flash.powered
      modifies this, flash, mirror
      ensures Consistent()
      ensures WriteRel(layout, old(View()), offset, input, r, View())
      ensures StoppedInErase(layout, old(View()), View()) ==> FromTheFront(old(View()).other, View().other)
      ensures old(Valid()) && HeaderInOneUnit(layout) ==> Valid()
      ensures r.Pass? ==> flash.powered
      ensures r.Pass? ==>
                && offset + |input| <= mirror.Length && mirror[offset..offset + |input|] == input
                && forall i :: 0 <= i < mirror.Length && !(offset <= i < offset + |input|) ==>
                     mirror[i] == old(mirror[i])
      ensures r.Fail? ==> mirror[..] == old(mirror[..])
      ensures r == Fail(JournalError.OutOfRange) <==> offset + |input| > layout.logicalCapacity
      ensures r == Fail(TooLarge) <==> offset + |input| <= layout.logicalCapacity && |input| > layout.maxAtomicWrite
      ensures var compacts := old(tailUnusable) || old(View()).append + layout.RecordSize(|input|) > layout.regionSize;
              && (r == Fail(NoSpace) ==> NumbersUsedUp(old(View()), compacts))
              && (r.Pass? && |input| > 0 ==> generation == old(generation) + if compacts then 1 else 0)
      ensures r.Fail? ==> r.error in {JournalError.OutOfRange, TooLarge, NoSpace} || r.error.Flash?
      ensures r.Fail? && r.error.Flash? ==> r.error.cause == Io || r.error.cause == EraseFailed
      ensures flash.faults == old(flash.faults) + if r.Fail? && r.error.Flash? then 1 else 0
    {
      hide Core, Inspect, OtherInv, StoppedInErase, FromTheFront, AppendRel, CompactRel, WriteRel, Put, View, Layout.Valid, Layout.IoUnit;
      hide Whole, Attached, LogInv, TailInv, Shape, ErasedFrom, AlignUp, Crc32.Checksum, Slice, Opposite, OtherIsOlder;
      ghost var s := View();
      CoreLimits(layout, s, log, pending);
      RefusedWrite(layout, s, offset, input);
      BuiltIsNotErased(layout, s, s);
      if !layout.RangeValid(offset, |input|) {
        return Fail(JournalError.OutOfRange);
      }
      if |input| > layout.maxAtomicWrite {
        return Fail(TooLarge);
      }
      if |input| == 0 {
        return Pass;
      }
      ghost var mid, recs := s, log;
      var required := layout.RecordSize(|input|);
      if tailUnusable || required > layout.RegionStart(activeRegion) + layout.regionSize - appendOffset {
        r := Compact();
        if r.Fail? {
          StoppedBeforeAppend(layout, s, offset, input, r, View());
          WriteComesTo(layout, s, log, pending, offset, input, r, View());
          Remember(s, offset, input, r);
          return;
        }
        mid := View();
        ghost var none, noneHeld;
        recs, none, noneHeld := CompactKeeps(layout, s, recs, pending, held, Pass, mid);
        WriteFitsAfterSnapshot(layout, |input|);
        CoreLimits(layout, mid, recs, None);
      } else {
        UsableHasNoPending(layout, s, log, pending);
      }
      ReadyToAppend(layout, mid, recs);
      r := AppendRecord(offset, input);
      WrittenThrough(layout, s, offset, input, mid, r, View());
      WrittenIsNotErased(layout, s, offset, input, mid, r, View());
      WriteComesTo(layout, s, log, pending, offset, input, r, View());
      Remember(s, offset, input, r);
    }

    // ----- checking what was read -----

    method AllBytesErased(data: seq<byte>) returns (erased: bool)
      ensures erased == AllErased(data)
    {
      for index := 0 to |data|
        invariant AllErased(data[..index])
      {
        if data[index] != ERASED {
          return false;
        }
      }
      return true;
    }

    method CheckSeal(data: seq<byte>, bodySize: nat) returns (ok: bool)
      requires bodySize + 4 <= |data|
      ensures ok == SealValid(data, bodySize)
    {
      var stored := GetField(data, bodySize, 4);
      var computed := Crc32.Compute(data[..bodySize]);
      ok := stored == computed;
    }

    method CheckRegionHeader(header: seq<byte>) returns (ok: bool, found: nat)
      requires |header| >= 36
      ensures ok == RegionHeaderValid(layout, header) && found == Field(header, 8, 8)
    {
      hide SealValid, FromLittleEndian;
      var magic := GetField(header, 0, 4);
      var version := GetField(header, 4, 2);
      found := GetField(header, 8, 8);
      var capacity := GetField(header, 16, 8);
      var atomic := GetField(header, 24, 8);
      if magic != REGION_MAGIC || version != FORMAT_VERSION || found == 0
         || capacity != layout.logicalCapacity || atomic != layout.maxAtomicWrite {
        return false, found;
      }
      ok := CheckSeal(header, 32);
    }

    method CheckCommit(commit: seq<byte>, magic: nat, number: nat) returns (ok: bool)
      requires |commit| >= 16
      ensures ok == CommitValid(commit, magic, number)
    {
      hide SealValid, FromLittleEndian;
      var foundMagic := GetField(commit, 0, 4);
      var foundNumber := GetField(commit, 4, 8);
      if foundMagic != magic || foundNumber != number {
        return false;
      }
      ok := CheckSeal(commit, 12);
    }

    method CheckRecordHeader(header: seq<byte>) returns (ok: bool)
      requires |header| >= 40
      ensures ok == RecordHeaderValid(header)
    {
      hide SealValid, FromLittleEndian;
      var magic := GetField(header, 0, 4);
      var version := GetField(header, 4, 2);
      if magic != RECORD_MAGIC || version != FORMAT_VERSION {
        return false;
      }
      ok := CheckSeal(header, 36);
    }

    /** The checks on a record header, in the source's order. */
    method CheckClaim(header: seq<byte>, room: nat, last: nat, loaded: bool) returns (claim: Claim)
      requires layout.Valid() && |header| >= 40
      ensures claim == ReadHeader(layout, header, room, last, loaded)
    {
      hide RecordHeaderValid, AllErased, FromLittleEndian, Layout.Valid, Layout.RecordSize;
      UnitsPositive(layout);
      var erased := AllBytesErased(header);
      if erased {
        return NoHeader;
      }
      var valid := CheckRecordHeader(header);
      if !valid {
        return BadHeader;
      }
      var sequence := GetField(header, 8, 8);
      var logicalOffset := GetField(header, 16, 8);
      var length := GetField(header, 24, 8);
      if logicalOffset > layout.logicalCapacity || length == 0
         || length > layout.logicalCapacity - logicalOffset || sequence <= last {
        return BadHeader;
      }
      if !loaded && (logicalOffset != 0 || length != layout.logicalCapacity) {
        return NotTheSnapshot;
      }
      if layout.RecordSize(length) > room {
        return BadHeader;
      }
      var checksum := GetField(header, 32, 4);
      return Claim(sequence, logicalOffset, length, checksum);
    }

    // ----- mounting -----

    method RegionIsErased(region: nat) returns (r: Result<bool, JournalError>)
      requires Attached() && flash.powered && region <= 1
      modifies flash`powered, flash`faults
      ensures r.Success? ==> flash.powered && r.value == AllErased(Region(region))
      ensures r.Failure? ==> r.error == Flash(Io)
      ensures flash.faults == old(flash.faults) + if r.Failure? then 1 else 0
    {
      hide Whole, Attached, Region, Layout.Valid, Layout.IoUnit, Layout.RegionStart, AllErased;
      var start, unit := layout.RegionStart(region), layout.IoUnit();
      var end := start + layout.regionSize;
      RegionPlacement(layout, region);
      WholeUnit(unit);
      RegionEndWhole(layout, region);
      EndsOfPrefix(Region(region));
      var offset := start;
      while offset < end
        invariant flash.powered && flash.faults == old(flash.faults)
        invariant start <= offset <= end && Whole(offset, unit)
        invariant AllErased(Region(region)[..offset - start])
      {
        UnitFits(offset, end, unit);
        var read := ReadArray(offset, unit, region);
        if read.Failure? {
          return Failure(read.error);
        }
        var erased := AllBytesErased(read.value);
        ErasedChunk(Region(region), offset - start, unit);
        if !erased {
          return Success(false);
        }
        offset := offset + unit;
      }
      return Success(true);
    }

    method InspectRegion(region: nat) returns (r: Result<RegionInfo, JournalError>)
      requires Attached() && flash.powered && region <= 1
      modifies flash`powered, flash`faults
      ensures r.Success? ==> flash.powered && r.value == InfoOf(layout, Region(region))
      ensures r.Failure? ==> r.error == Flash(Io)
      ensures flash.faults == old(flash.faults) + if r.Failure? then 1 else 0
    {
      hide Whole, Attached, Region, Layout.Valid, Layout.IoUnit, Layout.RegionStart, AllErased, AlignUp;
      hide RegionHeaderValid, CommitValid, FromLittleEndian;
      var start := layout.RegionStart(region);
      RegionPlacement(layout, region);
      LayoutFacts(layout);
      WriteFitsAfterSnapshot(layout, 0);
      WholeSum(start, layout.RegionHeaderSize(), layout.IoUnit());
      var headerRead := ReadArray(start, layout.RegionHeaderSize(), region);
      if headerRead.Failure? {
        return Failure(headerRead.error);
      }
      var commitRead := ReadArray(start + layout.RegionHeaderSize(), layout.CommitSize(), region);
      if commitRead.Failure? {
        return Failure(commitRead.error);
      }
      assert headerRead.value == Region(region)[..layout.RegionHeaderSize()];
      assert commitRead.value == Region(region)[layout.RegionHeaderSize()..layout.RecordArea()];
      var bodyValid, generation := CheckRegionHeader(headerRead.value);
      if bodyValid {
        var committed := CheckCommit(commitRead.value, REGION_COMMIT_MAGIC, generation);
        if committed {
          return Success(RegionInfo(true, false, generation));
        }
      }
      var erased := RegionIsErased(region);
      match erased
      case Success(value) => return Success(RegionInfo(false, value, 0));
      case Failure(error) => return Failure(error);
    }

    /** The checksum of a payload taken chunk by chunk is the checksum of the whole. */
    method CrcPayload(flashOffset: nat, length: nat, ghost region: nat) returns (r: Result<nat, JournalError>)
      requires Attached() && flash.powered && region <= 1
      requires layout.RegionStart(region) <= flashOffset && Whole(flashOffset, layout.IoUnit())
      requires flashOffset + layout.PaddedSize(length) <= layout.RegionStart(region) + layout.regionSize
      modifies flash`powered, flash`faults
      ensures r.Success? ==>
                flash.powered
                && r.value == Crc32.Checksum(Region(region)[flashOffset - layout.RegionStart(region)..][..length])
      ensures r.Failure? ==> r.error == Flash(Io)
      ensures flash.faults == old(flash.faults) + if r.Failure? then 1 else 0
    {
      hide Whole, Attached, Region, Layout.Valid, Layout.IoUnit, Layout.PaddedSize, Crc32.Update, Crc32.Finish;
      var unit := layout.IoUnit();
      ghost var at := flashOffset - layout.RegionStart(region);
      ghost var payload := Region(region)[at..][..length];
      WholeZero(unit);
      var state: bv32 := 0xFFFFFFFF;
      var remaining := length;
      var offset := flashOffset;
      ghost var done := 0;
      assert Crc32.Update(0xFFFFFFFF, payload[..0]) == state by { StartOfFold(payload); }
      while remaining > 0
        invariant flash.powered && flash.faults == old(flash.faults)
        invariant done <= layout.PaddedSize(length) && offset == flashOffset + done
        invariant remaining == if done < length then length - done else 0
        invariant Whole(done, unit) && Whole(offset, unit)
        invariant state == Crc32.Update(0xFFFFFFFF, payload[..length - remaining])
      {
        NextChunk(layout, done, offset, length);
        var read := ReadArray(offset, unit, region);
        if read.Failure? {
          return Failure(read.error);
        }
        var consumed := if remaining < unit then remaining else unit;
        state := Crc32.Fold(state, read.value[..consumed]);
        FoldExtends(Region(region), at, length, done, unit, consumed);
        offset := offset + unit;
        remaining := remaining - consumed;
        done := done + unit;
      }
      assert payload[..length] == payload;
      return Success(Crc32.Finish(state));
    }

    /** The payload of a sound record, copied into the mirror chunk by chunk. */
    method ApplyPayload(flashOffset: nat, logicalOffset: nat, length: nat, ghost region: nat)
      returns (r: Outcome<JournalError>)
      requires Attached() && flash.powered && region <= 1 && layout.RangeValid(logicalOffset, length)
      requires layout.RegionStart(region) <= flashOffset && Whole(flashOffset, layout.IoUnit())
      requires flashOffset + layout.PaddedSize(length) <= layout.RegionStart(region) + layout.regionSize
      modifies mirror, flash`powered, flash`faults
      ensures r.Pass? ==>
                flash.powered
                && mirror[..] == Put(old(mirror[..]), logicalOffset,
                                     Region(region)[flashOffset - layout.RegionStart(region)..][..length])
      ensures r.Pass? ==>
                && mirror[logicalOffset..logicalOffset + length]
                   == Region(region)[flashOffset - layout.RegionStart(region)..][..length]
                && forall i :: 0 <= i < mirror.Length && !(logicalOffset <= i < logicalOffset + length) ==>
                     mirror[i] == old(mirror[i])
      ensures r.Fail? ==> r.error == Flash(Io)
      ensures flash.faults == old(flash.faults) + if r.Fail? && r.error.Flash? then 1 else 0
    {
      hide Whole, Region, Layout.Valid, Layout.IoUnit, Layout.PaddedSize, Splice, AlignUp, Suits, Attached;
      hide Crc32.Checksum;
      var unit := layout.IoUnit();
      ghost var at := flashOffset - layout.RegionStart(region);
      ghost var payload := Region(region)[at..][..length];
      WholeZero(unit);
      var remaining := length;
      var source := flashOffset;
      var destination := logicalOffset;
      ghost var done := 0;
      while remaining > 0
        invariant flash.powered && flash.faults == old(flash.faults)
        invariant done <= layout.PaddedSize(length) && source == flashOffset + done
        invariant remaining == if done < length then length - done else 0
        invariant destination == logicalOffset + (length - remaining)
        invariant Whole(done, unit) && Whole(source, unit)
        invariant mirror[..] == Splice(old(mirror[..]), logicalOffset, payload[..length - remaining])
      {
        NextChunk(layout, done, source, length);
        var read := ReadArray(source, unit, region);
        if read.Failure? {
          return Fail(read.error);
        }
        var copied := if remaining < unit then remaining else unit;
        ChunkOfRange(Region(region), at, length, done, unit, copied);
        CopyIn(destination, read.value[..copied]);
        SpliceExtends(old(mirror[..]), logicalOffset, payload, done, done + copied);
        source := source + unit;
        destination := destination + copied;
        remaining := remaining - copied;
        done := done + unit;
      }
      assert payload[..length] == payload;
      PutAt(old(mirror[..]), logicalOffset, payload);
      r := Pass;
    }

    /** The end of a scan: the live fields are what loading the region gives. */
    method FinishRecoveredTail(prefixValid: bool, unusable: bool) returns (r: Outcome<JournalError>)
      requires Attached() && activeRegion <= 1
      requires 0 <= appendOffset - layout.RegionStart(activeRegion) <= layout.regionSize
      requires LoadsTo(FinishTail(prefixValid, mirror[..], lastSequence,
                                  appendOffset - layout.RegionStart(activeRegion), unusable))
      modifies `tailUnusable
      ensures Attached() && r == (if prefixValid then Pass else Fail(Corrupted))
      ensures if prefixValid then Placed() && LoadsTo(Live()) else LoadsTo(Corrupt)
    {
      hide Suits, Layout.RegionStart;
      tailUnusable := unusable;
      r := if prefixValid then Pass else Fail(Corrupted);
    }

    method FillErased()
      modifies mirror
      ensures mirror[..] == Filled(mirror.Length, ERASED)
    {
      for index := 0 to mirror.Length
        invariant forall i :: 0 <= i < index ==> mirror[i] == ERASED
      {
        mirror[index] := ERASED;
      }
    }

    /** The commit marker and the payload of one record: apply it, or find it wanting. */
    method LoadRecord(ghost claim: Claim, sequence: nat, logicalOffset: nat, length: nat, checksum: nat)
      returns (r: Result<bool, JournalError>)
      requires Attached() && flash.powered && activeRegion <= 1
      requires claim == Claim(sequence, logicalOffset, length, checksum) && layout.RangeValid(logicalOffset, length)
      requires layout.RegionStart(activeRegion) <= appendOffset && Whole(appendOffset, layout.IoUnit())
      requires appendOffset + layout.RecordSize(length) <= layout.RegionStart(activeRegion) + layout.regionSize
      modifies mirror, flash`powered, flash`faults, `lastSequence, `appendOffset
      ensures r.Success? ==> flash.powered
      ensures var at := old(appendOffset) - layout.RegionStart(activeRegion);
              var body := ReadBody(layout, Region(activeRegion), at, claim);
              match r
              case Success(true) =>
                && body.Found? && mirror[..] == Put(old(mirror[..]), logicalOffset, body.rec.data)
                && lastSequence == sequence && appendOffset == old(appendOffset) + layout.RecordSize(length)
              case Success(false) =>
                && body == Dead && mirror[..] == old(mirror[..])
                && lastSequence == old(lastSequence) && appendOffset == old(appendOffset)
              case Failure(error) => error == Flash(Io)
      ensures flash.faults == old(flash.faults) + if r.Failure? then 1 else 0
    {
      hide Whole, Region, Attached, Layout.Valid, Layout.IoUnit, Layout.PaddedSize, Layout.RegionStart, AlignUp;
      hide Crc32.Checksum, ReadBody, CommitValid, Put, Layout.RecordHeaderSize, Layout.CommitSize;
      var payloadOffset := appendOffset + layout.RecordHeaderSize();
      var commitOffset := payloadOffset + layout.PaddedSize(length);
      RecordPlaces(layout, appendOffset, length);
      BodyOutcome(layout, Region(activeRegion), appendOffset - layout.RegionStart(activeRegion), claim);
      var commit := ReadArray(commitOffset, layout.CommitSize(), activeRegion);
      if commit.Failure? {
        return Failure(commit.error);
      }
      var committed := CheckCommit(commit.value, RECORD_COMMIT_MAGIC, sequence);
      if !committed {
        return Success(false);
      }
      var payloadChecksum := CrcPayload(payloadOffset, length, activeRegion);
      if payloadChecksum.Failure? {
        return Failure(payloadChecksum.error);
      }
      if payloadChecksum.value != checksum {
        return Success(false);
      }
      var applied := ApplyPayload(payloadOffset, logicalOffset, length, activeRegion);
      if applied.Fail? {
        return Failure(applied.error);
      }
      lastSequence := sequence;
      appendOffset := appendOffset + layout.RecordSize(length);
      return Success(true);
    }

    /** One more record of the scan, or its end. */
    method LoadNext(ghost claim: Claim, sequence: nat, logicalOffset: nat, length: nat, checksum: nat,
                    ghost prefixValid: bool, ghost target: Load)
      returns (r: Result<bool, JournalError>)
      requires Attached() && flash.powered && activeRegion <= 1
      requires claim == Claim(sequence, logicalOffset, length, checksum) && layout.RangeValid(logicalOffset, length)
      requires layout.RegionStart(activeRegion) <= appendOffset && Whole(appendOffset, layout.IoUnit())
      requires appendOffset + layout.RecordSize(length) <= layout.RegionStart(activeRegion) + layout.regionSize
      requires var at := appendOffset - layout.RegionStart(activeRegion);
               match ReadBody(layout, Region(activeRegion), at, claim)
               case Found(rec) =>
                 Scan(layout, Region(activeRegion), at + layout.RecordSize(length), sequence, true,
                      Put(mirror[..], logicalOffset, rec.data)) == target
               case _ => FinishTail(prefixValid, mirror[..], lastSequence, at, true) == target
      modifies mirror, flash`powered, flash`faults, `lastSequence, `appendOffset
      ensures r.Success? ==> flash.powered
      ensures r.Failure? ==> r.error == Flash(Io)
      ensures r == Success(true) ==>
                && appendOffset == old(appendOffset) + layout.RecordSize(length)
                && Whole(appendOffset, layout.IoUnit())
                && Scan(layout, Region(activeRegion), appendOffset - layout.RegionStart(activeRegion), lastSequence,
                        true, mirror[..]) == target
      ensures r == Success(false) ==>
                && appendOffset == old(appendOffset)
                && FinishTail(prefixValid, mirror[..], lastSequence,
                              appendOffset - layout.RegionStart(activeRegion), true) == target
      ensures flash.faults == old(flash.faults) + if r.Failure? then 1 else 0
    {
      hide Whole, Region, Attached, Layout.Valid, Layout.IoUnit, Layout.PaddedSize, Layout.RegionStart, AlignUp;
      hide Crc32.Checksum, ReadBody, Put, Scan, FinishTail, Layout.RecordHeaderSize, Layout.CommitSize;
      RecordPlaces(layout, appendOffset, length);
      r := LoadRecord(claim, sequence, logicalOffset, length, checksum);
    }

    /** Nothing has been read yet. */
    method BeginScan() returns (snapshotLoaded: bool)
      requires Attached() && activeRegion <= 1
      modifies `lastSequence, `appendOffset, `tailUnusable, mirror
      ensures layout.RecordArea() <= layout.regionSize && lastSequence == 0
      ensures appendOffset == layout.RegionStart(activeRegion) + layout.RecordArea()
      ensures Whole(appendOffset, layout.IoUnit()) && Whole(layout.RecordHeaderSize(), layout.IoUnit())
      ensures LoadsTo(Scan(layout, Region(activeRegion), layout.RecordArea(), 0, snapshotLoaded, mirror[..]))
    {
      hide Whole, Region, Layout.Valid, Layout.IoUnit, AlignUp, Scan, Suits;
      FillErased();
      lastSequence := 0;
      RecordsBegin(layout, activeRegion);
      appendOffset := layout.RegionStart(activeRegion) + layout.RecordArea();
      tailUnusable := false;
      snapshotLoaded := generation == 1;
    }

    /** The scan of the active region, record by record. */
    method LoadActiveRegion() returns (r: Outcome<JournalError>)
      requires Attached() && flash.powered && activeRegion <= 1
      modifies `lastSequence, `appendOffset, `tailUnusable, mirror, flash`powered, flash`faults
      ensures Attached()
      ensures r.Pass? ==> flash.powered && Placed() && LoadsTo(Live())
      ensures r == Fail(Corrupted) ==> flash.powered && LoadsTo(Corrupt)
      ensures r.Fail? ==> r.error == Corrupted || r.error == Flash(Io)
      ensures flash.faults == old(flash.faults) + if r.Fail? && r.error.Flash? then 1 else 0
    {
      hide Whole, Region, Attached, Layout.Valid, Layout.IoUnit, Layout.PaddedSize, Layout.RegionStart, AlignUp;
      hide Crc32.Checksum, Scan, Probe, ReadHeader, ReadBody, Put, Layout.RecordHeaderSize, Layout.CommitSize;
      hide Filled, Suits, FinishTail, Layout.RecordSize, Layout.RecordArea, LoadRegion;
      var start := layout.RegionStart(activeRegion);
      var snapshotLoaded := BeginScan();
      var end := start + layout.regionSize;
      ghost var region := Region(activeRegion);
      ghost var target := LoadRegion(layout, region, generation);
      while appendOffset + layout.RecordHeaderSize() + layout.CommitSize() <= end
        invariant Attached() && flash.powered && flash.faults == old(flash.faults) && Region(activeRegion) == region
        invariant start <= appendOffset <= end && Whole(appendOffset, layout.IoUnit())
        invariant Scan(layout, region, appendOffset - start, lastSequence, snapshotLoaded, mirror[..]) == target
        decreases end - appendOffset
      {
        ghost var at := appendOffset - start;
        ScanAt(layout, region, at, lastSequence, snapshotLoaded, mirror[..]);
        var header := ReadArray(appendOffset, layout.RecordHeaderSize(), activeRegion);
        if header.Failure? {
          return Fail(header.error);
        }
        var claim := CheckClaim(header.value, end - appendOffset, lastSequence, snapshotLoaded);
        match claim
        case NoHeader =>
          r := FinishRecoveredTail(snapshotLoaded, false);
          return;
        case BadHeader =>
          r := FinishRecoveredTail(snapshotLoaded, true);
          return;
        case NotTheSnapshot =>
          return Fail(Corrupted);
        case Claim(sequence, logicalOffset, length, checksum) =>
          var loaded := LoadNext(claim, sequence, logicalOffset, length, checksum, snapshotLoaded, target);
          if loaded.Failure? {
            return Fail(loaded.error);
          }
          if !loaded.value {
            r := FinishRecoveredTail(snapshotLoaded, true);
            return;
          }
          snapshotLoaded := true;
      }
      ScanAt(layout, region, appendOffset - start, lastSequence, snapshotLoaded, mirror[..]);
      r := FinishRecoveredTail(snapshotLoaded, true);
    }

    /** First provisioning: both regions erased, the first one committed with generation 1. */
    method FormatStorage() returns (r: Outcome<JournalError>)
      requires Attached() && flash.powered
      modifies this, mirror, flash
      ensures Attached()
      ensures r.Pass? ==> flash.powered && Placed() && View() == Fresh(layout)
      ensures r.Pass? ==> generation == 1 && activeRegion == 0 && lastSequence == 0 && AllErased(mirror[..]) && !flash.dirty
      ensures r.Fail? ==> r.error == Flash(Io) || r.error == Flash(EraseFailed)
      ensures flash.faults == old(flash.faults) + if r.Fail? && r.error.Flash? then 1 else 0
    {
      hide Splice, Slice, Filled, RegionHeader, Commit, Layout.Valid, Layout.IoUnit, AlignUp, ErasedBetween, PartlyErased;
      hide Whole, PartOf, SameBut, Layout.CommitSize, Layout.RegionHeaderSize, Crc32.Checksum;
      FormatFacts(layout);
      r := EraseRegion(0);
      if r.Fail? {
        return;
      }
      r := EraseRegion(1);
      if r.Fail? {
        return;
      }
      FillErased();
      activeRegion, generation, lastSequence := 0, 1, 0;
      appendOffset := layout.RegionStart(0) + layout.RecordArea();
      tailUnusable := false;
      r := WriteRegionHeader(0, generation);
      if r.Fail? {
        return;
      }
      r := WriteRegionCommit(0, generation);
      if r.Fail? {
        return;
      }
      r := SyncFlash();
    }

    /** Mounting: exactly what `Mount` says of the two regions, unless a read fails. */
    method MountExisting() returns (r: Outcome<JournalError>)
      requires Attached() && flash.powered
      modifies this, mirror, flash
      ensures Attached()
      ensures r.Pass? ==> flash.powered && Placed()
      ensures match JournalState.Mount(layout, old(Region(0)), old(Region(1)))
              case Mounted(t) =>
                && flash.cells == old(flash.cells)
                && (r.Pass? ==> View() == t) && (r.Fail? ==> r.error == Flash(Io))
              case Unrecovered =>
                && flash.cells == old(flash.cells)
                && (r == Fail(Corrupted) || r == Fail(Flash(Io)))
              case Unformatted =>
                && (r.Pass? ==> View() == Fresh(layout))
                && (r.Fail? ==> r.error == Flash(Io) || r.error == Flash(EraseFailed))
      ensures old(AllErased(Region(0)) && AllErased(Region(1))) ==>
                if r.Pass? then View() == Fresh(layout) else r.error.Flash?
      ensures flash.faults == old(flash.faults) + if r.Fail? && r.error.Flash? then 1 else 0
    {
      hide Slice, Layout.Valid, Layout.RegionStart, LoadRegion, Inspect, Fresh, AllErased, Suits, Attached;
      UnformattedIff(layout, Region(0), Region(1));
      var first := InspectRegion(0);
      if first.Failure? {
        return Fail(first.error);
      }
      var second := InspectRegion(1);
      if second.Failure? {
        return Fail(second.error);
      }
      var a, b := first.value, second.value;
      if !a.valid && !b.valid {
        if a.erased && b.erased {
          r := FormatStorage();
          return;
        }
        return Fail(Corrupted);
      }
      if a.valid && b.valid && a.generation == b.generation {
        return Fail(Corrupted);
      }
      var secondIsNewer := b.valid && (!a.valid || b.generation > a.generation);
      activeRegion := if secondIsNewer then 1 else 0;
      generation := if secondIsNewer then b.generation else a.generation;
      r := LoadActiveRegion();
      if r != Fail(Corrupted) {
        return;
      }
      var alternateValid := if secondIsNewer then a.valid else b.valid;
      if !alternateValid {
        return;
      }
      activeRegion := if secondIsNewer then 0 else 1;
      generation := if secondIsNewer then a.generation else b.generation;
      r := LoadActiveRegion();
    }

    /** Reading is reading the mirror. */
    method Read(offset: nat, output: array<byte>) returns (r: Outcome<JournalError>)
      requires output != mirror && mirror.Length == layout.logicalCapacity
      modifies output
      ensures offset + output.Length <= mirror.Length ==>
                r == Pass && output[..] == mirror[offset..offset + output.Length]
      ensures offset + output.Length > mirror.Length ==>
                r == Fail(JournalError.OutOfRange) && output[..] == old(output[..])
    {
      if !layout.RangeValid(offset, output.Length) {
        return Fail(JournalError.OutOfRange);
      }
      for index := 0 to output.Length
        invariant forall i :: 0 <= i < index ==> output[i] == mirror[offset + i]
      {
        output[index] := mirror[offset + index];
      }
      r := Pass;
    }

    /**
      Mounting as the caller sees it. If some log explains the mounted state, as it
      does after every run of the journal, the object is valid from the start.
     */
    static method Mount(layout: Layout, flash: FileNorFlash, mirror: array<byte>)
      returns (r: Result<JournalMemory, JournalError>)
      requires Suits(layout, flash) && flash.powered
      modifies mirror, flash
      ensures r.Success? ==>
                && fresh(r.value) && r.value.layout == layout && r.value.flash == flash && r.value.mirror == mirror
                && mirror.Length == layout.logicalCapacity
                && flash.powered && r.value.Placed() && (r.value.Explained() ==> r.value.Valid())
      ensures mirror.Length != layout.logicalCapacity ==> r == Failure(BadArgument) && flash.cells == old(flash.cells)
      ensures mirror.Length == layout.logicalCapacity ==>
                match JournalState.Mount(layout, Slice(layout, old(flash.cells), 0), Slice(layout, old(flash.cells), 1))
                case Mounted(t) =>
                  && flash.cells == old(flash.cells)
                  && (r.Success? ==> r.value.View() == t) && (r.Failure? ==> r.error == Flash(Io))
                case Unrecovered =>
                  && flash.cells == old(flash.cells)
                  && (r == Failure(Corrupted) || r == Failure(Flash(Io)))
                case Unformatted =>
                  && (r.Success? ==> r.value.View() == Fresh(layout))
                  && (r.Failure? ==> r.error == Flash(Io) || r.error == Flash(EraseFailed))
      ensures var a, b := Slice(layout, old(flash.cells), 0), Slice(layout, old(flash.cells), 1);
              mirror.Length == layout.logicalCapacity ==>
                && (AllErased(a) && AllErased(b) ==> if r.Success? then r.value.View() == Fresh(layout) else r.error.Flash?)
                && (r == Failure(Corrupted) ==>
                      && flash.cells == old(flash.cells) && !(AllErased(a) && AllErased(b))
                      && (|| (exists g: nat :: Marked(layout, a, g) && Marked(layout, b, g))
                          || forall g: nat :: !Usable(layout, a, g) && !Usable(layout, b, g)))
      ensures flash.faults == old(flash.faults) + if r.Failure? && r.error.Flash? then 1 else 0
    {
      hide Slice, Layout.Valid, Layout.RegionStart, JournalState.Mount, Inv, Fresh, AllErased, Marked, Usable;
      if mirror.Length != layout.logicalCapacity {
        return Failure(BadArgument);
      }
      UnformattedIff(layout, Slice(layout, flash.cells, 0), Slice(layout, flash.cells, 1));
      UnrecoveredIff(layout, Slice(layout, flash.cells, 0), Slice(layout, flash.cells, 1));
      var memory := new JournalMemory.Attach(layout, flash, mirror);
      var mounted := memory.MountExisting();
      match mounted
      case Pass =>
        memory.Adopt();
        return Success(memory);
      case Fail(error) =>
        return Failure(error);
    }

    /** Destructive provisioning. */
    static method Format(layout: Layout, flash: FileNorFlash, mirror: array<byte>)
      returns (r: Result<JournalMemory, JournalError>)
      requires Suits(layout, flash) && flash.powered
      modifies mirror, flash
      ensures mirror.Length != layout.logicalCapacity ==> r == Failure(BadArgument) && flash.cells == old(flash.cells)
      ensures mirror.Length == layout.logicalCapacity && r.Failure? ==>
                r.error == Flash(Io) || r.error == Flash(EraseFailed)
      ensures r.Success? ==>
                && fresh(r.value) && r.value.layout == layout && r.value.flash == flash && r.value.mirror == mirror
                && flash.powered && r.value.Valid() && r.value.View() == Fresh(layout)
                && r.value.generation == 1 && r.value.activeRegion == 0 && r.value.lastSequence == 0
                && AllErased(mirror[..])
      ensures flash.faults == old(flash.faults) + if r.Failure? && r.error.Flash? then 1 else 0
    {
      hide Slice, Layout.Valid, Layout.RegionStart, JournalState.Mount, Inv, Fresh;
      if mirror.Length != layout.logicalCapacity {
        return Failure(BadArgument);
      }
      var memory := new JournalMemory.Attach(layout, flash, mirror);
      var formatted := memory.FormatStorage();
      match formatted
      case Pass =>
        FreshInv(layout);
        memory.Adopt();
        return Success(memory);
      case Fail(error) =>
        return Failure(error);
    }

    /** Some log explains the state, with no failed write outstanding. */
    ghost predicate Explained()
      requires Placed()
      reads `generation, `lastSequence, `appendOffset, `activeRegion, `tailUnusable, flash`cells, mirror
    {
      exists recs :: Inv(layout, View(), recs, None, None)
    }

    /** Remembers that log. */
    ghost method Adopt()
      requires Placed()
      modifies `log, `pending, `held
      ensures Placed() && View() == old(View())
      ensures Explained() ==> Valid()
    {
      hide Inv;
      if Explained() {
        ghost var recs :| Inv(layout, View(), recs, None, None);
        log, pending, held := recs, None, None;
      }
    }

    method Sync() returns (r: Outcome<JournalError>)
      requires Valid() && flash.powered
      modifies flash`powered, flash`faults, flash`dirty
      ensures Valid() && View() == old(View())
      ensures r.Pass? ==> flash.powered && !flash.dirty
      ensures r.Fail? ==> r.error == Flash(Io)
      ensures flash.faults == old(flash.faults) + if r.Fail? && r.error.Flash? then 1 else 0
    {
      hide Inv, Suits, Layout.Valid, AlignUp, Layout.IoUnit;
      r := SyncFlash();
    }
  }
}
