/**
  What recovery makes of the bytes it finds: the scan of one region as a
  function of that region's contents, whatever they are, and what the scan
  returns for the contents the journal can leave behind.
 */
module JournalRecovery {
  import opened Bytes
  import opened Wrappers
  import opened NorFlash
  import opened JournalLayout
  import opened JournalFormat
  import opened CrcBursts
  import Crc32

  /** `image` after a write of `data` at `offset`. */
  function Put(image: seq<byte>, offset: nat, data: seq<byte>): (r: seq<byte>)
    ensures |r| == |image|
  {
    if offset + |data| <= |image| then Splice(image, offset, data) else image
  }

  // ---------- the scan ----------

  /** What a record header claims, if it can be believed so far. */
  datatype Claim = NoHeader | BadHeader | NotTheSnapshot
                 | Claim(sequence: nat, offset: nat, length: nat, checksum: nat)

  /** The checks on a header, in order; `room` is what is left of the region. */
  function ReadHeader(l: Layout, header: seq<byte>, room: nat, last: nat, loaded: bool): (c: Claim)
    requires l.Valid() && |header| >= 40
    ensures c.Claim? ==> c.length > 0 && l.RangeValid(c.offset, c.length) && c.sequence > last
    ensures c.Claim? ==> l.RecordSize(c.length) <= room
    ensures c.Claim? && !loaded ==> c.offset == 0 && c.length == l.logicalCapacity
  {
    if AllErased(header) then NoHeader
    else if !RecordHeaderValid(header) then BadHeader
    else
      var sequence, offset, length := Field(header, 8, 8), Field(header, 16, 8), Field(header, 24, 8);
      if offset > l.logicalCapacity || length == 0 || length > l.logicalCapacity - offset || sequence <= last
      then BadHeader
      else if !loaded && (offset != 0 || length != l.logicalCapacity) then NotTheSnapshot
      else if l.RecordSize(length) > room then BadHeader
      else Claim(sequence, offset, length, Field(header, 32, 4))
  }

  datatype Finding = Blank | Dead | Refused | Found(rec: Record)

  /** The commit marker and the payload behind a header with this claim. */
  function ReadBody(l: Layout, region: seq<byte>, at: nat, claim: Claim): (f: Finding)
    requires l.Valid() && claim.Claim? && at + l.RecordSize(claim.length) <= |region|
    ensures f == Dead || (f.Found? && f.rec.sequence == claim.sequence && f.rec.offset == claim.offset
                          && |f.rec.data| == claim.length)
  {
    var payloadAt := at + l.RecordHeaderSize();
    var commitAt := payloadAt + l.PaddedSize(claim.length);
    var payload := region[payloadAt..payloadAt + claim.length];
    if !CommitValid(region[commitAt..commitAt + l.CommitSize()], RECORD_COMMIT_MAGIC, claim.sequence) then Dead
    else if Crc32.Checksum(payload) != claim.checksum then Dead
    else Found(Record(claim.sequence, claim.offset, payload))
  }

  /** What recovery finds at one position of the log. */
  function Probe(l: Layout, region: seq<byte>, at: nat, last: nat, loaded: bool): (f: Finding)
    requires l.Valid() && at + l.RecordHeaderSize() + l.CommitSize() <= |region|
    ensures f.Found? ==> |f.rec.data| > 0 && l.RangeValid(f.rec.offset, |f.rec.data|) && f.rec.sequence > last
    ensures f.Found? ==> at + l.RecordSize(|f.rec.data|) <= |region|
    ensures f.Found? && !loaded ==> f.rec.offset == 0 && |f.rec.data| == l.logicalCapacity
    ensures f.Refused? ==> !loaded
  {
    var claim := ReadHeader(l, region[at..at + l.RecordHeaderSize()], |region| - at, last, loaded);
    match claim
    case NoHeader => Blank
    case BadHeader => Dead
    case NotTheSnapshot => Refused
    case Claim(_, _, _, _) => ReadBody(l, region, at, claim)
  }

  /** What loading a region yields; `append` is where the log ends. */
  datatype Load = Loaded(image: seq<byte>, last: nat, append: nat, unusable: bool) | Corrupt

  function FinishTail(loaded: bool, image: seq<byte>, last: nat, append: nat, unusable: bool): Load {
    if loaded then Loaded(image, last, append, unusable) else Corrupt
  }

  function Scan(l: Layout, region: seq<byte>, at: nat, last: nat, loaded: bool, image: seq<byte>): (r: Load)
    requires l.Valid() && at <= |region| && |image| == l.logicalCapacity
    ensures r.Loaded? ==> |r.image| == l.logicalCapacity && at <= r.append <= |region| && last <= r.last
    ensures loaded ==> r.Loaded?
    decreases |region| - at
  {
    if at + l.RecordHeaderSize() + l.CommitSize() > |region| then FinishTail(loaded, image, last, at, true)
    else
      match Probe(l, region, at, last, loaded)
      case Blank => FinishTail(loaded, image, last, at, false)
      case Dead => FinishTail(loaded, image, last, at, true)
      case Refused => Corrupt
      case Found(rec) =>
        Scan(l, region, at + l.RecordSize(|rec.data|), rec.sequence, true, Put(image, rec.offset, rec.data))
  }

  function LoadRegion(l: Layout, region: seq<byte>, generation: nat): (r: Load)
    requires l.Valid() && |region| == l.regionSize
  {
    Scan(l, region, l.RecordArea(), 0, generation == 1, Filled(l.logicalCapacity, ERASED))
  }

  /** The generation of a region whose header and commit marker check out. */
  function Inspect(l: Layout, region: seq<byte>): Option<nat>
    requires l.Valid() && |region| == l.regionSize
  {
    var header := region[..l.RegionHeaderSize()];
    var commit := region[l.RegionHeaderSize()..l.RecordArea()];
    if RegionHeaderValid(l, header) && CommitValid(commit, REGION_COMMIT_MAGIC, Field(header, 8, 8))
    then Some(Field(header, 8, 8))
    else None
  }

  // ---------- contents ----------

  predicate Holds(region: seq<byte>, at: nat, data: seq<byte>) {
    at + |data| <= |region| && region[at..at + |data|] == data
  }

  ghost predicate ErasedFrom(region: seq<byte>, at: nat) {
    forall i :: at <= i < |region| ==> region[i] == ERASED
  }

  /** The cells from `at` on are part-way to `data`, starting from erased. */
  ghost predicate PartOf(region: seq<byte>, at: nat, data: seq<byte>) {
    && at + |data| <= |region|
    && forall i :: 0 <= i < |data| ==> Between(ERASED, data[i], region[at + i])
  }

  predicate RecordOk(l: Layout, rec: Record) {
    && 0 < rec.sequence < U64_LIMIT
    && 0 < |rec.data| && l.RangeValid(rec.offset, |rec.data|)
  }

  predicate IsSnapshot(l: Layout, rec: Record) { rec.offset == 0 && |rec.data| == l.logicalCapacity }

  ghost predicate HoldsRecord(l: Layout, region: seq<byte>, at: nat, rec: Record)
    requires l.Valid()
  {
    && Holds(region, at, RecordHeader(l, rec))
    && Holds(region, at + l.RecordHeaderSize(), Payload(l, rec.data))
    && Holds(region, at + l.RecordHeaderSize() + l.PaddedSize(|rec.data|), RecordCommit(l, rec))
  }

  /**
    A record whose programming stopped: the part being programmed is anything
    between erased and done, the parts before it are done, all after it is erased.
   */
  ghost predicate RecordStopped(l: Layout, region: seq<byte>, at: nat, rec: Record)
    requires l.Valid()
  {
    var payloadAt := at + l.RecordHeaderSize();
    var commitAt := payloadAt + l.PaddedSize(|rec.data|);
    && at + l.RecordSize(|rec.data|) <= |region|
    && (|| (PartOf(region, at, RecordHeader(l, rec)) && ErasedFrom(region, payloadAt))
        || (&& Holds(region, at, RecordHeader(l, rec))
            && PartOf(region, payloadAt, Payload(l, rec.data)) && ErasedFrom(region, commitAt))
        || (&& Holds(region, at, RecordHeader(l, rec)) && Holds(region, payloadAt, Payload(l, rec.data))
            && PartOf(region, commitAt, RecordCommit(l, rec))
            && ErasedFrom(region, at + l.RecordSize(|rec.data|))))
  }

  // ---------- probing known contents ----------

  lemma HoldsPrefix(region: seq<byte>, at: nat, data: seq<byte>, n: nat)
    requires Holds(region, at, data) && n <= |data|
    ensures region[at..at + |data|][..n] == data[..n]
    ensures region[at..at + n] == data[..n]
  {
    assert region[at..at + |data|][..n] == region[at..at + n];
  }

  function ClaimOf(rec: Record): Claim {
    Claim(rec.sequence, rec.offset, |rec.data|, Crc32.Checksum(rec.data))
  }

  lemma HeaderReadsBack(l: Layout, region: seq<byte>, at: nat, rec: Record)
    requires l.Valid() && RecordOk(l, rec) && Holds(region, at, RecordHeader(l, rec))
    ensures var header := region[at..at + l.RecordHeaderSize()];
            && !AllErased(header) && RecordHeaderValid(header)
            && Field(header, 8, 8) == rec.sequence && Field(header, 16, 8) == rec.offset
            && Field(header, 24, 8) == |rec.data| && Field(header, 32, 4) == Crc32.Checksum(rec.data)
  {
    hide Field, RecordBody, Sealed, Padded, RecordHeaderValid;
    var header := region[at..at + l.RecordHeaderSize()];
    HoldsPrefix(region, at, RecordHeader(l, rec), 40);
    assert header[..40] == Sealed(RecordBody(rec)) by { RecordHeaderStarts(l, rec); }
    RecordHeaderRoundTrip(l, rec, header);
    ValidHeaderNotErased(header);
  }

  lemma RecordHeaderStarts(l: Layout, rec: Record)
    requires l.PositiveUnits()
    ensures RecordHeader(l, rec)[..40] == Sealed(RecordBody(rec))
  {
  }

  lemma ValidHeaderNotErased(header: seq<byte>)
    requires |header| >= 40 && RecordHeaderValid(header)
    ensures !AllErased(header)
  {
    ErasedMagicRefused(header, RECORD_MAGIC);
  }

  lemma HeaderClaims(l: Layout, header: seq<byte>, room: nat, rec: Record, last: nat, loaded: bool)
    requires l.Valid() && l.RecordSize(|rec.data|) <= room && |header| >= 40
    requires RecordOk(l, rec) && rec.sequence > last && (loaded || IsSnapshot(l, rec))
    requires !AllErased(header) && RecordHeaderValid(header)
    requires Field(header, 8, 8) == rec.sequence && Field(header, 16, 8) == rec.offset
    requires Field(header, 24, 8) == |rec.data| && Field(header, 32, 4) == Crc32.Checksum(rec.data)
    ensures ReadHeader(l, header, room, last, loaded) == ClaimOf(rec)
  {
    hide Crc32.Checksum, Field, RecordHeaderValid, AllErased, Layout.RecordSize;
  }

  /** With the header in place the outcome depends on the commit marker and the payload alone. */
  lemma ProbeBehindHeader(l: Layout, region: seq<byte>, at: nat, rec: Record, last: nat, loaded: bool)
    requires l.Valid() && at + l.RecordSize(|rec.data|) <= |region|
    requires RecordOk(l, rec) && rec.sequence > last && (loaded || IsSnapshot(l, rec))
    requires Holds(region, at, RecordHeader(l, rec))
    ensures Probe(l, region, at, last, loaded) == ReadBody(l, region, at, ClaimOf(rec))
  {
    hide ReadHeader, ReadBody, Field, RecordHeader, RecordHeaderValid, AllErased, Holds;
    var header := region[at..at + l.RecordHeaderSize()];
    HeaderReadsBack(l, region, at, rec);
    HeaderClaims(l, header, |region| - at, rec, last, loaded);
  }

  lemma ProbeComplete(l: Layout, region: seq<byte>, at: nat, rec: Record, last: nat, loaded: bool)
    requires l.Valid() && HoldsRecord(l, region, at, rec)
    requires RecordOk(l, rec) && rec.sequence > last && (loaded || IsSnapshot(l, rec))
    ensures at + l.RecordSize(|rec.data|) <= |region|
    ensures Probe(l, region, at, last, loaded) == Found(rec)
  {
    hide Probe, ReadBody, Holds, Commit, Payload, RecordHeader;
    RecordFits(l, region, at, rec);
    ProbeBehindHeader(l, region, at, rec, last, loaded);
    BodyComplete(l, region, at, rec);
  }

  lemma RecordFits(l: Layout, region: seq<byte>, at: nat, rec: Record)
    requires l.Valid() && HoldsRecord(l, region, at, rec)
    ensures at + l.RecordSize(|rec.data|) <= |region|
  {
  }

  lemma BodyComplete(l: Layout, region: seq<byte>, at: nat, rec: Record)
    requires l.Valid() && RecordOk(l, rec) && at + l.RecordSize(|rec.data|) <= |region|
    requires Holds(region, at + l.RecordHeaderSize(), Payload(l, rec.data))
    requires Holds(region, at + l.RecordHeaderSize() + l.PaddedSize(|rec.data|), RecordCommit(l, rec))
    ensures ReadBody(l, region, at, ClaimOf(rec)) == Found(rec)
  {
    hide Crc32.Checksum, Holds, CommitValid, Commit, Payload;
    var payloadAt := at + l.RecordHeaderSize();
    var commitAt := payloadAt + l.PaddedSize(|rec.data|);
    PayloadReadsBack(l, region, payloadAt, rec.data);
    CommitReadsBack(l, region, commitAt, RECORD_COMMIT_MAGIC, rec.sequence);
  }

  lemma PayloadReadsBack(l: Layout, region: seq<byte>, at: nat, data: seq<byte>)
    requires l.PositiveUnits() && Holds(region, at, Payload(l, data))
    ensures region[at..at + |data|] == data
  {
    HoldsPrefix(region, at, Payload(l, data), |data|);
  }

  lemma CommitReadsBack(l: Layout, region: seq<byte>, at: nat, magic: nat, number: nat)
    requires l.PositiveUnits() && magic < U32_LIMIT && number < U64_LIMIT
    requires Holds(region, at, Commit(l, magic, number))
    ensures CommitValid(region[at..at + l.CommitSize()], magic, number)
  {
    hide CommitBody, CommitValid, Sealed;
    HoldsPrefix(region, at, Commit(l, magic, number), 16);
    assert Commit(l, magic, number)[..16] == Sealed(CommitBody(magic, number));
    CommitRoundTrip(magic, number, region[at..at + l.CommitSize()]);
  }

  lemma ErasedCommitRefused(l: Layout, region: seq<byte>, at: nat, magic: nat, number: nat)
    requires l.PositiveUnits() && magic % 256 != ERASED
    requires at + l.CommitSize() <= |region| && region[at] == ERASED
    ensures !CommitValid(region[at..at + l.CommitSize()], magic, number)
  {
    ErasedMagicRefused(region[at..at + l.CommitSize()], magic);
  }

  /** A commit marker that is part-way there and passes its check is all there. */
  lemma CommitPartPinned(l: Layout, region: seq<byte>, at: nat, magic: nat, number: nat)
    requires l.Valid() && PartOf(region, at, Commit(l, magic, number))
    requires CommitValid(region[at..at + l.CommitSize()], magic, number)
    ensures Holds(region, at, Commit(l, magic, number))
  {
    var full := Commit(l, magic, number);
    var found := region[at..at + l.CommitSize()];
    CommitPinned(magic, number, found);
    assert found[..16] == full[..16];
    forall i | 0 <= i < |full|
      ensures found[i] == full[i]
    {
      if i < 16 {
        assert found[..16][i] == full[..16][i];
      } else {
        assert Between(ERASED, full[i], region[at + i]);
        PaddingStaysErased(region[at + i]);
      }
    }
  }

  /** A record that stopped is blank, dead or complete: never anything in between. */
  lemma ProbeStopped(l: Layout, region: seq<byte>, at: nat, rec: Record, last: nat)
    requires l.Valid() && RecordStopped(l, region, at, rec)
    requires RecordOk(l, rec) && rec.sequence > last
    ensures at + l.RecordHeaderSize() + l.CommitSize() <= |region|
    ensures var f := Probe(l, region, at, last, true);
            || f == Dead
            || (f == Blank && ErasedFrom(region, at))
            || (&& f == Found(rec) && HoldsRecord(l, region, at, rec)
                && ErasedFrom(region, at + l.RecordSize(|rec.data|)))
  {
    hide AlignUp, Probe, RecordHeader, Payload, Commit, CommitValid, Holds, PartOf;
    var payloadAt := at + l.RecordHeaderSize();
    var commitAt := payloadAt + l.PaddedSize(|rec.data|);
    if PartOf(region, at, RecordHeader(l, rec)) && ErasedFrom(region, payloadAt) {
      ProbeBeforeErased(l, region, at, last);
    } else if ErasedFrom(region, commitAt) {
      ProbeBehindHeader(l, region, at, rec, last, true);
      ErasedCommitRefused(l, region, commitAt, RECORD_COMMIT_MAGIC, rec.sequence);
    } else {
      ProbeBehindHeader(l, region, at, rec, last, true);
      PayloadReadsBack(l, region, payloadAt, rec.data);
      if CommitValid(region[commitAt..commitAt + l.CommitSize()], RECORD_COMMIT_MAGIC, rec.sequence) {
        CommitPartPinned(l, region, commitAt, RECORD_COMMIT_MAGIC, rec.sequence);
      }
    }
  }

  /** Whatever the header area says, a commit marker that must lie in erased cells is missing. */
  lemma ProbeBeforeErased(l: Layout, region: seq<byte>, at: nat, last: nat)
    requires l.Valid() && at + l.RecordHeaderSize() + l.CommitSize() <= |region|
    requires ErasedFrom(region, at + l.RecordHeaderSize())
    ensures var f := Probe(l, region, at, last, true); f == Dead || (f == Blank && ErasedFrom(region, at))
  {
    hide ReadHeader, ReadBody;
    var header := region[at..at + l.RecordHeaderSize()];
    var claim := ReadHeader(l, header, |region| - at, last, true);
    if claim.Claim? {
      BodyMissing(l, region, at, claim);
    } else {
      HeaderOutcome(l, header, |region| - at, last);
      if AllErased(header) {
        assert forall i :: at <= i < at + l.RecordHeaderSize() ==> region[i] == header[i - at];
      }
    }
  }

  lemma HeaderOutcome(l: Layout, header: seq<byte>, room: nat, last: nat)
    requires l.Valid() && |header| >= 40
    ensures ReadHeader(l, header, room, last, true).NoHeader? <==> AllErased(header)
    ensures !ReadHeader(l, header, room, last, true).NotTheSnapshot?
  {
  }

  lemma BodyMissing(l: Layout, region: seq<byte>, at: nat, claim: Claim)
    requires l.Valid() && claim.Claim? && at + l.RecordSize(claim.length) <= |region|
    requires ErasedFrom(region, at + l.RecordHeaderSize())
    ensures ReadBody(l, region, at, claim) == Dead
  {
    hide Crc32.Checksum, CommitValid;
    var commitAt := at + l.RecordHeaderSize() + l.PaddedSize(claim.length);
    ErasedCommitRefused(l, region, commitAt, RECORD_COMMIT_MAGIC, claim.sequence);
  }

  /**
    A record whose payload was damaged inside four consecutive bytes is never
    applied: its checksum is certain to differ.
   */
  lemma DamagedPayloadRejected(l: Layout, region: seq<byte>, at: nat, rec: Record, last: nat, loaded: bool,
                               before: seq<byte>, good: seq<byte>, bad: seq<byte>, after: seq<byte>)
    requires l.Valid() && at + l.RecordSize(|rec.data|) <= |region|
    requires RecordOk(l, rec) && rec.sequence > last && (loaded || IsSnapshot(l, rec))
    requires Holds(region, at, RecordHeader(l, rec))
    requires |good| == |bad| <= 4 && good != bad && rec.data == before + good + after
    requires Holds(region, at + l.RecordHeaderSize(), before + bad + after)
    ensures Probe(l, region, at, last, loaded) == Dead
  {
    hide Probe, RecordHeader, CommitValid;
    ProbeBehindHeader(l, region, at, rec, last, loaded);
    Crc32.BurstChangesChecksum(before, good, bad, after);
  }

  /** Nor is one whose payload was damaged inside 32 consecutive bits, wherever these begin. */
  lemma BurstRejected(l: Layout, region: seq<byte>, at: nat, rec: Record, last: nat, loaded: bool,
                      found: seq<byte>, from: nat)
    requires l.Valid() && at + l.RecordSize(|rec.data|) <= |region|
    requires RecordOk(l, rec) && rec.sequence > last && (loaded || IsSnapshot(l, rec))
    requires Holds(region, at, RecordHeader(l, rec))
    requires |found| == |rec.data| && found != rec.data && from <= 8 * |found|
    requires forall i :: 0 <= i < 8 * |found| && !(from <= i < from + 32) ==>
               MessageBits(rec.data)[i] == MessageBits(found)[i]
    requires Holds(region, at + l.RecordHeaderSize(), found)
    ensures Probe(l, region, at, last, loaded) == Dead
  {
    hide Probe, RecordHeader, CommitValid, MessageBits;
    ProbeBehindHeader(l, region, at, rec, last, loaded);
    BurstOf32Bits(rec.data, found, from);
  }

  // ---------- scanning a log ----------

  function LogSize(l: Layout, recs: seq<Record>): nat
    requires l.PositiveUnits()
  {
    if recs == [] then 0 else l.RecordSize(|recs[0].data|) + LogSize(l, recs[1..])
  }

  ghost predicate HoldsLog(l: Layout, region: seq<byte>, at: nat, recs: seq<Record>)
    requires l.Valid()
    decreases recs
  {
    recs == [] || (HoldsRecord(l, region, at, recs[0])
                   && HoldsLog(l, region, at + l.RecordSize(|recs[0].data|), recs[1..]))
  }

  predicate OrderedAfter(l: Layout, last: nat, recs: seq<Record>)
    decreases recs
  {
    recs == [] || (RecordOk(l, recs[0]) && recs[0].sequence > last && OrderedAfter(l, recs[0].sequence, recs[1..]))
  }

  function LastSequence(last: nat, recs: seq<Record>): nat
    decreases recs
  {
    if recs == [] then last else LastSequence(recs[0].sequence, recs[1..])
  }

  function Replay(image: seq<byte>, recs: seq<Record>): (r: seq<byte>)
    ensures |r| == |image|
    decreases recs
  {
    if recs == [] then image else Replay(Put(image, recs[0].offset, recs[0].data), recs[1..])
  }

  /** Scanning across a well-formed log replays it and goes on behind it. */
  lemma {:induction false} ScanAcrossLog(l: Layout, region: seq<byte>, at: nat, recs: seq<Record>,
                                         last: nat, loaded: bool, image: seq<byte>)
    requires l.Valid() && at <= |region| && |image| == l.logicalCapacity
    requires HoldsLog(l, region, at, recs) && OrderedAfter(l, last, recs)
    requires loaded || recs == [] || IsSnapshot(l, recs[0])
    ensures at + LogSize(l, recs) <= |region|
    ensures Scan(l, region, at, last, loaded, image)
         == Scan(l, region, at + LogSize(l, recs), LastSequence(last, recs), loaded || recs != [], Replay(image, recs))
    decreases recs
  {
    hide AlignUp, HoldsRecord, Probe, RecordOk, Put;
    if recs != [] {
      var rec := recs[0];
      ProbeComplete(l, region, at, rec, last, loaded);
      ScanAcrossLog(l, region, at + l.RecordSize(|rec.data|), recs[1..], rec.sequence, true,
                    Put(image, rec.offset, rec.data));
    }
  }

  // ---------- recovery on arbitrary bytes ----------

  /** Everything recovery demands of the bytes at `at` before it applies `rec`. */
  ghost predicate Certified(l: Layout, region: seq<byte>, at: nat, rec: Record)
    requires l.Valid()
  {
    && at + l.RecordSize(|rec.data|) <= |region|
    && |rec.data| > 0 && l.RangeValid(rec.offset, |rec.data|)
    && var header := region[at..at + l.RecordHeaderSize()];
       var payloadAt := at + l.RecordHeaderSize();
       var commitAt := payloadAt + l.PaddedSize(|rec.data|);
       && RecordHeaderValid(header)
       && Field(header, 8, 8) == rec.sequence && Field(header, 16, 8) == rec.offset
       && Field(header, 24, 8) == |rec.data| && Field(header, 32, 4) == Crc32.Checksum(rec.data)
       && region[payloadAt..payloadAt + |rec.data|] == rec.data
       && region[commitAt..commitAt + 16] == Sealed(CommitBody(RECORD_COMMIT_MAGIC, rec.sequence))
  }

  lemma CommitValidIffExact(l: Layout, region: seq<byte>, at: nat, number: nat)
    requires l.PositiveUnits() && number < U64_LIMIT && at + l.CommitSize() <= |region|
    ensures CommitValid(region[at..at + l.CommitSize()], RECORD_COMMIT_MAGIC, number)
            <==> region[at..at + 16] == Sealed(CommitBody(RECORD_COMMIT_MAGIC, number))
  {
    hide CommitValid, Sealed, CommitBody;
    var commit := region[at..at + l.CommitSize()];
    assert commit[..16] == region[at..at + 16];
    if CommitValid(commit, RECORD_COMMIT_MAGIC, number) {
      CommitPinned(RECORD_COMMIT_MAGIC, number, commit);
    }
    if commit[..16] == Sealed(CommitBody(RECORD_COMMIT_MAGIC, number)) {
      CommitRoundTrip(RECORD_COMMIT_MAGIC, number, commit);
    }
  }

  lemma FieldLimit(s: seq<byte>, offset: nat)
    requires offset + 8 <= |s|
    ensures Field(s, offset, 8) < U64_LIMIT
  {
    FieldLimits();
    EncodeDecode(s[offset..offset + 8]);
  }

  /** Recovery applies a record exactly when everything about it checks out. */
  lemma FoundIffCertified(l: Layout, region: seq<byte>, at: nat, last: nat, loaded: bool, rec: Record)
    requires l.Valid() && at + l.RecordHeaderSize() + l.CommitSize() <= |region|
    ensures Probe(l, region, at, last, loaded) == Found(rec)
            <==> Certified(l, region, at, rec) && rec.sequence > last && (loaded || IsSnapshot(l, rec))
  {
    hide RecordHeaderValid, CommitValid, Sealed, CommitBody, Crc32.Checksum, Field, AlignUp;
    var header := region[at..at + l.RecordHeaderSize()];
    FieldLimit(header, 8);
    if RecordHeaderValid(header) {
      ValidHeaderNotErased(header);
    }
    var length := Field(header, 24, 8);
    if at + l.RecordSize(length) <= |region| {
      CommitValidIffExact(l, region, at + l.RecordHeaderSize() + l.PaddedSize(length), Field(header, 8, 8));
    }
  }

  ghost predicate CertifiedLog(l: Layout, region: seq<byte>, at: nat, recs: seq<Record>, last: nat)
    requires l.Valid()
    decreases recs
  {
    recs == [] || (&& Certified(l, region, at, recs[0]) && recs[0].sequence > last
                   && CertifiedLog(l, region, at + l.RecordSize(|recs[0].data|), recs[1..], recs[0].sequence))
  }

  /** Nothing can be applied at `at` any more. */
  ghost predicate NoRecordAt(l: Layout, region: seq<byte>, at: nat, last: nat)
    requires l.Valid()
  {
    forall rec :: Certified(l, region, at, rec) ==> rec.sequence <= last
  }

  /** There is room for a record without payload, and its header would go over erased cells. */
  predicate BlankAt(l: Layout, region: seq<byte>, at: nat)
    requires l.Valid()
  {
    && at + l.RecordHeaderSize() + l.CommitSize() <= |region|
    && AllErased(region[at..at + l.RecordHeaderSize()])
  }

  lemma BlankIff(l: Layout, region: seq<byte>, at: nat, last: nat, loaded: bool)
    requires l.Valid() && at + l.RecordHeaderSize() + l.CommitSize() <= |region|
    ensures Probe(l, region, at, last, loaded) == Blank <==> BlankAt(l, region, at)
  {
    hide RecordHeaderValid, ReadBody, AllErased;
  }

  /**
    On any bytes whatever, a scan that ends well has applied exactly the longest
    chain of certified records with rising sequence numbers, in order, and
    nothing else; it stays inside the region and inside the image. The tail behind
    them is usable exactly if another record's header would go over erased cells.
   */
  lemma {:induction false} ScanIsExact(l: Layout, region: seq<byte>, at: nat, last: nat, loaded: bool, image: seq<byte>)
    returns (recs: seq<Record>)
    requires l.Valid() && at <= |region| && |image| == l.logicalCapacity
    ensures var r := Scan(l, region, at, last, loaded, image);
            r.Loaded? ==>
              && CertifiedLog(l, region, at, recs, last)
              && r.image == Replay(image, recs) && r.last == LastSequence(last, recs)
              && r.append == at + LogSize(l, recs) <= |region|
              && NoRecordAt(l, region, r.append, r.last)
              && (r.unusable <==> !BlankAt(l, region, r.append))
              && (loaded || (recs != [] && IsSnapshot(l, recs[0])))
    decreases |region| - at
  {
    hide Certified, Probe, Put, AlignUp, AllErased;
    if at + l.RecordHeaderSize() + l.CommitSize() > |region| {
      NothingCertifiedPastTheEnd(l, region, at, last);
      return [];
    }
    var f := Probe(l, region, at, last, loaded);
    BlankIff(l, region, at, last, loaded);
    if f.Found? {
      var rec := f.rec;
      FoundIffCertified(l, region, at, last, loaded, rec);
      var rest := ScanIsExact(l, region, at + l.RecordSize(|rec.data|), rec.sequence, true,
                              Put(image, rec.offset, rec.data));
      recs := [rec] + rest;
      assert recs[1..] == rest;
    } else {
      recs := [];
      if loaded {
        forall rec | Certified(l, region, at, rec)
          ensures rec.sequence <= last
        {
          FoundIffCertified(l, region, at, last, loaded, rec);
        }
      }
    }
  }

  lemma NothingCertifiedPastTheEnd(l: Layout, region: seq<byte>, at: nat, last: nat)
    requires l.Valid() && at + l.RecordHeaderSize() + l.CommitSize() > |region|
    ensures NoRecordAt(l, region, at, last)
  {
  }

  /** Loading fails exactly when a generation above the first does not begin with a certified snapshot. */
  lemma CorruptExactly(l: Layout, region: seq<byte>, generation: nat)
    requires l.Valid() && |region| == l.regionSize
    ensures LoadRegion(l, region, generation) == Corrupt
            <==> generation != 1
                 && forall rec :: Certified(l, region, l.RecordArea(), rec) && IsSnapshot(l, rec) ==> rec.sequence == 0
  {
    hide Certified, Probe, AlignUp, Put;
    var at := l.RecordArea();
    forall rec: Record
      ensures Probe(l, region, at, 0, false) == Found(rec)
              <==> Certified(l, region, at, rec) && rec.sequence > 0 && IsSnapshot(l, rec)
    {
      FoundIffCertified(l, region, at, 0, false, rec);
    }
  }
}
