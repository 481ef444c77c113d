/**
  The journal's bytes: region headers, records and commit markers as they are
  written, and the checks recovery makes when it reads them back.

  A region is the byte string between its start and its end; positions inside it
  are relative to its start.
 */
module JournalFormat {
  import opened Bytes
  import opened Wrappers
  import opened JournalLayout
  import Crc32

  const REGION_MAGIC: nat := 0x4A524E4C
  const REGION_COMMIT_MAGIC: nat := 0x52434D54
  const RECORD_MAGIC: nat := 0x52454344
  const RECORD_COMMIT_MAGIC: nat := 0x57434D54
  const FORMAT_VERSION: nat := 1

  /** One durable write: `data` at logical `offset`, ordered by `sequence`. */
  datatype Record = Record(sequence: nat, offset: nat, data: seq<byte>)

  // ---------- encoding ----------

  function Padded(s: seq<byte>, n: nat): (r: seq<byte>)
    requires |s| <= n
    ensures |r| == n && r[..|s|] == s
    ensures forall i :: |s| <= i < n ==> r[i] == ERASED
  {
    s + Filled(n - |s|, ERASED)
  }

  function Sealed(body: seq<byte>): (r: seq<byte>)
    ensures |r| == |body| + 4 && r[..|body|] == body
  {
    body + LittleEndian(Crc32.Checksum(body), 4)
  }

  function RegionBody(l: Layout, generation: nat): (r: seq<byte>)
    ensures |r| == 32
  {
    LittleEndian(REGION_MAGIC, 4) + LittleEndian(FORMAT_VERSION, 2) + LittleEndian(0, 2)
    + LittleEndian(generation, 8) + LittleEndian(l.logicalCapacity, 8) + LittleEndian(l.maxAtomicWrite, 8)
  }

  function RegionHeader(l: Layout, generation: nat): (r: seq<byte>)
    requires l.PositiveUnits()
    ensures |r| == l.RegionHeaderSize()
  {
    Padded(Sealed(RegionBody(l, generation)), l.RegionHeaderSize())
  }

  function CommitBody(magic: nat, number: nat): (r: seq<byte>)
    ensures |r| == 12
  {
    LittleEndian(magic, 4) + LittleEndian(number, 8)
  }

  function Commit(l: Layout, magic: nat, number: nat): (r: seq<byte>)
    requires l.PositiveUnits()
    ensures |r| == l.CommitSize()
  {
    Padded(Sealed(CommitBody(magic, number)), l.CommitSize())
  }

  function RecordBody(rec: Record): (r: seq<byte>)
    ensures |r| == 36
  {
    LittleEndian(RECORD_MAGIC, 4) + LittleEndian(FORMAT_VERSION, 2) + LittleEndian(0, 2)
    + LittleEndian(rec.sequence, 8) + LittleEndian(rec.offset, 8) + LittleEndian(|rec.data|, 8)
    + LittleEndian(Crc32.Checksum(rec.data), 4)
  }

  function RecordHeader(l: Layout, rec: Record): (r: seq<byte>)
    requires l.PositiveUnits()
    ensures |r| == l.RecordHeaderSize()
  {
    Padded(Sealed(RecordBody(rec)), l.RecordHeaderSize())
  }

  function Payload(l: Layout, data: seq<byte>): (r: seq<byte>)
    requires l.PositiveUnits()
    ensures |r| == l.PaddedSize(|data|)
  {
    Padded(data, l.PaddedSize(|data|))
  }

  function RecordCommit(l: Layout, rec: Record): (r: seq<byte>)
    requires l.PositiveUnits()
    ensures |r| == l.CommitSize()
  {
    Commit(l, RECORD_COMMIT_MAGIC, rec.sequence)
  }

  // ---------- decoding ----------

  function Field(s: seq<byte>, offset: nat, width: nat): nat
    requires offset + width <= |s|
  {
    FromLittleEndian(s[offset..offset + width])
  }

  predicate SealValid(s: seq<byte>, bodySize: nat)
    requires bodySize + 4 <= |s|
  {
    Field(s, bodySize, 4) == Crc32.Checksum(s[..bodySize])
  }

  predicate RegionHeaderValid(l: Layout, header: seq<byte>)
    requires |header| >= 36
  {
    && Field(header, 0, 4) == REGION_MAGIC
    && Field(header, 4, 2) == FORMAT_VERSION
    && Field(header, 8, 8) != 0
    && Field(header, 16, 8) == l.logicalCapacity
    && Field(header, 24, 8) == l.maxAtomicWrite
    && SealValid(header, 32)
  }

  predicate CommitValid(commit: seq<byte>, magic: nat, number: nat)
    requires |commit| >= 16
  {
    && Field(commit, 0, 4) == magic
    && Field(commit, 4, 8) == number
    && SealValid(commit, 12)
  }

  predicate RecordHeaderValid(header: seq<byte>)
    requires |header| >= 40
  {
    && Field(header, 0, 4) == RECORD_MAGIC
    && Field(header, 4, 2) == FORMAT_VERSION
    && SealValid(header, 36)
  }

  // ---------- reading back what was written ----------

  lemma FieldsRoundTrip(value: nat, width: nat)
    requires (width == 2 && value < 0x1_0000) || (width == 4 && value < U32_LIMIT) || (width == 8 && value < U64_LIMIT)
    ensures FromLittleEndian(LittleEndian(value, width)) == value
  {
    FieldLimits();
    DecodeEncode(value, width);
  }

  lemma SealRoundTrip(s: seq<byte>, body: seq<byte>)
    requires |s| >= |body| + 4 && s[..|body| + 4] == Sealed(body)
    ensures SealValid(s, |body|)
  {
    var n := |body|;
    assert s[..n] == s[..n + 4][..n] == body;
    assert s[n..n + 4] == s[..n + 4][n..] == LittleEndian(Crc32.Checksum(body), 4);
    FieldsRoundTrip(Crc32.Checksum(body), 4);
  }

  lemma RegionHeaderRoundTrip(l: Layout, generation: nat, header: seq<byte>)
    requires l.Valid() && 0 < generation < U64_LIMIT
    requires |header| >= 36 && header[..36] == Sealed(RegionBody(l, generation))
    ensures RegionHeaderValid(l, header) && Field(header, 8, 8) == generation
  {
    hide LittleEndian, FromLittleEndian, Crc32.Checksum;
    var body := RegionBody(l, generation);
    SealRoundTrip(header, body);
    assert header[..32] == header[..36][..32] == body;
    assert header[0..4] == body[0..4] == LittleEndian(REGION_MAGIC, 4);
    assert header[4..6] == body[4..6] == LittleEndian(FORMAT_VERSION, 2);
    assert header[8..16] == body[8..16] == LittleEndian(generation, 8);
    assert header[16..24] == body[16..24] == LittleEndian(l.logicalCapacity, 8);
    assert header[24..32] == body[24..32] == LittleEndian(l.maxAtomicWrite, 8);
    FieldsRoundTrip(REGION_MAGIC, 4);
    FieldsRoundTrip(FORMAT_VERSION, 2);
    FieldsRoundTrip(generation, 8);
    FieldsRoundTrip(l.logicalCapacity, 8);
    FieldsRoundTrip(l.maxAtomicWrite, 8);
  }

  lemma CommitRoundTrip(magic: nat, number: nat, commit: seq<byte>)
    requires magic < U32_LIMIT && number < U64_LIMIT
    requires |commit| >= 16 && commit[..16] == Sealed(CommitBody(magic, number))
    ensures CommitValid(commit, magic, number)
  {
    hide LittleEndian, FromLittleEndian, Crc32.Checksum;
    var body := CommitBody(magic, number);
    SealRoundTrip(commit, body);
    assert commit[..12] == commit[..16][..12] == body;
    assert commit[0..4] == body[0..4] == LittleEndian(magic, 4);
    assert commit[4..12] == body[4..12] == LittleEndian(number, 8);
    FieldsRoundTrip(magic, 4);
    FieldsRoundTrip(number, 8);
  }

  /**
    The check on a commit marker pins all sixteen of its bytes once the number is
    known, so a marker that passes was programmed completely. No assumption about
    checksum collisions is involved.
   */
  lemma CommitPinned(magic: nat, number: nat, commit: seq<byte>)
    requires |commit| >= 16 && CommitValid(commit, magic, number)
    ensures commit[..16] == Sealed(CommitBody(magic, number))
  {
    EncodeDecode(commit[0..4]);
    EncodeDecode(commit[4..12]);
    EncodeDecode(commit[12..16]);
    assert commit[..12] == commit[0..4] + commit[4..12];
    assert commit[..16] == commit[..12] + commit[12..16];
  }

  /** What a valid record header says, when the record was encoded from `rec`. */
  lemma RecordHeaderRoundTrip(l: Layout, rec: Record, header: seq<byte>)
    requires l.Valid() && rec.sequence < U64_LIMIT && rec.offset < U64_LIMIT && |rec.data| < U64_LIMIT
    requires |header| >= 40 && header[..40] == Sealed(RecordBody(rec))
    ensures RecordHeaderValid(header)
    ensures Field(header, 8, 8) == rec.sequence && Field(header, 16, 8) == rec.offset
    ensures Field(header, 24, 8) == |rec.data| && Field(header, 32, 4) == Crc32.Checksum(rec.data)
  {
    hide LittleEndian, FromLittleEndian, Crc32.Checksum;
    var body := RecordBody(rec);
    SealRoundTrip(header, body);
    assert header[..36] == header[..40][..36] == body;
    assert header[0..4] == body[0..4] == LittleEndian(RECORD_MAGIC, 4);
    assert header[4..6] == body[4..6] == LittleEndian(FORMAT_VERSION, 2);
    assert header[8..16] == body[8..16] == LittleEndian(rec.sequence, 8);
    assert header[16..24] == body[16..24] == LittleEndian(rec.offset, 8);
    assert header[24..32] == body[24..32] == LittleEndian(|rec.data|, 8);
    assert header[32..36] == body[32..36] == LittleEndian(Crc32.Checksum(rec.data), 4);
    FieldsRoundTrip(RECORD_MAGIC, 4);
    FieldsRoundTrip(FORMAT_VERSION, 2);
    FieldsRoundTrip(rec.sequence, 8);
    FieldsRoundTrip(rec.offset, 8);
    FieldsRoundTrip(|rec.data|, 8);
    FieldsRoundTrip(Crc32.Checksum(rec.data), 4);
  }

  /** A marker or header whose first byte is still erased fails its check. */
  lemma ErasedMagicRefused(s: seq<byte>, magic: nat)
    requires |s| >= 4 && magic % 256 != ERASED
    ensures s[0] == ERASED ==> Field(s, 0, 4) != magic
  {
    var f := s[0..4];
    assert FromLittleEndian(f) == f[0] + 256 * FromLittleEndian(f[1..]);
  }
}
