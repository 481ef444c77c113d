/**
  What the checks on headers and markers accept, stated on their bytes, and what that makes
  of damage.
 */
module JournalChecks {
  import opened Bytes
  import opened Wrappers
  import opened JournalLayout
  import opened JournalFormat
  import opened JournalRecovery
  import opened CrcBursts
  import opened CrcResidue
  import Crc32

  // ---------- fields and seals ----------

  lemma FieldIs(s: seq<byte>, offset: nat, width: nat, value: nat)
    requires offset + width <= |s|
    requires (width == 2 && value < 0x1_0000) || (width == 4 && value < U32_LIMIT) || (width == 8 && value < U64_LIMIT)
    ensures Field(s, offset, width) == value <==> s[offset..offset + width] == LittleEndian(value, width)
  {
    hide LittleEndian, FromLittleEndian;
    FieldsRoundTrip(value, width);
    EncodeDecode(s[offset..offset + width]);
  }

  lemma BodyAndSeal(s: seq<byte>, n: nat)
    requires n + 4 <= |s|
    ensures s[..n + 4] == s[..n] + s[n..n + 4]
  {
  }

  /** A seal holds exactly if body and seal together fold to the residue. */
  lemma SealIff(s: seq<byte>, n: nat)
    requires n + 4 <= |s|
    ensures SealValid(s, n) <==> Crc32.Update(0xFFFFFFFF, s[..n + 4]) == RESIDUE
  {
    hide LittleEndian, FromLittleEndian, Crc32.Checksum, Crc32.Update, Field;
    FieldIs(s, n, 4, Crc32.Checksum(s[..n]));
    BodyAndSeal(s, n);
    ResidueIff(s[..n], s[n..n + 4]);
  }

  lemma HeaderMagicBytes()
    ensures LittleEndian(REGION_MAGIC, 4) == [0x4C, 0x4E, 0x52, 0x4A]
    ensures LittleEndian(RECORD_MAGIC, 4) == [0x44, 0x43, 0x45, 0x52]
    ensures LittleEndian(FORMAT_VERSION, 2) == [1, 0] && LittleEndian(0, 2) == [0, 0]
  {
  }

  lemma MarkerMagicBytes()
    ensures LittleEndian(REGION_COMMIT_MAGIC, 4) == [0x54, 0x4D, 0x43, 0x52]
    ensures LittleEndian(RECORD_COMMIT_MAGIC, 4) == [0x54, 0x4D, 0x43, 0x57]
  {
  }

  lemma SixBytes(s: seq<byte>, a: seq<byte>, b: seq<byte>)
    requires |s| >= 6 && |a| == 4 && |b| == 2
    ensures s[..6] == a + b <==> s[0..4] == a && s[4..6] == b
  {
    assert s[..6][..4] == s[0..4] && s[..6][4..] == s[4..6];
    assert (a + b)[..4] == a && (a + b)[4..] == b;
    if s[0..4] == a && s[4..6] == b {
      assert s[..6] == s[0..4] + s[4..6];
    }
  }

  /** A record header is accepted exactly with its magic and version in place and the seal unbroken. */
  lemma RecordHeaderValidIff(header: seq<byte>)
    requires |header| >= 40
    ensures RecordHeaderValid(header)
            <==> && header[..6] == [0x44, 0x43, 0x45, 0x52, 1, 0]
                 && Crc32.Update(0xFFFFFFFF, header[..40]) == RESIDUE
  {
    hide LittleEndian, Crc32.Update, SealValid, Field;
    HeaderMagicBytes();
    FieldIs(header, 0, 4, RECORD_MAGIC);
    FieldIs(header, 4, 2, FORMAT_VERSION);
    SixBytes(header, [0x44, 0x43, 0x45, 0x52], [1, 0]);
    SealIff(header, 36);
  }

  /** A region header moreover has to be one of this layout and to bear a generation. */
  lemma RegionHeaderValidIff(l: Layout, header: seq<byte>)
    requires l.Valid() && |header| >= 36
    ensures RegionHeaderValid(l, header)
            <==> && header[..6] == [0x4C, 0x4E, 0x52, 0x4A, 1, 0]
                 && header[8..16] != [0, 0, 0, 0, 0, 0, 0, 0]
                 && header[16..24] == LittleEndian(l.logicalCapacity, 8)
                 && header[24..32] == LittleEndian(l.maxAtomicWrite, 8)
                 && Crc32.Update(0xFFFFFFFF, header[..36]) == RESIDUE
  {
    hide LittleEndian, Crc32.Update, SealValid, Field;
    HeaderMagicBytes();
    ZeroBytes();
    FieldIs(header, 0, 4, REGION_MAGIC);
    FieldIs(header, 4, 2, FORMAT_VERSION);
    FieldIs(header, 8, 8, 0);
    FieldIs(header, 16, 8, l.logicalCapacity);
    FieldIs(header, 24, 8, l.maxAtomicWrite);
    SixBytes(header, [0x4C, 0x4E, 0x52, 0x4A], [1, 0]);
    SealIff(header, 32);
  }

  lemma ZeroBytes()
    ensures LittleEndian(0, 8) == [0, 0, 0, 0, 0, 0, 0, 0]
  {
    assert LittleEndian(0, 4) == [0, 0, 0, 0];
    assert LittleEndian(0, 6) == [0, 0] + LittleEndian(0, 4);
    assert LittleEndian(0, 8) == [0, 0] + LittleEndian(0, 6);
  }

  /** A marker is accepted exactly if it is the one with this magic and number. */
  lemma CommitValidIff(commit: seq<byte>, magic: nat, number: nat)
    requires |commit| >= 16 && magic < U32_LIMIT && number < U64_LIMIT
    ensures CommitValid(commit, magic, number)
            <==> && commit[0..4] == LittleEndian(magic, 4) && commit[4..12] == LittleEndian(number, 8)
                 && Crc32.Update(0xFFFFFFFF, commit[..16]) == RESIDUE
  {
    hide LittleEndian, Crc32.Update, SealValid, Field;
    FieldIs(commit, 0, 4, magic);
    FieldIs(commit, 4, 8, number);
    SealIff(commit, 12);
  }

  // ---------- the bytes that are written ----------

  /** A record header byte for byte: each field lowest byte first, at its offset, sealed, then erased. */
  lemma RecordHeaderBytes(l: Layout, rec: Record)
    requires l.PositiveUnits()
    ensures var h := RecordHeader(l, rec);
            && h[..8] == [0x44, 0x43, 0x45, 0x52, 1, 0, 0, 0]
            && h[8..16] == LittleEndian(rec.sequence, 8) && h[16..24] == LittleEndian(rec.offset, 8)
            && h[24..32] == LittleEndian(|rec.data|, 8) && h[32..36] == LittleEndian(Crc32.Checksum(rec.data), 4)
            && Crc32.Update(0xFFFFFFFF, h[..40]) == RESIDUE && AllErased(h[40..])
  {
    hide LittleEndian, Crc32.Checksum, Crc32.Update, Layout.PositiveUnits, Layout.IoUnit, AlignUp;
    HeaderMagicBytes();
    var body, h := RecordBody(rec), RecordHeader(l, rec);
    assert h[..36] == body && h[36..40] == LittleEndian(Crc32.Checksum(body), 4);
    assert h[..40] == body + h[36..40];
    ResidueIff(body, h[36..40]);
    assert h[8..16] == body[8..16] && h[16..24] == body[16..24] && h[24..32] == body[24..32];
    assert h[..8] == body[..8] && h[32..36] == body[32..36];
  }

  lemma RegionHeaderBytes(l: Layout, generation: nat)
    requires l.PositiveUnits()
    ensures var h := RegionHeader(l, generation);
            && h[..8] == [0x4C, 0x4E, 0x52, 0x4A, 1, 0, 0, 0]
            && h[8..16] == LittleEndian(generation, 8) && h[16..24] == LittleEndian(l.logicalCapacity, 8)
            && h[24..32] == LittleEndian(l.maxAtomicWrite, 8)
            && Crc32.Update(0xFFFFFFFF, h[..36]) == RESIDUE && AllErased(h[36..])
  {
    hide LittleEndian, Crc32.Checksum, Crc32.Update, Layout.PositiveUnits, Layout.IoUnit, AlignUp;
    HeaderMagicBytes();
    var body, h := RegionBody(l, generation), RegionHeader(l, generation);
    assert h[..32] == body && h[32..36] == LittleEndian(Crc32.Checksum(body), 4);
    assert h[..36] == body + h[32..36];
    ResidueIff(body, h[32..36]);
    assert h[8..16] == body[8..16] && h[16..24] == body[16..24] && h[24..32] == body[24..32];
    assert h[..8] == body[..8];
  }

  lemma CommitBytes(l: Layout, magic: nat, number: nat)
    requires l.PositiveUnits()
    ensures var c := Commit(l, magic, number);
            && c[..4] == LittleEndian(magic, 4) && c[4..12] == LittleEndian(number, 8)
            && Crc32.Update(0xFFFFFFFF, c[..16]) == RESIDUE && AllErased(c[16..])
  {
    hide LittleEndian, Crc32.Checksum, Crc32.Update, Layout.PositiveUnits, Layout.IoUnit, AlignUp;
    var body, c := CommitBody(magic, number), Commit(l, magic, number);
    assert c[..12] == body && c[12..16] == LittleEndian(Crc32.Checksum(body), 4);
    assert c[..16] == body + c[12..16];
    ResidueIff(body, c[12..16]);
    assert c[..4] == body[..4] && c[4..12] == body[4..12];
  }

  // ---------- damaged headers ----------

  /** Outside 32 consecutive bits these are the same message. */
  predicate SameButBurst(a: seq<byte>, b: seq<byte>, from: nat) {
    && |a| == |b| && from <= 8 * |a|
    && forall i :: 0 <= i < 8 * |a| && !(from <= i < from + 32) ==> MessageBits(a)[i] == MessageBits(b)[i]
  }

  /** A burst of up to 32 bits anywhere in a body or its seal breaks the seal. */
  lemma BurstBreaksSeal(good: seq<byte>, bad: seq<byte>, n: nat, from: nat)
    requires n + 4 <= |good| && n + 4 <= |bad| && SealValid(good, n)
    requires good[..n + 4] != bad[..n + 4] && SameButBurst(good[..n + 4], bad[..n + 4], from)
    ensures !SealValid(bad, n)
  {
    hide Crc32.Update, Crc32.Finish, SealValid, MessageBits;
    SealIff(good, n);
    SealIff(bad, n);
    BurstOf32Bits(good[..n + 4], bad[..n + 4], from);
  }

  /** A record whose header was damaged inside 32 consecutive bits is never applied, whatever follows it. */
  lemma DamagedHeaderRejected(l: Layout, region: seq<byte>, at: nat, rec: Record, last: nat, loaded: bool, from: nat)
    requires l.Valid() && at + l.RecordHeaderSize() + l.CommitSize() <= |region|
    requires region[at..at + 40] != Sealed(RecordBody(rec))
    requires SameButBurst(Sealed(RecordBody(rec)), region[at..at + 40], from)
    ensures var header := region[at..at + l.RecordHeaderSize()];
            Probe(l, region, at, last, loaded) == if AllErased(header) then Blank else Dead
  {
    hide SealValid, SameButBurst, RecordBody, Sealed, AllErased;
    var header := region[at..at + l.RecordHeaderSize()];
    var good := Sealed(RecordBody(rec));
    assert good[..40] == good && header[..40] == region[at..at + 40];
    SealRoundTrip(good, RecordBody(rec));
    BurstBreaksSeal(good, header, 36, from);
  }

  /** A region whose header was damaged so counts for nothing. */
  lemma DamagedRegionRefused(l: Layout, region: seq<byte>, generation: nat, from: nat)
    requires l.Valid() && |region| == l.regionSize && l.RecordArea() <= l.regionSize
    requires region[..36] != Sealed(RegionBody(l, generation))
    requires SameButBurst(Sealed(RegionBody(l, generation)), region[..36], from)
    ensures Inspect(l, region) == None
  {
    hide SealValid, SameButBurst, RegionBody, Sealed, CommitValid;
    var header := region[..l.RegionHeaderSize()];
    var good := Sealed(RegionBody(l, generation));
    assert good[..36] == good && header[..36] == region[..36];
    SealRoundTrip(good, RegionBody(l, generation));
    BurstBreaksSeal(good, header, 32, from);
  }
}
