/**
  Mounting, for any contents of the two regions: which of them counts, when a blank flash is
  formatted, and when nothing can be recovered.
 */
module JournalMounting {
  import opened Bytes
  import opened Wrappers
  import opened JournalLayout
  import opened JournalFormat
  import opened JournalRecovery
  import opened JournalState
  import opened JournalChecks
  import opened CrcResidue
  import Crc32

  /** Header and marker of a region, byte by byte, make it one of this layout and of this generation. */
  ghost predicate Marked(l: Layout, region: seq<byte>, generation: nat)
    requires l.Valid() && |region| == l.regionSize
  {
    && 0 < generation < U64_LIMIT && l.RecordArea() <= |region|
    && region[..6] == [0x4C, 0x4E, 0x52, 0x4A, 1, 0]
    && region[8..16] == LittleEndian(generation, 8)
    && region[16..24] == LittleEndian(l.logicalCapacity, 8)
    && region[24..32] == LittleEndian(l.maxAtomicWrite, 8)
    && Crc32.Update(0xFFFFFFFF, region[..36]) == RESIDUE
    && var marker := region[l.RegionHeaderSize()..l.RecordArea()];
       && marker[0..4] == [0x54, 0x4D, 0x43, 0x52] && marker[4..12] == LittleEndian(generation, 8)
       && Crc32.Update(0xFFFFFFFF, marker[..16]) == RESIDUE
  }

  /** The generation inspection finds is the one the bytes spell out. */
  lemma InspectIff(l: Layout, region: seq<byte>, generation: nat)
    requires l.Valid() && |region| == l.regionSize
    ensures Inspect(l, region) == Some(generation) <==> Marked(l, region, generation)
  {
    hide RegionHeaderValid, CommitValid, LittleEndian, FromLittleEndian, Crc32.Update, AlignUp, Layout.IoUnit, Field;
    WriteFitsAfterSnapshot(l, 0);
    var header := region[..l.RegionHeaderSize()];
    var found := Field(header, 8, 8);
    FieldLimit(header, 8);
    RegionHeaderValidIff(l, header);
    CommitValidIff(region[l.RegionHeaderSize()..l.RecordArea()], REGION_COMMIT_MAGIC, found);
    MarkerMagicBytes();
    GenerationField(region, l.RegionHeaderSize(), generation);
  }

  lemma GenerationField(region: seq<byte>, size: nat, generation: nat)
    requires 36 <= size <= |region|
    ensures var header := region[..size];
            && header[..6] == region[..6] && header[16..24] == region[16..24] && header[24..32] == region[24..32]
            && header[..36] == region[..36] && header[8..16] == region[8..16]
            && (Field(header, 8, 8) == 0 <==> region[8..16] == [0, 0, 0, 0, 0, 0, 0, 0])
            && region[8..16] == LittleEndian(Field(header, 8, 8), 8)
            && (generation < U64_LIMIT ==>
                  (Field(header, 8, 8) == generation <==> region[8..16] == LittleEndian(generation, 8)))
  {
    hide LittleEndian, FromLittleEndian;
    var header := region[..size];
    assert header[8..16] == region[8..16];
    ZeroBytes();
    FieldIs(header, 8, 8, 0);
    FieldLimit(header, 8);
    FieldIs(header, 8, 8, Field(header, 8, 8));
    if generation < U64_LIMIT {
      FieldIs(header, 8, 8, generation);
    }
  }

  /** A region that is marked and from which an image can be loaded. */
  ghost predicate Usable(l: Layout, region: seq<byte>, generation: nat)
    requires l.Valid() && |region| == l.regionSize
  {
    Marked(l, region, generation) && LoadRegion(l, region, generation).Loaded?
  }

  lemma BlankIsNotMarked(l: Layout, region: seq<byte>, generation: nat)
    requires l.Valid() && |region| == l.regionSize && AllErased(region)
    ensures !Marked(l, region, generation)
  {
    hide LittleEndian, Crc32.Update;
    assert l.regionSize >= 6 ==> region[..6][0] == region[0];
  }

  lemma Inspected(l: Layout, region: seq<byte>)
    requires l.Valid() && |region| == l.regionSize
    ensures forall g: nat :: Inspect(l, region) == Some(g) <==> Marked(l, region, g)
    ensures AllErased(region) ==> Inspect(l, region) == None
  {
    hide Inspect, Marked, AllErased;
    forall g: nat
      ensures Inspect(l, region) == Some(g) <==> Marked(l, region, g)
    {
      InspectIff(l, region, g);
    }
    if AllErased(region) && Inspect(l, region).Some? {
      BlankIsNotMarked(l, region, Inspect(l, region).value);
    }
  }

  /** A flash is formatted exactly if every byte of both regions is erased. */
  lemma UnformattedIff(l: Layout, first: seq<byte>, second: seq<byte>)
    requires l.Valid() && |first| == |second| == l.regionSize
    ensures Mount(l, first, second) == Unformatted <==> AllErased(first) && AllErased(second)
  {
    hide Inspect, LoadRegion, AllErased, Marked;
    Inspected(l, first);
    Inspected(l, second);
  }

  /** The generation a usable region carries. */
  function UsableGeneration(l: Layout, region: seq<byte>): Option<nat>
    requires l.Valid() && |region| == l.regionSize
  {
    match Inspect(l, region)
    case None => None
    case Some(generation) => if LoadRegion(l, region, generation) == Corrupt then None else Some(generation)
  }

  lemma UsableIs(l: Layout, region: seq<byte>)
    requires l.Valid() && |region| == l.regionSize
    ensures forall g: nat :: UsableGeneration(l, region) == Some(g) <==> Usable(l, region, g)
  {
    hide Inspect, LoadRegion, Marked, AllErased;
    Inspected(l, region);
  }

  lemma MountedByGeneration(l: Layout, first: seq<byte>, second: seq<byte>, t: State)
    requires l.Valid() && |first| == |second| == l.regionSize
    requires t.active <= 1 && t.First() == first && t.Second() == second
    ensures Mount(l, first, second) == Mounted(t)
            <==> && UsableGeneration(l, t.own) == Some(t.generation)
                 && LoadRegion(l, t.own, t.generation) == Loaded(t.mirror, t.last, t.append, t.unusable)
                 && Inspect(l, t.other) != Some(t.generation)
                 && (UsableGeneration(l, t.other).Some? ==> UsableGeneration(l, t.other).value < t.generation)
  {
    hide Inspect, LoadRegion, AllErased;
  }

  /**
    Mounting gives a state exactly if that is the state its own region loads to, that region
    is usable, the other one is not marked with the same generation, and no newer one is usable.
   */
  lemma MountedIff(l: Layout, first: seq<byte>, second: seq<byte>, t: State)
    requires l.Valid() && |first| == |second| == l.regionSize
    requires t.active <= 1 && t.First() == first && t.Second() == second
    ensures Mount(l, first, second) == Mounted(t)
            <==> && Usable(l, t.own, t.generation)
                 && LoadRegion(l, t.own, t.generation) == Loaded(t.mirror, t.last, t.append, t.unusable)
                 && !Marked(l, t.other, t.generation)
                 && forall g: nat :: Usable(l, t.other, g) ==> g < t.generation
  {
    hide Inspect, LoadRegion, AllErased, Marked, Mount, Usable, UsableGeneration;
    Inspected(l, t.other);
    UsableIs(l, t.own);
    UsableIs(l, t.other);
    MountedByGeneration(l, first, second, t);
  }

  lemma UnrecoveredByGeneration(l: Layout, first: seq<byte>, second: seq<byte>)
    requires l.Valid() && |first| == |second| == l.regionSize
    requires Inspect(l, first).Some? || Inspect(l, second).Some?
    ensures Mount(l, first, second) == Unrecovered
            <==> || Inspect(l, first) == Inspect(l, second)
                 || (UsableGeneration(l, first) == None && UsableGeneration(l, second) == None)
  {
    hide Inspect, LoadRegion, AllErased;
  }

  /**
    Nothing is recovered exactly if the flash is not blank and either both regions are
    marked with one generation or neither is usable.
   */
  lemma UnrecoveredIff(l: Layout, first: seq<byte>, second: seq<byte>)
    requires l.Valid() && |first| == |second| == l.regionSize
    ensures Mount(l, first, second) == Unrecovered
            <==> && !(AllErased(first) && AllErased(second))
                 && (|| (exists g: nat :: Marked(l, first, g) && Marked(l, second, g))
                     || forall g: nat :: !Usable(l, first, g) && !Usable(l, second, g))
  {
    hide Inspect, LoadRegion, AllErased, Marked, Usable, UsableGeneration;
    Inspected(l, first);
    Inspected(l, second);
    UsableIs(l, first);
    UsableIs(l, second);
    UsableIsInspected(l, first);
    UsableIsInspected(l, second);
    if Inspect(l, first).Some? || Inspect(l, second).Some? {
      UnrecoveredByGeneration(l, first, second);
    }
  }

  lemma UsableIsInspected(l: Layout, region: seq<byte>)
    requires l.Valid() && |region| == l.regionSize
    ensures UsableGeneration(l, region).Some? ==> Inspect(l, region) == UsableGeneration(l, region)
  {
    hide Inspect, LoadRegion;
  }

  /** A mounted state is one of the two regions' own. */
  lemma MountedActive(l: Layout, first: seq<byte>, second: seq<byte>)
    requires l.Valid() && |first| == |second| == l.regionSize
    ensures Mount(l, first, second).Mounted? ==> Mount(l, first, second).state.active <= 1
  {
    hide Inspect, LoadRegion, AllErased;
  }
}
