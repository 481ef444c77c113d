/**
  NOR flash kept in a file. Programming may only clear bits and works in program
  units; erasing sets whole erase units to 0xFF.

  Any operation may fail part-way. `powered` records whether the failure was a
  power cut: every operation requires power, so a caller that touched the flash
  again after a cut, without it being restored, would not verify.
 */
module NorFlash {
  import opened Arithmetic
  import opened Bytes
  import opened Wrappers

  datatype FlashError = OutOfRange | NotAligned | ProgramRefused | EraseFailed | Io

  /** `after` can be reached from `before` by clearing bits only. */
  predicate ClearsOnly(before: byte, after: byte) {
    (before as bv8) | (after as bv8) == before as bv8
  }

  /** Which bytes that is: those with no bit that `before` has clear; a program that needs one set is refused. */
  lemma ClearsOnlyIff(before: byte, after: byte)
    ensures ClearsOnly(before, after) <==> !(before as bv8) & (after as bv8) == 0
  {
    SubsetBits(before as bv8, after as bv8);
  }

  lemma SubsetBits(a: bv8, b: bv8)
    ensures a | b == a <==> !a & b == 0
  {
  }

  /** What a cell may hold while `data` is being programmed over `before`: any of its bits may be done. */
  predicate Between(before: byte, data: byte, now: byte) {
    ClearsOnly(before, now) && ClearsOnly(now, data)
  }

  lemma ClearsReflexive(b: byte)
    ensures ClearsOnly(b, b)
  {
  }

  lemma OverErased(d: byte)
    ensures ClearsOnly(ERASED, d)
  {
    var erased: bv8 := 0xFF;
    assert ERASED as bv8 == erased;
  }

  /** Programming 0xFF over an erased cell leaves it erased, however far it got. */
  lemma PaddingStaysErased(now: byte)
    requires Between(ERASED, ERASED, now)
    ensures now == ERASED
  {
    var erased: bv8 := 0xFF;
    assert ERASED as bv8 == erased;
    assert now as bv8 == 0xFF;
    assert (now as bv8) as int == now;
  }

  ghost predicate ClearsBitsOnly(before: seq<byte>, offset: nat, data: seq<byte>)
    requires offset + |data| <= |before|
  {
    forall i :: 0 <= i < |data| ==> ClearsOnly(before[offset + i], data[i])
  }

  ghost predicate PartlyProgrammed(before: seq<byte>, offset: nat, data: seq<byte>, after: seq<byte>) {
    && |after| == |before|
    && forall i :: 0 <= i < |before| ==>
         if offset <= i < offset + |data|
         then after[i] == before[i] || Between(before[i], data[i - offset], after[i])
         else after[i] == before[i]
  }

  predicate SameUnit(i: nat, j: nat, unit: nat)
    requires unit > 0
  {
    i / unit == j / unit
  }

  /**
    An erase that stopped: every byte of the range is old or erased, and inside
    one erase unit nothing is erased behind a byte that is not. This covers units
    erased as a whole in any order and a unit overwritten from its start.
   */
  ghost predicate PartlyErased(before: seq<byte>, lo: nat, hi: nat, unit: nat, after: seq<byte>)
    requires unit > 0
  {
    && |after| == |before|
    && (forall i :: 0 <= i < |before| ==> after[i] == before[i] || (lo <= i < hi && after[i] == ERASED))
    && forall i, j :: lo <= i < j < hi && j < |before| && SameUnit(i, j, unit) && after[j] != before[j]
                      ==> after[i] == ERASED
  }

  function ErasedRange(cells: seq<byte>, lo: nat, length: nat): (r: seq<byte>)
    requires lo + length <= |cells|
  {
    Splice(cells, lo, Filled(length, ERASED))
  }

  predicate Whole(n: nat, unit: nat)
    requires unit > 0
  {
    n % unit == 0
  }

  /** The multiples of a unit, and no other offset or length, suit it. */
  lemma WholeIff(n: nat, unit: nat, k: nat)
    requires unit > 0
    ensures Whole(n, unit) ==> n == unit * (n / unit)
    ensures n == unit * k ==> Whole(n, unit)
  {
    if n == unit * k {
      QuotientIsUnique(n, unit, k, 0);
    }
  }

  lemma WholeZero(unit: nat)
    requires unit > 0
    ensures Whole(0, unit)
  {
  }

  lemma WholeUnit(unit: nat)
    requires unit > 0
    ensures Whole(unit, unit)
  {
    QuotientIsUnique(unit, unit, 1, 0);
  }

  /** Before a whole end there is always room for one more unit. */
  lemma UnitFits(at: nat, end: nat, unit: nat)
    requires unit > 0 && at < end && Whole(at, unit) && Whole(end, unit)
    ensures at + unit <= end && Whole(at + unit, unit)
  {
    var a, b := at / unit, end / unit;
    assert at == unit * a && end == unit * b;
    if b < a {
      Grows(unit, b, a);
    }
    assert a < b;
    Grows(unit, a, b);
    assert unit * (a + 1) == unit * a + unit;
    QuotientIsUnique(at + unit, unit, a + 1, 0);
  }

  class FileNorFlash {
    const capacity: nat
    const readSize: nat
    const programSize: nat
    const eraseSize: nat
    var cells: seq<byte>
    var powered: bool
    ghost var faults: nat   // accesses that have failed
    ghost var dirty: bool    // something was stored that no sync has followed

    ghost predicate Valid()
      reads `cells
    {
      && readSize > 0 && programSize > 0 && eraseSize > 0
      && |cells| == capacity
    }

    constructor (capacity: nat, readSize: nat, programSize: nat, eraseSize: nat)
      requires readSize > 0 && programSize > 0 && eraseSize > 0
      ensures Valid() && powered
      ensures this.capacity == capacity && this.readSize == readSize
      ensures this.programSize == programSize && this.eraseSize == eraseSize
      ensures AllErased(cells)
    {
      this.capacity, this.readSize, this.programSize, this.eraseSize := capacity, readSize, programSize, eraseSize;
      cells := Filled(capacity, ERASED);
      powered, faults, dirty := true, 0, false;
    }

    predicate InBounds(offset: nat, length: nat): (inside: bool)
      ensures inside <==> offset + length <= capacity
    {
      offset <= capacity && length <= capacity - offset
    }

    predicate Aligned(offset: nat, length: nat, unit: nat)
      requires unit > 0
    {
      Whole(offset, unit) && Whole(length, unit)
    }

    lemma AlignedIff(offset: nat, length: nat, unit: nat)
      requires unit > 0
      ensures Aligned(offset, length, unit) <==> offset % unit == 0 && length % unit == 0
    {
    }

    /** Power comes back; nothing stored has moved. */
    method PowerOn()
      modifies this`powered
      ensures powered
    {
      powered := true;
    }

    /** An operation of the environment that may fail, with or without power; `faults` counts the failures. */
    method Attempt() returns (ok: bool)
      requires powered
      modifies this`powered, this`faults
      ensures ok ==> powered
      ensures faults == old(faults) + if ok then 0 else 1
    {
      ok := *;
      if !ok {
        powered := *;
        faults := faults + 1;
      }
    }

    method Read(offset: nat, length: nat) returns (r: Result<seq<byte>, FlashError>)
      requires Valid() && powered
      modifies this`powered, this`faults
      ensures Valid()
      ensures r.Success? ==> powered && InBounds(offset, length) && r.value == cells[offset..offset + length]
      ensures !InBounds(offset, length) ==> r == Failure(OutOfRange) && powered
      ensures InBounds(offset, length) && !Aligned(offset, length, readSize) ==> r == Failure(NotAligned) && powered
      ensures InBounds(offset, length) && Aligned(offset, length, readSize) ==> r.Success? || r == Failure(Io)
      ensures r == Failure(Io) ==> length > 0
      ensures faults == old(faults) + if r == Failure(Io) then 1 else 0
    {
      if !InBounds(offset, length) {
        return Failure(OutOfRange);
      }
      if !Aligned(offset, length, readSize) {
        return Failure(NotAligned);
      }
      if length > 0 {
        var ok := Attempt();
        if !ok {
          return Failure(Io);
        }
      }
      return Success(cells[offset..offset + length]);
    }

    method Program(offset: nat, data: seq<byte>) returns (r: Outcome<FlashError>)
      requires Valid() && powered
      modifies this
      ensures Valid()
      ensures r.Pass? ==> powered && InBounds(offset, |data|) && cells == Splice(old(cells), offset, data)
      ensures r.Fail? ==> PartlyProgrammed(old(cells), offset, data, cells)
      ensures r == Fail(ProgramRefused) ==>
                InBounds(offset, |data|) &&
                exists i :: 0 <= i < |data| && !ClearsOnly(old(cells)[offset + i], data[i])
      ensures !InBounds(offset, |data|) ==> r == Fail(OutOfRange) && cells == old(cells) && powered
      ensures InBounds(offset, |data|) && !Aligned(offset, |data|, programSize) ==>
                r == Fail(NotAligned) && cells == old(cells) && powered
      ensures InBounds(offset, |data|) && Aligned(offset, |data|, programSize) ==>
                r.Pass? || r == Fail(ProgramRefused) || r == Fail(Io)
      ensures r.Pass? ==> ClearsBitsOnly(old(cells), offset, data)
      ensures faults == old(faults) + if r == Fail(Io) then 1 else 0
    {
      hide Splice, ClearsOnly, Between, Whole;
      if !InBounds(offset, |data|) {
        return Fail(OutOfRange);
      }
      if !Aligned(offset, |data|, programSize) {
        return Fail(NotAligned);
      }
      WholeZero(programSize);
      var consumed := 0;
      while consumed < |data|
        invariant Valid() && powered
        invariant 0 <= consumed <= |data| && Whole(consumed, programSize)
        invariant faults == old(faults) && cells == Splice(old(cells), offset, data[..consumed])
        invariant forall i :: 0 <= i < consumed ==> ClearsOnly(old(cells)[offset + i], data[i])
      {
        UnitFits(consumed, |data|, programSize);
        var unit := data[consumed..consumed + programSize];
        r := ProgramUnit(offset + consumed, unit);
        if r.Fail? {
          StoppedInUnit(old(cells), offset, data, consumed, unit, cells);
          if r.error.ProgramRefused? {
            RefusedInUnit(old(cells), offset, data, consumed, unit);
          }
          return;
        }
        UnitDone(old(cells), offset, data, consumed, unit);
        consumed := consumed + programSize;
      }
      assert data[..consumed] == data;
      r := Pass;
    }

    /** One program unit: read it, refuse to set a bit, write it. */
    method ProgramUnit(at: nat, unit: seq<byte>) returns (r: Outcome<FlashError>)
      requires Valid() && powered && at + |unit| <= capacity
      modifies this
      ensures Valid()
      ensures r.Pass? ==> powered && cells == Splice(old(cells), at, unit)
      ensures r.Pass? ==> forall i :: 0 <= i < |unit| ==> ClearsOnly(old(cells)[at + i], unit[i])
      ensures r.Fail? ==> PartlyProgrammed(old(cells), at, unit, cells)
      ensures r == Fail(ProgramRefused) ==> exists i :: 0 <= i < |unit| && !ClearsOnly(old(cells)[at + i], unit[i])
      ensures r.Fail? ==> r.error.ProgramRefused? || r.error.Io?
      ensures faults == old(faults) + if r == Fail(Io) then 1 else 0
    {
      var ok := Attempt();
      if !ok {
        return Fail(Io);
      }
      for index := 0 to |unit|
        invariant cells == old(cells) && powered && faults == old(faults)
        invariant forall i :: 0 <= i < index ==> ClearsOnly(old(cells)[at + i], unit[i])
      {
        if !ClearsOnly(cells[at + index], unit[index]) {
          return Fail(ProgramRefused);
        }
      }
      ok := Attempt();
      if !ok {
        dirty := true;
        Tear(at, unit);
        return Fail(Io);
      }
      cells, dirty := Splice(cells, at, unit), true;
      r := Pass;
    }

    lemma UnitDone(before: seq<byte>, offset: nat, data: seq<byte>, consumed: nat, unit: seq<byte>)
      requires offset + |data| <= |before| && consumed + |unit| <= |data|
      requires unit == data[consumed..consumed + |unit|]
      requires forall i :: 0 <= i < consumed ==> ClearsOnly(before[offset + i], data[i])
      requires forall i :: 0 <= i < |unit| ==>
                 ClearsOnly(Splice(before, offset, data[..consumed])[offset + consumed + i], unit[i])
      ensures Splice(Splice(before, offset, data[..consumed]), offset + consumed, unit)
           == Splice(before, offset, data[..consumed + |unit|])
      ensures forall i :: 0 <= i < consumed + |unit| ==> ClearsOnly(before[offset + i], data[i])
    {
      hide Splice, ClearsOnly;
      var now := Splice(before, offset, data[..consumed]);
      forall i | consumed <= i < consumed + |unit|
        ensures ClearsOnly(before[offset + i], data[i])
      {
        assert ClearsOnly(now[offset + consumed + (i - consumed)], unit[i - consumed]);
      }
    }

    lemma RefusedInUnit(before: seq<byte>, offset: nat, data: seq<byte>, consumed: nat, unit: seq<byte>)
      requires offset + |data| <= |before| && consumed + |unit| <= |data|
      requires unit == data[consumed..consumed + |unit|]
      requires exists i :: 0 <= i < |unit| &&
                 !ClearsOnly(Splice(before, offset, data[..consumed])[offset + consumed + i], unit[i])
      ensures exists i :: 0 <= i < |data| && !ClearsOnly(before[offset + i], data[i])
    {
      hide Splice, ClearsOnly;
      var i :| 0 <= i < |unit| &&
               !ClearsOnly(Splice(before, offset, data[..consumed])[offset + consumed + i], unit[i]);
      assert !ClearsOnly(before[offset + (consumed + i)], data[consumed + i]);
    }

    lemma StoppedInUnit(before: seq<byte>, offset: nat, data: seq<byte>, consumed: nat, unit: seq<byte>, now: seq<byte>)
      requires offset + |data| <= |before| && consumed + |unit| <= |data|
      requires unit == data[consumed..consumed + |unit|]
      requires forall i :: 0 <= i < consumed ==> ClearsOnly(before[offset + i], data[i])
      requires PartlyProgrammed(Splice(before, offset, data[..consumed]), offset + consumed, unit, now)
      ensures PartlyProgrammed(before, offset, data, now)
    {
      hide Splice, ClearsOnly;
      forall i | offset <= i < offset + consumed
        ensures Between(before[i], data[i - offset], data[i - offset])
      {
        assert ClearsOnly(before[offset + (i - offset)], data[i - offset]);
        ClearsReflexive(data[i - offset]);
      }
    }

    /** A write of one unit that stopped: each cell keeps its bits or loses some that the data clears. */
    method Tear(at: nat, data: seq<byte>)
      requires Valid() && at + |data| <= capacity
      requires forall i :: 0 <= i < |data| ==> ClearsOnly(cells[at + i], data[i])
      modifies this`cells
      ensures Valid()
      ensures PartlyProgrammed(old(cells), at, data, cells)
    {
      for index := 0 to |data|
        invariant Valid()
        invariant PartlyProgrammed(old(cells), at, data[..index], cells)
      {
        var now: byte := *;
        if Between(cells[at + index], data[index], now) {
          cells := cells[at + index := now];
        }
      }
      assert data[..|data|] == data;
    }

    /** Erases from the front: whatever stops it, the first cell is among those it has changed. */
    method Erase(offset: nat, length: nat) returns (r: Outcome<FlashError>)
      requires Valid() && powered
      modifies this
      ensures Valid()
      ensures r.Pass? ==> powered && InBounds(offset, length) && cells == ErasedRange(old(cells), offset, length)
      ensures r.Fail? ==> PartlyErased(old(cells), offset, offset + length, eraseSize, cells)
      ensures r.Fail? && cells != old(cells) ==> offset < |cells| && cells[offset] == ERASED
      ensures !InBounds(offset, length) ==> r == Fail(OutOfRange) && cells == old(cells) && powered
      ensures InBounds(offset, length) && !Aligned(offset, length, eraseSize) ==>
                r == Fail(NotAligned) && cells == old(cells) && powered
      ensures InBounds(offset, length) && Aligned(offset, length, eraseSize) ==> r.Pass? || r == Fail(EraseFailed)
      ensures faults == old(faults) + if r == Fail(EraseFailed) then 1 else 0
    {
      hide Splice, SameUnit, ClearsOnly, Between;
      if !InBounds(offset, length) {
        return Fail(OutOfRange);
      }
      if !Aligned(offset, length, eraseSize) {
        return Fail(NotAligned);
      }
      dirty := true;
      var consumed := 0;
      while consumed < length
        invariant Valid() && powered && faults == old(faults)
        invariant 0 <= consumed <= length
        invariant cells == ErasedRange(old(cells), offset, consumed)
      {
        var count := if length - consumed < 4096 then length - consumed else 4096;
        var ok := Attempt();
        if !ok {
          var written: nat := *;
          if written <= count {
            cells := ErasedRange(cells, offset + consumed, written);
          }
          return Fail(EraseFailed);
        }
        cells := ErasedRange(cells, offset + consumed, count);
        consumed := consumed + count;
      }
      r := Pass;
    }

    method Sync() returns (r: Outcome<FlashError>)
      requires Valid() && powered
      modifies this`powered, this`faults, this`dirty
      ensures Valid()
      ensures r.Pass? ==> powered && !dirty
      ensures r.Pass? || r == Fail(Io)
      ensures faults == old(faults) + if r.Pass? then 0 else 1
    {
      var ok := Attempt();
      if !ok {
        return Fail(Io);
      }
      dirty := false;
      return Pass;
    }
  }
}
