/** Sizes and positions of the two-region journal, and the facts its compile-time assertions give. */
module JournalLayout {
  import opened Arithmetic
  import opened Bytes
  import opened NorFlash

  function Gcd(left: nat, right: nat): nat
    decreases right
  {
    if right == 0 then left else Gcd(right, left % right)
  }

  function Lcm(left: nat, right: nat): nat
    requires left > 0
  {
    GcdPositive(left, right);
    NotNegative(left / Gcd(left, right), right);
    (left / Gcd(left, right)) * right
  }

  function AlignUp(value: nat, unit: nat): nat
    requires unit > 0
  {
    ((value + unit - 1) / unit) * unit
  }

  datatype Layout = Layout(
    readSize: nat, programSize: nat, eraseSize: nat, flashCapacity: nat,
    logicalCapacity: nat, maxAtomicWrite: nat, baseOffset: nat, regionSize: nat)
  {
    predicate PositiveUnits() { readSize > 0 && programSize > 0 && eraseSize > 0 }

    function IoUnit(): (u: nat)
      requires PositiveUnits()
      ensures u > 0
    {
      LcmFacts(readSize, programSize);
      Lcm(readSize, programSize)
    }

    function RegionHeaderSize(): (n: nat)
      requires PositiveUnits()
      ensures n >= 36
    {
      AlignUpFacts(36, IoUnit());
      AlignUp(36, IoUnit())
    }

    function RecordHeaderSize(): (n: nat)
      requires PositiveUnits()
      ensures n >= 40
    {
      AlignUpFacts(40, IoUnit());
      AlignUp(40, IoUnit())
    }

    function CommitSize(): (n: nat)
      requires PositiveUnits()
      ensures n >= 16
    {
      AlignUpFacts(16, IoUnit());
      AlignUp(16, IoUnit())
    }

    function RecordArea(): (n: nat)
      requires PositiveUnits()
      ensures n == RegionHeaderSize() + CommitSize()
    {
      RegionHeaderSize() + CommitSize()
    }

    function PaddedSize(length: nat): (n: nat)
      requires PositiveUnits()
      ensures n >= length
    {
      AlignUpFacts(length, IoUnit());
      AlignUp(length, IoUnit())
    }

    function RecordSize(length: nat): (n: nat)
      requires PositiveUnits()
      ensures n == RecordHeaderSize() + PaddedSize(length) + CommitSize()
    {
      RecordHeaderSize() + PaddedSize(length) + CommitSize()
    }

    /** The static assertions, with `size_t` at most 64 bits wide. */
    predicate Valid() {
      && PositiveUnits()
      && flashCapacity < U64_LIMIT
      && 0 < maxAtomicWrite <= logicalCapacity
      && Whole(baseOffset, eraseSize) && Whole(baseOffset, IoUnit())
      && Whole(regionSize, eraseSize) && Whole(regionSize, IoUnit())
      && baseOffset <= flashCapacity
      && regionSize <= (flashCapacity - baseOffset) / 2
      && RecordArea() + RecordSize(logicalCapacity) + RecordSize(maxAtomicWrite) <= regionSize
    }

    function RegionStart(region: nat): nat {
      if region == 0 then baseOffset else baseOffset + regionSize
    }

    predicate RangeValid(offset: nat, size: nat) { offset <= logicalCapacity && size <= logicalCapacity - offset }
  }

  // ---------- arithmetic ----------

  lemma GcdPositive(left: nat, right: nat)
    requires left > 0
    ensures Gcd(left, right) > 0
    decreases right
  {
    if right != 0 {
      GcdPositive(right, left % right);
    }
  }

  lemma WholeSum(a: nat, b: nat, unit: nat)
    requires unit > 0 && Whole(a, unit) && Whole(b, unit)
    ensures Whole(a + b, unit)
  {
    QuotientIsUnique(a + b, unit, a / unit + b / unit, 0) by {
      assert unit * (a / unit + b / unit) == unit * (a / unit) + unit * (b / unit);
    }
  }

  lemma WholeProduct(k: nat, unit: nat)
    requires unit > 0
    ensures Whole(k * unit, unit)
  {
    QuotientIsUnique(k * unit, unit, k, 0);
  }

  lemma WholeThrough(a: nat, b: nat, c: nat)
    requires b > 0 && c > 0 && Whole(a, b) && Whole(b, c)
    ensures Whole(a, c)
  {
    assert a == b * (a / b) && b == c * (b / c);
    var k := (b / c) * (a / b);
    assert a == c * k by {
      assert c * (b / c) * (a / b) == c * ((b / c) * (a / b));
    }
    QuotientIsUnique(a, c, k, 0);
  }

  lemma SplitByDivision(left: nat, right: nat)
    requires right > 0
    ensures (left / right) * right + left % right == left
  {
  }

  lemma {:induction false} GcdDivides(left: nat, right: nat)
    requires left > 0
    ensures Gcd(left, right) > 0 && Whole(left, Gcd(left, right)) && Whole(right, Gcd(left, right))
    decreases right
  {
    GcdPositive(left, right);
    if right == 0 {
      QuotientIsUnique(left, left, 1, 0);
    } else {
      hide Whole;
      var g := Gcd(left, right);
      GcdDivides(right, left % right);
      SplitByDivision(left, right);
      WholeProduct(left / right, right);
      WholeThrough((left / right) * right, right, g);
      WholeSum((left / right) * right, left % right, g);
    }
  }

  /** The least common multiple computed this way is a positive multiple of both units. */
  lemma LcmFacts(left: nat, right: nat)
    requires left > 0 && right > 0
    ensures Lcm(left, right) > 0 && Whole(Lcm(left, right), left) && Whole(Lcm(left, right), right)
  {
    GcdDivides(left, right);
    var g := Gcd(left, right);
    var a, b := left / g, right / g;
    assert left == g * a && right == g * b;
    assert Lcm(left, right) == a * right;
    assert a > 0 && b > 0;
    assert a * right > 0;
    WholeProduct(a, right);
    assert a * right == b * left by {
      assert a * (g * b) == b * (g * a);
    }
    WholeProduct(b, left);
  }

  lemma AlignUpFacts(value: nat, unit: nat)
    requires unit > 0
    ensures value <= AlignUp(value, unit) < value + unit
    ensures Whole(AlignUp(value, unit), unit)
  {
    var n := value + unit - 1;
    assert n == unit * (n / unit) + n % unit;
    assert (n / unit) * unit == unit * (n / unit);
    WholeProduct(n / unit, unit);
  }

  lemma AlignUpMonotone(a: nat, b: nat, unit: nat)
    requires unit > 0 && a <= b
    ensures AlignUp(a, unit) <= AlignUp(b, unit)
  {
    DivisionMonotone(a + unit - 1, b + unit - 1, unit);
    MultiplyMonotone((a + unit - 1) / unit, (b + unit - 1) / unit, unit);
  }

  lemma UnitsPositive(l: Layout)
    requires l.Valid()
    ensures l.PositiveUnits() && l.logicalCapacity > 0
  {
  }

  lemma LayoutFacts(l: Layout)
    requires l.PositiveUnits()
    ensures Whole(l.RegionHeaderSize(), l.IoUnit()) && Whole(l.RecordHeaderSize(), l.IoUnit())
    ensures Whole(l.CommitSize(), l.IoUnit()) && Whole(l.RecordArea(), l.IoUnit())
  {
    AlignUpFacts(36, l.IoUnit());
    AlignUpFacts(40, l.IoUnit());
    AlignUpFacts(16, l.IoUnit());
    WholeSum(l.RegionHeaderSize(), l.CommitSize(), l.IoUnit());
  }

  lemma RecordFacts(l: Layout, length: nat)
    requires l.PositiveUnits()
    ensures Whole(l.PaddedSize(length), l.IoUnit()) && Whole(l.RecordSize(length), l.IoUnit())
  {
    LayoutFacts(l);
    AlignUpFacts(length, l.IoUnit());
    WholeSum(l.RecordHeaderSize(), l.PaddedSize(length), l.IoUnit());
    WholeSum(l.RecordHeaderSize() + l.PaddedSize(length), l.CommitSize(), l.IoUnit());
  }

  /** After a snapshot, any permitted write still fits. */
  lemma WriteFitsAfterSnapshot(l: Layout, length: nat)
    requires l.Valid() && length <= l.maxAtomicWrite
    ensures l.RecordArea() + l.RecordSize(l.logicalCapacity) + l.RecordSize(length) <= l.regionSize
  {
    AlignUpMonotone(length, l.maxAtomicWrite, l.IoUnit());
  }

  /** A position that is a whole number of I/O units suits both the read and the program unit. */
  lemma UnitsSuit(l: Layout, at: nat)
    requires l.PositiveUnits() && Whole(at, l.IoUnit())
    ensures Whole(at, l.readSize) && Whole(at, l.programSize)
  {
    LcmFacts(l.readSize, l.programSize);
    WholeThrough(at, l.IoUnit(), l.readSize);
    WholeThrough(at, l.IoUnit(), l.programSize);
  }

  lemma RegionPlacement(l: Layout, region: nat)
    requires l.Valid() && region <= 1
    ensures l.RegionStart(region) + l.regionSize <= l.flashCapacity
    ensures Whole(l.RegionStart(region), l.IoUnit()) && Whole(l.RegionStart(region), l.eraseSize)
  {
    WholeSum(l.baseOffset, l.regionSize, l.IoUnit());
    WholeSum(l.baseOffset, l.regionSize, l.eraseSize);
  }

  // ---------- the sizes are the least that do ----------

  /** The greatest common divisor is a combination of the two numbers. */
  lemma {:induction false} Combination(left: nat, right: nat) returns (x: int, y: int)
    requires left > 0
    ensures Gcd(left, right) == x * left + y * right
    decreases right
  {
    if right == 0 {
      return 1, 0;
    }
    var a, b := Combination(right, left % right);
    var q := left / right;
    SplitByDivision(left, right);
    x, y := b, a - b * q;
    assert b * (left % right) == b * left - b * (q * right);
    assert b * (q * right) == (b * q) * right;
  }

  /** Every common multiple of the two units is a multiple of their combined unit, which is thus the least. */
  lemma LcmIsLeast(left: nat, right: nat, m: nat)
    requires left > 0 && right > 0 && Whole(m, left) && Whole(m, right)
    ensures Lcm(left, right) > 0 && Whole(m, Lcm(left, right))
  {
    LcmFacts(left, right);
    GcdDivides(left, right);
    var g, k := Gcd(left, right), Lcm(left, right);
    var a := left / g;
    var p, q := m / left, m / right;
    var x, y := Combination(left, right);
    assert left == g * a && k == a * right && m == left * p && m == right * q;
    CommonMultiple(g, a, right, p, q, x, y, m);
    var c := q * x + p * y;
    assert m == k * c;
    if c < 0 {
      NotNegative(k, -c);
      Grows(k, c, 0);
    }
    WholeProduct(c, k);
  }

  lemma CommonMultiple(g: nat, a: nat, right: nat, p: nat, q: nat, x: int, y: int, m: nat)
    requires g > 0 && m == (g * a) * p && m == right * q && g == x * (g * a) + y * right
    ensures m == (a * right) * (q * x + p * y)
  {
    assert g * m == (x * (g * a)) * m + (y * right) * m;
    FirstPart(g, a, right, q, x);
    SecondPart(g, a, right, p, y);
    var b, c := (a * right) * (q * x), (a * right) * (p * y);
    assert (a * right) * (q * x + p * y) == b + c;
    assert g * (b + c) == g * b + g * c;
    SameFactor(g, m, b + c);
  }

  lemma FirstPart(g: nat, a: nat, right: nat, q: nat, x: int)
    ensures (x * (g * a)) * (right * q) == g * ((a * right) * (q * x))
  {
  }

  lemma SecondPart(g: nat, a: nat, right: nat, p: nat, y: int)
    ensures (y * right) * ((g * a) * p) == g * ((a * right) * (p * y))
  {
  }

  lemma SameFactor(g: nat, m: int, n: int)
    requires g > 0 && g * m == g * n
    ensures m == n
  {
    if m < n {
      Grows(g, m, n);
    } else if n < m {
      Grows(g, n, m);
    }
  }

  /** Each part of the format takes up the fewest whole I/O units that hold it, and the regions follow each other. */
  lemma SizesAreLeast(l: Layout, length: nat)
    requires l.PositiveUnits()
    ensures 36 <= l.RegionHeaderSize() < 36 + l.IoUnit() && 40 <= l.RecordHeaderSize() < 40 + l.IoUnit()
    ensures 16 <= l.CommitSize() < 16 + l.IoUnit() && length <= l.PaddedSize(length) < length + l.IoUnit()
    ensures Whole(l.RegionHeaderSize(), l.IoUnit()) && Whole(l.RecordHeaderSize(), l.IoUnit())
    ensures Whole(l.CommitSize(), l.IoUnit()) && Whole(l.PaddedSize(length), l.IoUnit())
    ensures l.RegionStart(0) == l.baseOffset && l.RegionStart(1) == l.baseOffset + l.regionSize
  {
    hide Layout.IoUnit, AlignUp;
    AlignUpFacts(36, l.IoUnit());
    AlignUpFacts(40, l.IoUnit());
    AlignUpFacts(16, l.IoUnit());
    AlignUpFacts(length, l.IoUnit());
  }
}
