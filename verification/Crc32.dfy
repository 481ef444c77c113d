/**
  The reflected CRC-32 of clause 3.2.9 of IEEE 802.3, computed bit by bit, and
  the errors it is certain to notice.

  Bit-vector facts are confined to small lemmas about single operations; the
  inductive proofs hide the operations and use only those laws.
 */
module Crc32 {
  import opened Bytes

  const POLYNOMIAL: bv32 := 0xEDB88320

  function Wide(b: byte): bv32 { (b as bv8) as bv32 }

  function Xor(a: bv32, b: bv32): bv32 { a ^ b }

  function Up(w: bv32): bv32 { w << 8 }

  function Feedback(low: bv32): bv32 { if low == 1 then POLYNOMIAL else 0 }

  function BitStep(state: bv32): bv32 { (state >> 1) ^ Feedback(state & 1) }

  function BitSteps(n: nat, state: bv32): bv32 {
    if n == 0 then state else BitStep(BitSteps(n - 1, state))
  }

  function ByteStep(state: bv32): bv32 { BitSteps(8, state) }

  function Update(state: bv32, data: seq<byte>): bv32
    decreases data
  {
    if data == [] then state else Update(ByteStep(Xor(state, Wide(data[0]))), data[1..])
  }

  function Finish(state: bv32): (r: nat)
    ensures r < U32_LIMIT
  {
    (!state) as nat
  }

  /** The checksum as the number stored in a header field. */
  function Checksum(data: seq<byte>): (r: nat)
    ensures r < U32_LIMIT
  {
    Finish(Update(0xFFFFFFFF, data))
  }

  // ---------- the loops ----------

  /** Folds one byte into a running state. */
  method FoldByte(state: bv32, value: byte) returns (next: bv32)
    ensures next == ByteStep(Xor(state, Wide(value)))
  {
    next := Xor(state, Wide(value));
    for bit := 0 to 8
      invariant next == BitSteps(bit, Xor(state, Wide(value)))
    {
      var mask: bv32 := 0 - (next & 1);
      MaskedFeedback(next);
      next := (next >> 1) ^ (POLYNOMIAL & mask);
    }
  }

  /** Folds bytes into a running state, so that a checksum can be taken chunk by chunk. */
  method Fold(state: bv32, data: seq<byte>) returns (next: bv32)
    ensures next == Update(state, data)
  {
    hide ByteStep, Wide, Xor;
    next := state;
    for i := 0 to |data|
      invariant Update(state, data[..i]) == next
    {
      UpdateConcat(state, data[..i], [data[i]]);
      assert data[..i] + [data[i]] == data[..i + 1];
      next := FoldByte(next, data[i]);
    }
    assert data[..|data|] == data;
  }

  method Compute(data: seq<byte>) returns (r: nat)
    ensures r == Checksum(data)
  {
    hide Update, Finish;
    var state := Fold(0xFFFFFFFF, data);
    r := Finish(state);
  }

  lemma MaskedFeedback(state: bv32)
    ensures POLYNOMIAL & (0 - (state & 1)) == Feedback(state & 1)
  {
    LowBit(state);
    if state & 1 == 1 {
      assert 0 - (state & 1) == 0xFFFFFFFF;
    } else {
      assert 0 - (state & 1) == 0;
    }
  }

  // ---------- laws of single operations ----------

  lemma LowBit(a: bv32)
    ensures a & 1 == 0 || a & 1 == 1
  {
  }

  lemma XorLowBit(a: bv32, b: bv32)
    ensures (a ^ b) & 1 == (a & 1) ^ (b & 1)
  {
  }

  lemma XorShift(a: bv32, b: bv32)
    ensures (a ^ b) >> 1 == (a >> 1) ^ (b >> 1)
  {
  }

  lemma XorSwap(a: bv32, b: bv32, c: bv32, d: bv32)
    ensures (a ^ b) ^ (c ^ d) == (a ^ c) ^ (b ^ d)
  {
  }

  lemma BitStepXor(a: bv32, b: bv32)
    ensures BitStep(a ^ b) == BitStep(a) ^ BitStep(b)
  {
    LowBit(a);
    LowBit(b);
    XorLowBit(a, b);
    XorShift(a, b);
    XorSwap(a >> 1, b >> 1, Feedback(a & 1), Feedback(b & 1));
  }

  lemma BitStepLinear(a: bv32, b: bv32)
    ensures BitStep(Xor(a, b)) == Xor(BitStep(a), BitStep(b))
  {
    hide BitStep;
    BitStepXor(a, b);
  }

  /** The polynomial's top bit is set, so the bit shifted out can be told from the result. */
  lemma BitStepInjective(a: bv32, b: bv32)
    requires BitStep(a) == BitStep(b)
    ensures a == b
  {
  }

  function Half(w: bv32): bv32 { w >> 1 }

  predicate Even(w: bv32) { w & 1 == 0 }

  lemma BitStepOfEven(w: bv32)
    requires Even(w)
    ensures BitStep(w) == Half(w)
  {
  }

  lemma XorAssociates(a: bv32, b: bv32, c: bv32)
    ensures Xor(a, Xor(b, c)) == Xor(Xor(a, b), c)
  {
  }

  lemma XorCommutes(a: bv32, b: bv32)
    ensures Xor(a, b) == Xor(b, a)
  {
  }

  lemma XorZero(a: bv32)
    ensures Xor(a, 0) == a
  {
  }

  lemma XorCancels(a: bv32, b: bv32, c: bv32)
    requires Xor(c, a) == Xor(c, b)
    ensures a == b
  {
    assert c ^ (c ^ a) == a;
    assert c ^ (c ^ b) == b;
  }

  /** The bits above the lowest `n` bytes of a word. */
  function Above(n: nat): bv32 {
    if n == 0 then 0xFFFFFFFF
    else if n == 1 then 0xFFFFFF00
    else if n == 2 then 0xFFFF0000
    else if n == 3 then 0xFF000000
    else 0
  }

  predicate Below(w: bv32, n: nat) { w & Above(n) == 0 }

  lemma WideBelow(b: byte)
    ensures Below(Wide(b), 1)
  {
  }

  lemma JoinBytes(low: bv32, rest: bv32)
    requires low & 0xFFFFFF00 == 0
    ensures rest & 0xFFFFFFFF == 0 ==> Xor(low, Up(rest)) & 0xFFFFFF00 == 0
    ensures rest & 0xFFFFFF00 == 0 ==> Xor(low, Up(rest)) & 0xFFFF0000 == 0
    ensures rest & 0xFFFF0000 == 0 ==> Xor(low, Up(rest)) & 0xFF000000 == 0
  {
  }

  lemma BelowUp(low: bv32, rest: bv32, n: nat)
    requires Below(low, 1) && Below(rest, n)
    ensures Below(Xor(low, Up(rest)), n + 1)
  {
    hide Xor, Up;
    JoinBytes(low, rest);
    NothingAbove(Xor(low, Up(rest)));
  }

  lemma NothingAbove(w: bv32)
    ensures w & 0 == 0
    ensures w & 0xFFFFFFFF == 0 ==> w & 0xFF000000 == 0
    ensures w & 0xFFFFFF00 == 0 ==> w & 0xFF000000 == 0
    ensures w & 0xFFFF0000 == 0 ==> w & 0xFF000000 == 0
  {
  }

  lemma BelowWider(w: bv32, n: nat)
    requires Below(w, n) && n <= 3
    ensures Below(w, 3)
  {
    NothingAbove(w);
  }

  lemma LowAndUpInjective(a: bv32, b: bv32, r: bv32, t: bv32)
    requires Below(a, 1) && Below(b, 1) && Below(r, 3) && Below(t, 3)
    requires Xor(a, Up(r)) == Xor(b, Up(t))
    ensures a == b && r == t
  {
  }

  lemma WideInjective(a: byte, b: byte)
    requires Wide(a) == Wide(b)
    ensures a == b
  {
    hide Wide;
    WideBack(a);
    WideBack(b);
  }

  lemma WideBack(a: byte)
    ensures ((Wide(a) & 0xFF) as bv8) as int == a
  {
    ByteBack(a);
    LowByte(a as bv8);
  }

  lemma ByteBack(a: byte)
    ensures (a as bv8) as int == a
  {
    assert a / 256 == 0 && a % 256 == a;
  }

  lemma LowByte(a: bv8)
    ensures ((a as bv32) & 0xFF) as bv8 == a
  {
  }

  lemma FinishInjective(a: bv32, b: bv32)
    requires Finish(a) == Finish(b)
    ensures a == b
  {
    AsNatInjective(!a, !b);
    ComplementInjective(a, b);
  }

  lemma ComplementInjective(a: bv32, b: bv32)
    requires !a == !b
    ensures a == b
  {
    assert !(!a) == a && !(!b) == b;
  }

  lemma AsNatInjective(a: bv32, b: bv32)
    requires a as nat == b as nat
    ensures a == b
  {
    assert (a as nat) as bv32 == a;
    assert (b as nat) as bv32 == b;
  }

  // ---------- lifting through the bit loop ----------

  lemma {:induction false} BitStepsLinear(n: nat, a: bv32, b: bv32)
    ensures BitSteps(n, Xor(a, b)) == Xor(BitSteps(n, a), BitSteps(n, b))
  {
    hide Xor, BitStep;
    if n != 0 {
      BitStepsLinear(n - 1, a, b);
      BitStepLinear(BitSteps(n - 1, a), BitSteps(n - 1, b));
    }
  }

  lemma {:induction false} BitStepsInjective(n: nat, a: bv32, b: bv32)
    requires BitSteps(n, a) == BitSteps(n, b)
    ensures a == b
  {
    hide BitStep;
    if n != 0 {
      BitStepInjective(BitSteps(n - 1, a), BitSteps(n - 1, b));
      BitStepsInjective(n - 1, a, b);
    }
  }

  lemma {:induction false} BitStepsCompose(m: nat, n: nat, s: bv32)
    ensures BitSteps(m, BitSteps(n, s)) == BitSteps(m + n, s)
  {
    hide BitStep;
    if m != 0 {
      BitStepsCompose(m - 1, n, s);
    }
  }

  predicate Halving(h: seq<bv32>) {
    forall k :: 0 <= k < |h| - 1 ==> Even(h[k]) && h[k + 1] == Half(h[k])
  }

  /** While the low bit stays clear, a step is a plain shift. */
  lemma {:induction false} EvenSteps(h: seq<bv32>)
    requires |h| > 0 && Halving(h)
    ensures BitSteps(|h| - 1, h[0]) == h[|h| - 1]
  {
    hide BitStep, Even, Half;
    if |h| > 1 {
      EvenSteps(h[..|h| - 1]);
      BitStepOfEven(h[|h| - 2]);
    }
  }

  lemma ShiftedHalving(a: bv32)
    requires a & 0xFF == 0
    ensures Halving([a, a >> 1, a >> 2, a >> 3, a >> 4, a >> 5, a >> 6, a >> 7, a >> 8])
  {
    LowBitsClear(a);
    ShiftsCompose(a);
    var h := [a, a >> 1, a >> 2, a >> 3, a >> 4, a >> 5, a >> 6, a >> 7, a >> 8];
    assert Even(h[0]) && Even(h[1]) && Even(h[2]) && Even(h[3]);
    assert Even(h[4]) && Even(h[5]) && Even(h[6]) && Even(h[7]);
    hide Even, Half;
  }

  lemma LowBitsClear(a: bv32)
    requires a & 0xFF == 0
    ensures Even(a) && Even(a >> 1) && Even(a >> 2) && Even(a >> 3)
    ensures Even(a >> 4) && Even(a >> 5) && Even(a >> 6) && Even(a >> 7)
  {
  }

  lemma ShiftsCompose(a: bv32)
    ensures Half(a) == a >> 1 && Half(a >> 1) == a >> 2 && Half(a >> 2) == a >> 3
    ensures Half(a >> 3) == a >> 4 && Half(a >> 4) == a >> 5 && Half(a >> 5) == a >> 6
    ensures Half(a >> 6) == a >> 7 && Half(a >> 7) == a >> 8
  {
  }

  lemma UpAndBack(w: bv32)
    requires Below(w, 3)
    ensures Up(w) & 0xFF == 0 && Up(w) >> 8 == w
  {
  }

  /** Eight steps bring the next byte of a word down to where the current one was. */
  lemma ByteStepShifts(w: bv32)
    requires Below(w, 3)
    ensures ByteStep(Up(w)) == w
  {
    hide Up, Below, BitStep, Halving;
    UpAndBack(w);
    var a := Up(w);
    ShiftedHalving(a);
    EvenSteps([a, a >> 1, a >> 2, a >> 3, a >> 4, a >> 5, a >> 6, a >> 7, a >> 8]);
  }

  // ---------- lifting through the byte loop ----------

  lemma {:induction false} UpdateConcat(state: bv32, a: seq<byte>, b: seq<byte>)
    ensures Update(state, a + b) == Update(Update(state, a), b)
    decreases a
  {
    hide ByteStep, Xor, Wide;
    if a == [] {
      assert a + b == b;
    } else {
      UpdateConcat(ByteStep(Xor(state, Wide(a[0]))), a[1..], b);
      assert (a + b)[1..] == a[1..] + b;
    }
  }

  /** Once two states differ, equal bytes never make them meet again. */
  lemma {:induction false} DifferenceSurvives(s: bv32, t: bv32, data: seq<byte>)
    requires s != t
    ensures Update(s, data) != Update(t, data)
    decreases data
  {
    hide BitStep, Xor, Wide;
    if data != [] {
      var w := Wide(data[0]);
      var s', t' := ByteStep(Xor(s, w)), ByteStep(Xor(t, w));
      assert s' != t' by {
        if s' == t' {
          BitStepsInjective(8, Xor(s, w), Xor(t, w));
          XorCommutes(s, w);
          XorCommutes(t, w);
          XorCancels(s, t, w);
        }
      }
      DifferenceSurvives(s', t', data[1..]);
    }
  }

  /** Up to four bytes, read as one little-endian word. */
  function Word(data: seq<byte>): bv32 {
    if data == [] then 0 else Xor(Wide(data[0]), Up(Word(data[1..])))
  }

  lemma {:induction false} WordBelow(data: seq<byte>)
    ensures Below(Word(data), |data|)
  {
    if data == [] {
    } else {
      hide Xor, Wide, Up;
      WordBelow(data[1..]);
      WideBelow(data[0]);
      BelowUp(Wide(data[0]), Word(data[1..]), |data| - 1);
    }
  }

  /** A window of up to four bytes acts on the state as one word xored in before all its steps. */
  lemma {:induction false} WindowIsOneWord(state: bv32, data: seq<byte>)
    requires |data| <= 4
    ensures Update(state, data) == BitSteps(8 * |data|, Xor(state, Word(data)))
    decreases data
  {
    hide Xor, Wide, Up, BitStep, Below;
    if data == [] {
      XorZero(state);
    } else {
      var rest := Word(data[1..]);
      var head := Xor(state, Wide(data[0]));
      WindowIsOneWord(ByteStep(head), data[1..]);
      WordBelow(data[1..]);
      BelowWider(rest, |data| - 1);
      ByteStepShifts(rest);
      BitStepsLinear(8, head, Up(rest));
      XorAssociates(state, Wide(data[0]), Up(rest));
      BitStepsCompose(8 * (|data| - 1), 8, Xor(state, Word(data)));
    }
  }

  lemma {:induction false} WordInjective(a: seq<byte>, b: seq<byte>)
    requires |a| == |b| <= 4 && Word(a) == Word(b)
    ensures a == b
  {
    hide Xor, Wide, Up, Below;
    if a != [] {
      WideBelow(a[0]);
      WideBelow(b[0]);
      WordBelow(a[1..]);
      WordBelow(b[1..]);
      BelowWider(Word(a[1..]), |a| - 1);
      BelowWider(Word(b[1..]), |a| - 1);
      LowAndUpInjective(Wide(a[0]), Wide(b[0]), Word(a[1..]), Word(b[1..]));
      WideInjective(a[0], b[0]);
      WordInjective(a[1..], b[1..]);
      assert a == [a[0]] + a[1..] && b == [b[0]] + b[1..];
    }
  }

  /**
    Two messages that differ only inside one window of at most four consecutive
    bytes have different checksums, whatever surrounds the window.
   */
  lemma BurstChangesChecksum(prefix: seq<byte>, good: seq<byte>, bad: seq<byte>, suffix: seq<byte>)
    requires |good| == |bad| <= 4 && good != bad
    ensures Checksum(prefix + good + suffix) != Checksum(prefix + bad + suffix)
  {
    hide Xor, BitStep, Finish;
    var s := Update(0xFFFFFFFF, prefix);
    var g, b := Update(s, good), Update(s, bad);
    assert g != b by {
      if g == b {
        WindowIsOneWord(s, good);
        WindowIsOneWord(s, bad);
        BitStepsInjective(8 * |good|, Xor(s, Word(good)), Xor(s, Word(bad)));
        XorCancels(Word(good), Word(bad), s);
        WordInjective(good, bad);
      }
    }
    DifferenceSurvives(g, b, suffix);
    UpdateConcat(0xFFFFFFFF, prefix, good);
    UpdateConcat(0xFFFFFFFF, prefix, bad);
    UpdateConcat(0xFFFFFFFF, prefix + good, suffix);
    UpdateConcat(0xFFFFFFFF, prefix + bad, suffix);
    if Finish(Update(g, suffix)) == Finish(Update(b, suffix)) {
      FinishInjective(Update(g, suffix), Update(b, suffix));
    }
  }

  // ---------- the limit of what it notices ----------

  /** Five bytes that no checksum tells from five bytes 0xFF; they differ from these in 33 bits at most. */
  const TWIN: seq<byte> := [0xBE, 0xF9, 0x8E, 0x24, 0xFE]

  lemma XorSelf(a: bv32)
    ensures Xor(a, a) == 0
  {
  }

  lemma XorRegroups(s: bv32, d: bv32, a: bv32, b: bv32)
    ensures Xor(Xor(s, d), b) == Xor(Xor(s, a), Xor(d, Xor(a, b)))
  {
    hide Xor;
    var u := Xor(Xor(s, a), d);
    XorAssociates(Xor(s, a), d, Xor(a, b));
    XorAssociates(u, a, b);
    assert Xor(u, a) == Xor(s, d) by {
      XorAssociates(Xor(s, a), d, a);
      XorCommutes(d, a);
      XorAssociates(Xor(s, a), a, d);
      XorAssociates(s, a, a);
      XorSelf(a);
      XorZero(s);
    }
  }

  /** How a difference `d` of states and a difference of bytes go on as the difference `next` of states. */
  lemma DifferenceStep(s: bv32, d: bv32, a: byte, b: byte, next: bv32)
    requires ByteStep(Xor(d, Xor(Wide(a), Wide(b)))) == next
    ensures ByteStep(Xor(Xor(s, d), Wide(b))) == Xor(ByteStep(Xor(s, Wide(a))), next)
  {
    hide Xor, BitStep, Wide;
    XorRegroups(s, d, Wide(a), Wide(b));
    BitStepsLinear(8, Xor(s, Wide(a)), Xor(d, Xor(Wide(a), Wide(b))));
  }

  lemma FirstStepped()
    ensures ByteStep(0x41) == 0x01DB7106
  {
    assert BitStep(0x00000041) == 0xEDB88300 && BitStep(0xEDB88300) == 0x76DC4180;
    assert BitStep(0x76DC4180) == 0x3B6E20C0 && BitStep(0x3B6E20C0) == 0x1DB71060;
    assert BitStep(0x1DB71060) == 0x0EDB8830 && BitStep(0x0EDB8830) == 0x076DC418;
    assert BitStep(0x076DC418) == 0x03B6E20C && BitStep(0x03B6E20C) == 0x01DB7106;
    hide BitStep;
    assert BitSteps(4, 0x41) == 0x1DB71060;
  }

  /** The differences of the five bytes, each with the state it leaves behind. */
  lemma TwinDifferences()
    ensures Xor(0, Xor(Wide(0xBE), Wide(0xFF))) == 0x41
    ensures Xor(0x01DB7106, Xor(Wide(0xF9), Wide(0xFF))) == Up(0x01DB71)
    ensures Xor(0x01DB71, Xor(Wide(0x8E), Wide(0xFF))) == Up(0x01DB)
    ensures Xor(0x01DB, Xor(Wide(0x24), Wide(0xFF))) == Up(0x01)
    ensures Xor(0x01, Xor(Wide(0xFE), Wide(0xFF))) == Up(0)
    ensures Below(0x01DB71, 3) && Below(0x01DB, 3) && Below(0x01, 3) && Below(0, 3)
  {
  }

  lemma TwinUpdates(s: bv32)
    ensures Update(s, TWIN) == Update(s, Filled(5, ERASED))
  {
    TwinDifferences();
    FirstStepped();
    hide Xor, BitStep, Wide, Up, Below;
    ByteStepShifts(0x01DB71);
    ByteStepShifts(0x01DB);
    ByteStepShifts(0x01);
    ByteStepShifts(0);
    XorZero(s);
    var s1 := ByteStep(Xor(s, Wide(0xBE)));
    DifferenceStep(s, 0, 0xBE, 0xFF, 0x01DB7106);
    var s2 := ByteStep(Xor(s1, Wide(0xF9)));
    DifferenceStep(s1, 0x01DB7106, 0xF9, 0xFF, 0x01DB71);
    var s3 := ByteStep(Xor(s2, Wide(0x8E)));
    DifferenceStep(s2, 0x01DB71, 0x8E, 0xFF, 0x01DB);
    var s4 := ByteStep(Xor(s3, Wide(0x24)));
    DifferenceStep(s3, 0x01DB, 0x24, 0xFF, 0x01);
    var s5 := ByteStep(Xor(s4, Wide(0xFE)));
    DifferenceStep(s4, 0x01, 0xFE, 0xFF, 0);
    XorZero(s5);
    FiveBytes(s, 0xBE, 0xF9, 0x8E, 0x24, 0xFE);
    FiveBytes(s, ERASED, ERASED, ERASED, ERASED, ERASED);
    assert Filled(5, ERASED) == [ERASED, ERASED, ERASED, ERASED, ERASED];
  }

  lemma FiveBytes(s: bv32, a: byte, b: byte, c: byte, d: byte, e: byte)
    ensures var s1 := ByteStep(Xor(s, Wide(a)));
            var s2 := ByteStep(Xor(s1, Wide(b)));
            var s3 := ByteStep(Xor(s2, Wide(c)));
            var s4 := ByteStep(Xor(s3, Wide(d)));
            Update(s, [a, b, c, d, e]) == ByteStep(Xor(s4, Wide(e)))
  {
    hide ByteStep, Xor, Wide;
    var s1 := ByteStep(Xor(s, Wide(a)));
    var s2 := ByteStep(Xor(s1, Wide(b)));
    var s3 := ByteStep(Xor(s2, Wide(c)));
    var s4 := ByteStep(Xor(s3, Wide(d)));
    UpdateOne(s, a, [b, c, d, e]);
    UpdateOne(s1, b, [c, d, e]);
    UpdateOne(s2, c, [d, e]);
    UpdateOne(s3, d, [e]);
    UpdateOne(s4, e, []);
    UpdateOne(ByteStep(Xor(s4, Wide(e))), e, []);
    hide Update;
    assert [a] + [b, c, d, e] == [a, b, c, d, e] && [b] + [c, d, e] == [b, c, d, e];
    assert [c] + [d, e] == [c, d, e] && [d] + [e] == [d, e] && [e] + [] == [e];
  }

  lemma UpdateOne(s: bv32, a: byte, rest: seq<byte>)
    ensures Update(s, [a] + rest) == Update(ByteStep(Xor(s, Wide(a))), rest)
    ensures Update(s, []) == s
  {
    hide ByteStep, Xor, Wide;
    assert ([a] + rest)[1..] == rest;
  }

  /** Five consecutive bytes are one too many: in any surroundings these erase to the same checksum. */
  lemma FiveBytesUnnoticed(prefix: seq<byte>, suffix: seq<byte>)
    ensures Checksum(prefix + TWIN + suffix) == Checksum(prefix + Filled(5, ERASED) + suffix)
    ensures TWIN != Filled(5, ERASED)
  {
    hide Finish, ByteStep;
    TwinUpdates(Update(0xFFFFFFFF, prefix));
    UpdateConcat(0xFFFFFFFF, prefix, TWIN);
    UpdateConcat(0xFFFFFFFF, prefix, Filled(5, ERASED));
    UpdateConcat(0xFFFFFFFF, prefix + TWIN, suffix);
    UpdateConcat(0xFFFFFFFF, prefix + Filled(5, ERASED), suffix);
    assert TWIN[0] != Filled(5, ERASED)[0];
  }
}
