/**
  The CRC bit by bit over a message seen as bits, lowest bit of each byte first, and
  the bursts of bits it is certain to notice.
 */
module CrcBursts {
  import opened Bytes
  import opened Crc32

  const TOP: bv32 := 0x80000000

  function One(x: bool): bv32 { if x then 1 else 0 }

  function Twice(w: bv32): bv32 { w << 1 }

  function Feed(state: bv32, bits: seq<bool>): bv32
    decreases bits
  {
    if bits == [] then state else Feed(BitStep(Xor(state, One(bits[0]))), bits[1..])
  }

  function Bits(w: bv32, n: nat): (r: seq<bool>)
    ensures |r| == n
    decreases n
  {
    if n == 0 then [] else [w & 1 == 1] + Bits(Half(w), n - 1)
  }

  /** A message as it goes over the line. */
  function MessageBits(data: seq<byte>): (r: seq<bool>)
    ensures |r| == 8 * |data|
    decreases data
  {
    if data == [] then [] else Bits(Wide(data[0]), 8) + MessageBits(data[1..])
  }

  // ---------- a window of bits as one word ----------

  /** The word whose low bits these are. */
  function Number(bits: seq<bool>): bv32
    decreases bits
  {
    if bits == [] then 0 else Xor(One(bits[0]), Twice(Number(bits[1..])))
  }

  predicate TopClear(w: bv32) { w & TOP == 0 }

  /** `w` can be doubled `n` times without losing a bit. */
  predicate Room(w: bv32, n: nat)
    decreases n
  {
    n == 0 || (TopClear(w) && Room(Twice(w), n - 1))
  }

  lemma TopClearXor(a: bv32, b: bv32)
    requires TopClear(a) && TopClear(b)
    ensures TopClear(Xor(a, b))
  {
  }

  lemma TwiceXor(a: bv32, b: bv32)
    ensures Twice(Xor(a, b)) == Xor(Twice(a), Twice(b))
  {
  }

  lemma {:induction false} RoomXor(a: bv32, b: bv32, n: nat)
    requires Room(a, n) && Room(b, n)
    ensures Room(Xor(a, b), n)
    decreases n
  {
    hide Xor, Twice, TopClear;
    if n > 0 {
      TopClearXor(a, b);
      TwiceXor(a, b);
      RoomXor(Twice(a), Twice(b), n - 1);
    }
  }

  lemma {:induction false} LessRoom(w: bv32, n: nat, m: nat)
    requires Room(w, n) && m <= n
    ensures Room(w, m)
    decreases m
  {
    hide Twice, TopClear;
    if m > 0 {
      LessRoom(Twice(w), n - 1, m - 1);
    }
  }

  lemma {:induction false} RoomForZero(n: nat)
    ensures Room(0, n)
    decreases n
  {
    if n > 0 {
      RoomForZero(n - 1);
    }
  }

  /** The lowest bit can be doubled until it is the top bit. */
  lemma RoomForOne()
    ensures Room(1, 31)
  {
    assert Room(0x20000000, 2) && Room(0x08000000, 4) && Room(0x02000000, 6) && Room(0x00800000, 8);
    assert Room(0x00200000, 10) && Room(0x00080000, 12) && Room(0x00020000, 14) && Room(0x00008000, 16);
    assert Room(0x00002000, 18) && Room(0x00000800, 20) && Room(0x00000200, 22) && Room(0x00000080, 24);
    assert Room(0x00000020, 26) && Room(0x00000008, 28) && Room(0x00000002, 30);
  }

  lemma {:induction false} NumberFits(bits: seq<bool>)
    requires |bits| <= 32
    ensures Room(Number(bits), 32 - |bits|)
    decreases bits
  {
    hide Xor, Twice, TopClear;
    if bits == [] {
      RoomForZero(32);
    } else {
      NumberFits(bits[1..]);
      RoomForOne();
      RoomForZero(32 - |bits|);
      LessRoom(1, 31, 32 - |bits|);
      RoomXor(One(bits[0]), Twice(Number(bits[1..])), 32 - |bits|);
    }
  }

  lemma StepOfTwice(w: bv32)
    requires TopClear(w)
    ensures BitStep(Twice(w)) == w
  {
  }

  /** Up to 32 bits act on the state as one word xored in before all their steps. */
  lemma {:induction false} WindowIsNumber(state: bv32, bits: seq<bool>)
    requires |bits| <= 32
    ensures Feed(state, bits) == BitSteps(|bits|, Xor(state, Number(bits)))
    decreases bits
  {
    hide Xor, Twice, BitStep, TopClear, One;
    if bits == [] {
      XorZero(state);
    } else {
      var head, rest := Xor(state, One(bits[0])), Number(bits[1..]);
      WindowIsNumber(BitStep(head), bits[1..]);
      NumberFits(bits[1..]);
      StepOfTwice(rest);
      BitStepLinear(head, Twice(rest));
      XorAssociates(state, One(bits[0]), Twice(rest));
      var whole := Xor(state, Number(bits));
      assert BitSteps(1, whole) == BitStep(BitSteps(0, whole));
      BitStepsCompose(|bits| - 1, 1, whole);
    }
  }

  lemma LowAndTwiceInjective(x: bool, y: bool, a: bv32, b: bv32)
    requires TopClear(a) && TopClear(b) && Xor(One(x), Twice(a)) == Xor(One(y), Twice(b))
    ensures x == y && a == b
  {
  }

  lemma {:induction false} NumberInjective(a: seq<bool>, b: seq<bool>)
    requires |a| == |b| <= 32 && Number(a) == Number(b)
    ensures a == b
    decreases a
  {
    hide Xor, Twice, TopClear, One;
    if a != [] {
      NumberFits(a[1..]);
      NumberFits(b[1..]);
      LowAndTwiceInjective(a[0], b[0], Number(a[1..]), Number(b[1..]));
      NumberInjective(a[1..], b[1..]);
      assert a == [a[0]] + a[1..] && b == [b[0]] + b[1..];
    }
  }

  // ---------- bytes and bits ----------

  predicate Small(w: bv32, n: nat)
    decreases n
  {
    if n == 0 then w == 0 else Small(Half(w), n - 1)
  }

  lemma LowAndHalf(w: bv32)
    ensures Xor(One(w & 1 == 1), Twice(Half(w))) == w
  {
  }

  lemma {:induction false} NumberOfBits(w: bv32, n: nat)
    requires Small(w, n)
    ensures Number(Bits(w, n)) == w
    decreases n
  {
    hide Xor, Twice, Half, One;
    if n > 0 {
      NumberOfBits(Half(w), n - 1);
      LowAndHalf(w);
      assert Bits(w, n)[1..] == Bits(Half(w), n - 1);
    }
  }

  lemma WideIsSmall(b: byte)
    ensures Small(Wide(b), 8)
  {
    WideBelow(b);
    var w := Wide(b);
    assert w >> 8 == 0;
    EightHalves(w);
  }

  lemma EightHalves(w: bv32)
    requires w >> 8 == 0
    ensures Small(w, 8)
  {
    assert (w >> 6) >> 1 == w >> 7 && (w >> 7) >> 1 == w >> 8;
    assert Small(w >> 7, 1) && Small(w >> 6, 2);
    assert (w >> 4) >> 1 == w >> 5 && (w >> 5) >> 1 == w >> 6;
    assert Small(w >> 5, 3) && Small(w >> 4, 4);
    assert (w >> 2) >> 1 == w >> 3 && (w >> 3) >> 1 == w >> 4;
    assert Small(w >> 3, 5) && Small(w >> 2, 6);
    assert (w >> 1) >> 1 == w >> 2;
    assert Small(w >> 1, 7);
  }

  lemma ByteIsBits(state: bv32, b: byte)
    ensures Feed(state, Bits(Wide(b), 8)) == ByteStep(Xor(state, Wide(b)))
  {
    hide Xor, BitStep, Bits, Number, Feed, Small, Wide;
    WideIsSmall(b);
    NumberOfBits(Wide(b), 8);
    WindowIsNumber(state, Bits(Wide(b), 8));
  }

  lemma {:induction false} FeedConcat(state: bv32, a: seq<bool>, b: seq<bool>)
    ensures Feed(state, a + b) == Feed(Feed(state, a), b)
    decreases a
  {
    hide BitStep, Xor, One;
    if a == [] {
      assert a + b == b;
    } else {
      FeedConcat(BitStep(Xor(state, One(a[0]))), a[1..], b);
      assert (a + b)[1..] == a[1..] + b;
    }
  }

  lemma {:induction false} UpdateIsFeed(state: bv32, data: seq<byte>)
    ensures Update(state, data) == Feed(state, MessageBits(data))
    decreases data
  {
    hide ByteStep, Xor, Wide, Bits;
    if data == [] {
    } else {
      ByteIsBits(state, data[0]);
      FeedConcat(state, Bits(Wide(data[0]), 8), MessageBits(data[1..]));
      UpdateIsFeed(ByteStep(Xor(state, Wide(data[0]))), data[1..]);
    }
  }

  lemma {:induction false} MessageBitsInjective(a: seq<byte>, b: seq<byte>)
    requires |a| == |b| && MessageBits(a) == MessageBits(b)
    ensures a == b
    decreases a
  {
    hide Wide, Bits, Small;
    if a != [] {
      assert MessageBits(a)[..8] == Bits(Wide(a[0]), 8) && MessageBits(b)[..8] == Bits(Wide(b[0]), 8);
      assert MessageBits(a)[8..] == MessageBits(a[1..]) && MessageBits(b)[8..] == MessageBits(b[1..]);
      WideIsSmall(a[0]);
      WideIsSmall(b[0]);
      NumberOfBits(Wide(a[0]), 8);
      NumberOfBits(Wide(b[0]), 8);
      WideInjective(a[0], b[0]);
      MessageBitsInjective(a[1..], b[1..]);
      assert a == [a[0]] + a[1..] && b == [b[0]] + b[1..];
    }
  }

  // ---------- bursts ----------

  lemma {:induction false} FeedInjective(s: bv32, t: bv32, bits: seq<bool>)
    requires s != t
    ensures Feed(s, bits) != Feed(t, bits)
    decreases bits
  {
    hide BitStep, Xor, One;
    if bits != [] {
      var x := One(bits[0]);
      if BitStep(Xor(s, x)) == BitStep(Xor(t, x)) {
        BitStepInjective(Xor(s, x), Xor(t, x));
        XorCommutes(s, x);
        XorCommutes(t, x);
        XorCancels(s, t, x);
      }
      FeedInjective(BitStep(Xor(s, x)), BitStep(Xor(t, x)), bits[1..]);
    }
  }

  lemma WindowMatters(state: bv32, a: seq<bool>, b: seq<bool>)
    requires |a| == |b| <= 32 && a != b
    ensures Feed(state, a) != Feed(state, b)
  {
    hide BitStep, Xor, Feed, Number;
    if Feed(state, a) == Feed(state, b) {
      WindowIsNumber(state, a);
      WindowIsNumber(state, b);
      BitStepsInjective(|a|, Xor(state, Number(a)), Xor(state, Number(b)));
      XorCancels(Number(a), Number(b), state);
      NumberInjective(a, b);
    }
  }

  lemma ThreeParts(a: seq<bool>, from: nat, to: nat)
    requires from <= to <= |a|
    ensures a == a[..from] + a[from..to] + a[to..]
  {
  }

  lemma BurstMatters(state: bv32, a: seq<bool>, b: seq<bool>, from: nat, to: nat)
    requires |a| == |b| && a != b && from <= to <= |a| && to <= from + 32
    requires a[..from] == b[..from] && a[to..] == b[to..]
    ensures Feed(state, a) != Feed(state, b)
  {
    hide Feed;
    ThreeParts(a, from, to);
    ThreeParts(b, from, to);
    var head, tail, good, bad := a[..from], a[to..], a[from..to], b[from..to];
    FeedThrice(state, head, good, tail);
    FeedThrice(state, head, bad, tail);
    var middle := Feed(state, head);
    WindowMatters(middle, good, bad);
    FeedInjective(Feed(middle, good), Feed(middle, bad), tail);
  }

  lemma SameOutside(a: seq<bool>, b: seq<bool>, from: nat, to: nat)
    requires |a| == |b| && from <= to <= |a|
    requires forall i :: 0 <= i < |a| && !(from <= i < to) ==> a[i] == b[i]
    ensures a[..from] == b[..from] && a[to..] == b[to..]
  {
  }

  /**
    Two messages of equal length that differ, and only inside 32 consecutive bits
    wherever these begin, have different checksums.
   */
  lemma BurstOf32Bits(good: seq<byte>, bad: seq<byte>, from: nat)
    requires |good| == |bad| && good != bad && from <= 8 * |good|
    requires forall i :: 0 <= i < 8 * |good| && !(from <= i < from + 32) ==> MessageBits(good)[i] == MessageBits(bad)[i]
    ensures Checksum(good) != Checksum(bad)
  {
    hide Feed, Finish, MessageBits, Update;
    var a, b := MessageBits(good), MessageBits(bad);
    var to := if from + 32 < |a| then from + 32 else |a|;
    if a == b {
      MessageBitsInjective(good, bad);
    }
    SameOutside(a, b, from, to);
    BurstMatters(0xFFFFFFFF, a, b, from, to);
    UpdateIsFeed(0xFFFFFFFF, good);
    UpdateIsFeed(0xFFFFFFFF, bad);
    if Finish(Feed(0xFFFFFFFF, a)) == Finish(Feed(0xFFFFFFFF, b)) {
      FinishInjective(Feed(0xFFFFFFFF, a), Feed(0xFFFFFFFF, b));
    }
  }

  lemma FeedThrice(s: bv32, a: seq<bool>, b: seq<bool>, c: seq<bool>)
    ensures Feed(s, a + b + c) == Feed(Feed(Feed(s, a), b), c)
  {
    FeedConcat(s, a + b, c);
    FeedConcat(s, a, b);
  }

  lemma BitsOfOnes(w: bv32)
    requires w == Wide(0xFE) || w == Wide(0xFF)
    ensures forall i :: 1 <= i < 8 ==> Bits(w, 8)[i]
  {
    var h := Half(w);
    assert h == 0x7F;
    assert Half(h) == 0x3F && Half(0x3F) == 0x1F && Half(0x1F) == 0x0F && Half(0x0F) == 0x07;
    assert Half(0x07) == 0x03 && Half(0x03) == 0x01;
    assert Bits(0x01, 1) == [true] && Bits(0x03, 2) == [true, true] && Bits(0x07, 3) == [true, true, true];
    assert Bits(0x0F, 4) == [true, true, true, true] && Bits(0x1F, 5) == [true, true, true, true, true];
    assert Bits(0x3F, 6) == [true, true, true, true, true, true];
    assert Bits(h, 7) == [true, true, true, true, true, true, true];
  }

  lemma LastByte(data: seq<byte>)
    requires |data| == 5
    ensures MessageBits(data)[32..] == Bits(Wide(data[4]), 8)
  {
    hide Wide, Bits;
    var d1, d2, d3, d4 := data[1..], data[2..], data[3..], data[4..];
    assert d1[1..] == d2 && d2[1..] == d3 && d3[1..] == d4 && d4[1..] == [];
    assert MessageBits(data)[8..] == MessageBits(d1) && MessageBits(d1)[8..] == MessageBits(d2);
    assert MessageBits(d2)[8..] == MessageBits(d3) && MessageBits(d3)[8..] == MessageBits(d4);
    assert MessageBits(d4) == Bits(Wide(data[4]), 8) + MessageBits([]);
    assert MessageBits(data)[32..] == MessageBits(d4);
  }

  /** The bound is sharp: here is a burst of 33 bits that no surroundings help to notice. */
  lemma BurstOf33Bits(prefix: seq<byte>, suffix: seq<byte>)
    ensures Checksum(prefix + TWIN + suffix) == Checksum(prefix + Filled(5, ERASED) + suffix)
    ensures TWIN != Filled(5, ERASED)
    ensures forall i :: 33 <= i < 40 ==> MessageBits(TWIN)[i] == MessageBits(Filled(5, ERASED))[i]
  {
    hide Checksum, Bits, MessageBits, Wide;
    FiveBytesUnnoticed(prefix, suffix);
    LastByte(TWIN);
    LastByte(Filled(5, ERASED));
    BitsOfOnes(Wide(0xFE));
    BitsOfOnes(Wide(0xFF));
    forall i | 33 <= i < 40
      ensures MessageBits(TWIN)[i] == MessageBits(Filled(5, ERASED))[i]
    {
      assert MessageBits(TWIN)[i] == MessageBits(TWIN)[32..][i - 32];
      assert MessageBits(Filled(5, ERASED))[i] == MessageBits(Filled(5, ERASED))[32..][i - 32];
    }
  }
}
