/** Bytes, fixed-width little-endian fields and in-place edits of byte strings. */
module Bytes {
  import opened Arithmetic

  type byte = x: int | 0 <= x < 256

  /** The value of an erased NOR cell. */
  const ERASED: byte := 0xFF

  const U32_LIMIT: nat := 0x1_0000_0000
  const U64_LIMIT: nat := 0x1_0000_0000_0000_0000

  function Filled(n: nat, value: byte): (s: seq<byte>)
    ensures |s| == n && forall i :: 0 <= i < n ==> s[i] == value
  {
    seq(n, _ => value)
  }

  predicate AllErased(s: seq<byte>) {
    forall i :: 0 <= i < |s| ==> s[i] == ERASED
  }

  /** `s` with `data` laid over positions `at .. at + |data|`. */
  function Splice(s: seq<byte>, at: nat, data: seq<byte>): (r: seq<byte>)
    requires at + |data| <= |s|
    ensures |r| == |s|
    ensures forall i :: 0 <= i < |s| ==> r[i] == if at <= i < at + |data| then data[i - at] else s[i]
  {
    s[..at] + data + s[at + |data|..]
  }

  // ---------- little-endian fields ----------

  function Pow256(n: nat): (p: nat)
    ensures p > 0
  {
    if n == 0 then 1 else 256 * Pow256(n - 1)
  }

  function LittleEndian(value: nat, width: nat): (s: seq<byte>)
    ensures |s| == width
  {
    if width == 0 then [] else [value % 256] + LittleEndian(value / 256, width - 1)
  }

  function FromLittleEndian(s: seq<byte>): nat {
    if s == [] then 0 else s[0] + 256 * FromLittleEndian(s[1..])
  }

  lemma FieldLimits()
    ensures Pow256(2) == 0x1_0000 && Pow256(4) == U32_LIMIT && Pow256(8) == U64_LIMIT
  {
    assert Pow256(4) == 256 * (256 * (256 * (256 * Pow256(0))));
    assert Pow256(8) == 256 * (256 * (256 * (256 * Pow256(4))));
  }

  /** Decoding an encoded value that fits its field gives the value back. */
  lemma {:induction false} DecodeEncode(value: nat, width: nat)
    requires value < Pow256(width)
    ensures FromLittleEndian(LittleEndian(value, width)) == value
  {
    if width != 0 {
      DecodeEncode(value / 256, width - 1);
      assert LittleEndian(value, width)[1..] == LittleEndian(value / 256, width - 1);
    }
  }

  /** Encoding a decoded field gives its bytes back: a field's value pins every byte of it. */
  lemma {:induction false} EncodeDecode(s: seq<byte>)
    ensures FromLittleEndian(s) < Pow256(|s|)
    ensures LittleEndian(FromLittleEndian(s), |s|) == s
  {
    if s != [] {
      EncodeDecode(s[1..]);
      var rest := FromLittleEndian(s[1..]);
      QuotientIsUnique(s[0] + 256 * rest, 256, rest, s[0]);
      assert s == [s[0]] + s[1..];
    }
  }

  lemma {:induction false} AppendHighByte(s: seq<byte>, b: byte)
    ensures FromLittleEndian(s + [b]) == FromLittleEndian(s) + b * Pow256(|s|)
  {
    if s == [] {
      assert [b][1..] == [];
    } else {
      AppendHighByte(s[1..], b);
      assert (s + [b])[1..] == s[1..] + [b];
      assert 256 * (b * Pow256(|s| - 1)) == b * Pow256(|s|);
    }
  }

  lemma DivideTwice(value: nat, b: nat)
    requires b > 0
    ensures value / 256 / b == value / (256 * b)
  {
    var q := value / 256;
    var r' := q % b;
    assert value == (256 * b) * (q / b) + (256 * r' + value % 256) by {
      assert q == b * (q / b) + r';
      assert (256 * b) * (q / b) == 256 * (b * (q / b));
    }
    QuotientIsUnique(value, 256 * b, q / b, 256 * r' + value % 256);
  }

  lemma {:induction false} EncodedByteAt(value: nat, width: nat, i: nat)
    requires i < width
    ensures LittleEndian(value, width)[i] == value / Pow256(i) % 256
  {
    if i != 0 {
      EncodedByteAt(value / 256, width - 1, i - 1);
      DivideTwice(value, Pow256(i - 1));
    }
  }

  /** `put_u16`, `put_u32` and `put_u64`: one byte of the value per position, lowest first. */
  method PutField(destination: array<byte>, offset: nat, value: nat, width: nat)
    requires offset + width <= destination.Length
    modifies destination
    ensures destination[..] == Splice(old(destination[..]), offset, LittleEndian(value, width))
  {
    for index := 0 to width
      invariant forall i :: 0 <= i < destination.Length ==>
                  destination[i] == if offset <= i < offset + index then LittleEndian(value, width)[i - offset]
                                    else old(destination[i])
    {
      EncodedByteAt(value, width, index);
      destination[offset + index] := value / Pow256(index) % 256;
    }
  }

  /** `get_u16`, `get_u32` and `get_u64`. The fields joined by `|` are disjoint, so `|` is `+`. */
  method GetField(source: seq<byte>, offset: nat, width: nat) returns (value: nat)
    requires offset + width <= |source|
    ensures value == FromLittleEndian(source[offset..offset + width])
  {
    value := 0;
    for index := 0 to width
      invariant value == FromLittleEndian(source[offset..offset + index])
    {
      var b := source[offset + index];
      AppendHighByte(source[offset..offset + index], b);
      assert source[offset..offset + index] + [b] == source[offset..offset + (index + 1)];
      value := value + b * Pow256(index);
    }
  }
}
