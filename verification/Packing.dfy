/** Bytes and their bits, most significant bit first. */
module Packing {
  import opened Gf2

  type Byte = bv8

  /** The mask of bit k of a byte, counted from the most significant one. */
  function Mask(k: nat): (m: Byte)
    requires k < 8
    ensures m != 0
  {
    if k == 0 then 0x80 else if k == 1 then 0x40 else if k == 2 then 0x20 else if k == 3 then 0x10
    else if k == 4 then 0x08 else if k == 5 then 0x04 else if k == 6 then 0x02 else 0x01
  }

  predicate BitOf(b: Byte, k: nat)
    requires k < 8
  {
    b & Mask(k) != 0
  }

  /** Bit i of a packed byte string. */
  predicate PackedBit(s: seq<Byte>, i: nat)
    requires i < 8 * |s|
  {
    BitOf(s[i / 8], i % 8)
  }

  /** All bits of a packed byte string. */
  function Unpacked(s: seq<Byte>): (b: Bits)
    ensures |b| == 8 * |s| && forall i :: 0 <= i < |b| ==> b[i] == PackedBit(s, i)
  {
    seq(8 * |s|, i requires 0 <= i < 8 * |s| => PackedBit(s, i))
  }

  /** The rolling mask: one position on, or the first of the next byte. */
  lemma MaskStep(k: nat)
    requires k < 8
    ensures k < 7 ==> Mask(k) >> 1 == Mask(k + 1)
    ensures k == 7 ==> Mask(k) >> 1 == 0
  {
  }

  /** Setting a bit leaves the other bits alone. */
  lemma OrMask(b: Byte, k: nat, j: nat)
    requires k < 8 && j < 8
    ensures BitOf(b | Mask(k), j) == (BitOf(b, j) || j == k)
  {
    var bits := b | Mask(k);
    if k == 0 {} else if k == 1 {} else if k == 2 {} else if k == 3 {}
    else if k == 4 {} else if k == 5 {} else if k == 6 {} else {}
  }

  lemma BytesFromBits(a: Byte, b: Byte)
    requires forall k :: 0 <= k < 8 ==> BitOf(a, k) == BitOf(b, k)
    ensures a == b
  {
    assert BitOf(a, 0) == BitOf(b, 0) && BitOf(a, 1) == BitOf(b, 1) && BitOf(a, 2) == BitOf(b, 2);
    assert BitOf(a, 3) == BitOf(b, 3) && BitOf(a, 4) == BitOf(b, 4) && BitOf(a, 5) == BitOf(b, 5);
    assert BitOf(a, 6) == BitOf(b, 6) && BitOf(a, 7) == BitOf(b, 7);
    BytesEqual(a, b);
  }

  lemma BytesEqual(a: Byte, b: Byte)
    requires (a & 0x80 != 0) == (b & 0x80 != 0) && (a & 0x40 != 0) == (b & 0x40 != 0)
    requires (a & 0x20 != 0) == (b & 0x20 != 0) && (a & 0x10 != 0) == (b & 0x10 != 0)
    requires (a & 0x08 != 0) == (b & 0x08 != 0) && (a & 0x04 != 0) == (b & 0x04 != 0)
    requires (a & 0x02 != 0) == (b & 0x02 != 0) && (a & 0x01 != 0) == (b & 0x01 != 0)
    ensures a == b
  {
  }

  /** A byte string is determined by its bits. */
  lemma UnpackedInjective(s: seq<Byte>, t: seq<Byte>)
    requires |s| == |t| && Unpacked(s) == Unpacked(t)
    ensures s == t
  {
    forall j | 0 <= j < |s| ensures s[j] == t[j] {
      forall k | 0 <= k < 8 ensures BitOf(s[j], k) == BitOf(t[j], k) {
        var i := 8 * j + k;
        assert i / 8 == j && i % 8 == k;
        assert Unpacked(s)[i] == Unpacked(t)[i];
      }
      BytesFromBits(s[j], t[j]);
    }
  }

  /** Setting bit i of the string. */
  lemma SetBit(s: seq<Byte>, i: nat)
    requires i < 8 * |s|
    ensures Unpacked(s[i / 8 := s[i / 8] | Mask(i % 8)]) == Unpacked(s)[i := true]
  {
    var t := s[i / 8 := s[i / 8] | Mask(i % 8)];
    forall j | 0 <= j < 8 * |s| ensures PackedBit(t, j) == (PackedBit(s, j) || j == i) {
      if j / 8 == i / 8 {
        OrMask(s[i / 8], i % 8, j % 8);
      }
    }
  }

  /** The number of bytes that hold n bits. */
  function ByteCount(n: nat): nat {
    (n + 7) / 8
  }

  /** The first i of 8*total bits are packed; the rest are still zero. */
  ghost predicate PackedUpTo(s: seq<Byte>, bits: Bits, i: nat, total: nat) {
    && i <= 8 * total && total <= |s| && i <= |bits|
    && (forall j :: 0 <= j < i ==> PackedBit(s, j) == bits[j])
    && (forall j :: i <= j < 8 * total ==> !PackedBit(s, j))
  }

  lemma PackSet(s: seq<Byte>, bits: Bits, i: nat, total: nat)
    requires PackedUpTo(s, bits, i, total) && i < |bits| && i < 8 * total
    ensures bits[i] ==> PackedUpTo(s[i / 8 := s[i / 8] | Mask(i % 8)], bits, i + 1, total)
    ensures !bits[i] ==> PackedUpTo(s, bits, i + 1, total)
  {
    if bits[i] {
      var t := s[i / 8 := s[i / 8] | Mask(i % 8)];
      SetBit(s, i);
      forall j | 0 <= j < 8 * |s| ensures PackedBit(t, j) == (PackedBit(s, j) || j == i) {
        assert PackedBit(t, j) == Unpacked(t)[j];
        assert PackedBit(s, j) == Unpacked(s)[j];
      }
    }
  }

  lemma PackNothing(s: seq<Byte>, bits: Bits, total: nat)
    requires total <= |s| && forall j :: 0 <= j < total ==> s[j] == 0
    ensures PackedUpTo(s, bits, 0, total)
  {
  }

  /** Pack bits into bytes through a rolling mask; the unused bits are zero. */
  method PackBits(bits: Bits, numBits: nat, packed: array<Byte>)
    requires numBits <= |bits| && ByteCount(numBits) <= packed.Length
    modifies packed
    ensures PackedUpTo(packed[..], bits, numBits, ByteCount(numBits))
    ensures packed[ByteCount(numBits)..] == old(packed[ByteCount(numBits)..])
  {
    hide PackedUpTo;
    var numBytes := ByteCount(numBits);
    var i := 0;
    while i < numBytes
      invariant 0 <= i <= numBytes
      invariant forall j :: 0 <= j < i ==> packed[..][j] == 0
      invariant packed[numBytes..] == old(packed[numBytes..])
    {
      packed[i] := 0;
      i := i + 1;
    }
    PackNothing(packed[..], bits, numBytes);
    var mask: Byte, byteIdx := 0x80, 0;
    i := 0;
    while i < numBits
      invariant 0 <= i <= numBits && byteIdx == i / 8 && mask == Mask(i % 8)
      invariant PackedUpTo(packed[..], bits, i, numBytes)
      invariant packed[numBytes..] == old(packed[numBytes..])
    {
      PackSet(packed[..], bits, i, numBytes);
      if bits[i] {
        packed[byteIdx] := packed[byteIdx] | mask;
      }
      MaskStep(i % 8);
      mask := mask >> 1;
      if mask == 0 {
        mask := 0x80;
        byteIdx := byteIdx + 1;
      }
      i := i + 1;
    }
  }

  lemma PackedFromBits(s: seq<Byte>, bits: Bits, n: nat, total: nat)
    requires n <= 8 * total && total <= |s| && n <= |bits|
    requires Unpacked(s)[..n] == bits[..n] && forall j :: n <= j < 8 * total ==> !Unpacked(s)[j]
    ensures PackedUpTo(s, bits, n, total)
  {
    hide BitOf;
    forall j | 0 <= j < n ensures PackedBit(s, j) == bits[j] {
      assert Unpacked(s)[..n][j] == bits[..n][j];
    }
  }
}
