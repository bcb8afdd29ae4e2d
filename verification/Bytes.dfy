/** Fixed-width unsigned integers as byte strings, in either byte order. */
module Bytes {

  type byte = x: int | 0 <= x < 0x100
  type u16 = x: int | 0 <= x < 0x1_0000
  type u32 = x: int | 0 <= x < 0x1_0000_0000
  type u64 = x: int | 0 <= x < 0x1_0000_0000_0000_0000

  /** The largest signed 64-bit value; RTPS sequence numbers stay at or below it. */
  const INT64_MAX := 0x7FFF_FFFF_FFFF_FFFF

  datatype ByteOrder = BigEndian | LittleEndian

  function Pow256(n: nat): (p: nat)
    ensures p > 0
  {
    if n == 0 then 1 else 256 * Pow256(n - 1)
  }

  lemma Pow256Values()
    ensures Pow256(1) == 0x100
    ensures Pow256(2) == 0x1_0000
    ensures Pow256(4) == 0x1_0000_0000
    ensures Pow256(8) == 0x1_0000_0000_0000_0000
  {
    assert Pow256(3) == 0x100_0000;
    assert Pow256(5) == 0x100_0000_0000;
    assert Pow256(6) == 0x1_0000_0000_0000;
    assert Pow256(7) == 0x100_0000_0000_0000;
  }

  function Encode(v: nat, width: nat, order: ByteOrder): (b: seq<byte>)
    ensures |b| == width
  {
    if width == 0 then []
    else match order
      case LittleEndian => [v % 256] + Encode(v / 256, width - 1, order)
      case BigEndian => Encode(v / 256, width - 1, order) + [v % 256]
  }

  function Decode(b: seq<byte>, order: ByteOrder): (v: nat)
  {
    if b == [] then 0
    else match order
      case LittleEndian => b[0] + 256 * Decode(b[1..], order)
      case BigEndian => 256 * Decode(b[..|b| - 1], order) + b[|b| - 1]
  }

  lemma {:induction false} DecodeBound(b: seq<byte>, order: ByteOrder)
    ensures Decode(b, order) < Pow256(|b|)
  {
    if b != [] {
      DecodeBound(if order == LittleEndian then b[1..] else b[..|b| - 1], order);
    }
  }

  /** Reading back what was written gives the value, whenever it fits. */
  lemma {:induction false} DecodeEncode(v: nat, width: nat, order: ByteOrder)
    requires v < Pow256(width)
    ensures Decode(Encode(v, width, order), order) == v
  {
    if width > 0 {
      DecodeEncode(v / 256, width - 1, order);
      var b := Encode(v, width, order);
      if order == LittleEndian {
        assert b[1..] == Encode(v / 256, width - 1, order);
      } else {
        assert b[..width - 1] == Encode(v / 256, width - 1, order);
      }
    }
  }

  lemma LowByte(q: nat, r: byte)
    ensures (256 * q + r) % 256 == r
    ensures (256 * q + r) / 256 == q
  {}

  /** Writing back what was read gives the bytes: the encoding is a bijection. */
  lemma {:induction false} EncodeDecode(b: seq<byte>, order: ByteOrder)
    ensures Encode(Decode(b, order), |b|, order) == b
  {
    if b != [] {
      if order == LittleEndian {
        EncodeDecode(b[1..], order);
        FirstByteBack(b);
      } else {
        EncodeDecode(b[..|b| - 1], order);
        LastByteBack(b);
      }
    }
  }

  lemma {:induction false} FirstByteBack(b: seq<byte>)
    requires b != [] && Encode(Decode(b[1..], LittleEndian), |b| - 1, LittleEndian) == b[1..]
    ensures Encode(Decode(b, LittleEndian), |b|, LittleEndian) == b
  {
    LowByte(Decode(b[1..], LittleEndian), b[0]);
    assert b == [b[0]] + b[1..];
  }

  lemma {:induction false} LastByteBack(b: seq<byte>)
    requires b != [] && Encode(Decode(b[..|b| - 1], BigEndian), |b| - 1, BigEndian) == b[..|b| - 1]
    ensures Encode(Decode(b, BigEndian), |b|, BigEndian) == b
  {
    LowByte(Decode(b[..|b| - 1], BigEndian), b[|b| - 1]);
    assert b == b[..|b| - 1] + [b[|b| - 1]];
  }

  lemma DivDiv(v: nat, p: nat)
    requires p > 0
    ensures (v / 256) / p == v / (256 * p)
  {
    var q, r := v / (256 * p), v % (256 * p);
    assert v == (256 * p) * q + r;
    var a, c := r / 256, r % 256;
    assert v == 256 * (p * q + a) + c;
    assert v / 256 == p * q + a;
    assert a < p;
    DivUnique(p * q + a, p, q, a);
  }

  lemma DivUnique(v: nat, p: nat, q: nat, r: nat)
    requires r < p && v == p * q + r
    ensures v / p == q
  {
    var d := v / p - q;
    assert v == p * (v / p) + v % p;
    assert p * d == r - v % p;
    assert d >= 1 ==> p * d >= p;
    assert d <= -1 ==> p * d + p <= 0;
  }

  /** Byte `i` is the value shifted right by its place and masked to eight bits. */
  lemma {:induction false} EncodeAt(v: nat, width: nat, order: ByteOrder, i: nat)
    requires i < width
    ensures Encode(v, width, order)[i]
            == (v / Pow256(if order == LittleEndian then i else width - 1 - i)) % 256
  {
    var k := if order == LittleEndian then i else width - 1 - i;
    if k > 0 {
      EncodeAt(v / 256, width - 1, order, if order == LittleEndian then i - 1 else i);
      DivDiv(v, Pow256(k - 1));
    }
  }
}
