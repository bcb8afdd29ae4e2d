/** Where a run of bytes lies in a larger one, and integers read from a position. */
module Layout {
  import opened Bytes

  ghost predicate At(payload: seq<byte>, position: nat, bytes: seq<byte>)
  {
    position + |bytes| <= |payload| && payload[position..position + |bytes|] == bytes
  }

  function Load(payload: seq<byte>, position: nat, width: nat, order: ByteOrder): (v: nat)
    requires position + width <= |payload|
  {
    Decode(payload[position..position + width], order)
  }

  lemma Split(payload: seq<byte>, position: nat, first: seq<byte>, second: seq<byte>)
    requires At(payload, position, first + second)
    ensures At(payload, position, first) && At(payload, position + |first|, second)
  {
    var all := payload[position..position + |first + second|];
    assert all[..|first|] == first && all[|first|..] == second;
  }

  lemma Join(payload: seq<byte>, position: nat, first: seq<byte>, second: seq<byte>)
    requires At(payload, position, first) && At(payload, position + |first|, second)
    ensures At(payload, position, first + second)
  {
    var all := payload[position..position + |first + second|];
    assert all == payload[position..position + |first|] + payload[position + |first|..position + |first| + |second|];
  }

  lemma SliceAt(payload: seq<byte>, position: nat, bytes: seq<byte>)
    requires At(payload, position, bytes)
    ensures position + |bytes| <= |payload| && payload[position..position + |bytes|] == bytes
  {}

  lemma SliceIsAt(payload: seq<byte>, from: nat, to: nat)
    requires from <= to <= |payload|
    ensures At(payload, from, payload[from..to])
  {}

  lemma ByteAt(payload: seq<byte>, position: nat, bytes: seq<byte>, i: nat)
    requires At(payload, position, bytes) && i < |bytes|
    ensures position + i < |payload| && payload[position + i] == bytes[i]
  {
    assert payload[position..position + |bytes|][i] == payload[position + i];
  }

  lemma BytesAt(payload: seq<byte>, position: nat, bytes: seq<byte>)
    requires position + |bytes| <= |payload| && forall i: nat :: i < |bytes| ==> payload[position + i] == bytes[i]
    ensures At(payload, position, bytes)
  {}

  /** What was stored is loaded back. */
  lemma LoadBack(payload: seq<byte>, position: nat, v: nat, width: nat, order: ByteOrder)
    requires v < Pow256(width) && At(payload, position, Encode(v, width, order))
    ensures position + width <= |payload| && Load(payload, position, width, order) == v
  {
    DecodeEncode(v, width, order);
  }

  /** What is loaded would be stored as the same bytes. */
  lemma Reencode(payload: seq<byte>, position: nat, width: nat, order: ByteOrder)
    requires position + width <= |payload|
    ensures At(payload, position, Encode(Load(payload, position, width, order), width, order))
    ensures Load(payload, position, width, order) < Pow256(width)
  {
    EncodeDecode(payload[position..position + width], order);
    DecodeBound(payload[position..position + width], order);
  }

  lemma LoadU32(payload: seq<byte>, position: nat, order: ByteOrder)
    requires position + 4 <= |payload|
    ensures Load(payload, position, 4, order) < 0x1_0000_0000
  {
    DecodeBound(payload[position..position + 4], order);
    Pow256Values();
  }
}
