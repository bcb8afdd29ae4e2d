/** Filling a byte buffer from its start. */
module BufferWriter {
  import opened Bytes

  /** The buffer holds `bytes` from its start. */
  ghost predicate Starts(output: array<byte>, bytes: seq<byte>)
    reads output
  {
    |bytes| <= output.Length && output[..|bytes|] == bytes
  }

  method StartAt(output: array<byte>) returns (end: nat)
    ensures end == 0 && Starts(output, [])
  {
    end := 0;
  }

  method PutBytes(output: array<byte>, ghost before: seq<byte>, position: nat, bytes: seq<byte>) returns (end: nat)
    requires Starts(output, before) && position == |before| && position + |bytes| <= output.Length
    modifies output
    ensures Starts(output, before + bytes) && end == |before + bytes|
  {
    for i := 0 to |bytes|
      invariant forall j :: 0 <= j < position ==> output[j] == before[j]
      invariant forall j :: 0 <= j < i ==> output[position + j] == bytes[j]
    {
      output[position + i] := bytes[i];
    }
    end := position + |bytes|;
    assert output[..end] == before + bytes;
  }

  /** Store an integer byte by byte, shifting by the byte's place in the chosen order. */
  method PutInteger(output: array<byte>, ghost before: seq<byte>, position: nat, value: nat, width: nat,
                    order: ByteOrder)
    returns (end: nat)
    requires Starts(output, before) && position == |before| && position + width <= output.Length
    modifies output
    ensures Starts(output, before + Encode(value, width, order)) && end == |before| + width
  {
    for i := 0 to width
      invariant forall j :: 0 <= j < position ==> output[j] == before[j]
      invariant forall j :: 0 <= j < i ==> output[position + j] == Encode(value, width, order)[j]
    {
      var shift := if order == LittleEndian then i else width - 1 - i;
      EncodeAt(value, width, order, i);
      output[position + i] := (value / Pow256(shift)) % 256;
    }
    end := position + width;
    assert output[..end] == before + Encode(value, width, order);
  }

  lemma Assoc(a: seq<byte>, b: seq<byte>, c: seq<byte>)
    ensures a + b + c == a + (b + c)
  {}

  lemma StartsSlice(output: array<byte>, bytes: seq<byte>)
    requires Starts(output, bytes)
    ensures |bytes| <= output.Length && output[..|bytes|] == bytes
  {}
}
