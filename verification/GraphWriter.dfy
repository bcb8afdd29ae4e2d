/** Writing snapshot records into a byte buffer, field after field. */
module GraphWriter {
  import opened Bytes
  import opened BufferWriter
  import opened GraphWire

  method PutU16(output: array<byte>, ghost before: seq<byte>, position: nat, value: nat) returns (end: nat)
    requires Starts(output, before) && position == |before| && position + 2 <= output.Length
    modifies output
    ensures Starts(output, before + U16(value)) && end == |before| + 2
  {
    end := PutInteger(output, before, position, value, 2, LittleEndian);
  }

  method PutU64(output: array<byte>, ghost before: seq<byte>, position: nat, value: nat) returns (end: nat)
    requires Starts(output, before) && position == |before| && position + 8 <= output.Length
    modifies output
    ensures Starts(output, before + U64(value)) && end == |before| + 8
  {
    end := PutInteger(output, before, position, value, 8, LittleEndian);
  }

  method PutHeader(output: array<byte>, s: Snapshot) returns (end: nat)
    requires HEADER_SIZE <= output.Length
    modifies output
    ensures Starts(output, EncodeHeader(s)) && end == HEADER_SIZE
  {
    hide Starts, U16, U64;
    ghost var b: seq<byte> := [];
    end := StartAt(output);
    end := PutBytes(output, b, end, ENCAPSULATION);
    b := b + ENCAPSULATION;
    end := PutBytes(output, b, end, MAGIC);
    b := b + MAGIC;
    end := PutBytes(output, b, end, [VERSION, 0]);
    b := b + [VERSION, 0];
    end := PutU16(output, b, end, |s.nodes|);
    b := b + U16(|s.nodes|);
    end := PutU16(output, b, end, |s.endpoints|);
    b := b + U16(|s.endpoints|);
    end := PutBytes(output, b, end, [0, 0]);
    b := b + [0, 0];
    end := PutU64(output, b, end, s.generation);
    b := b + U64(s.generation);
    assert b == EncodeHeader(s);
  }

  method PutNode(output: array<byte>, ghost before: seq<byte>, position: nat, n: Node) returns (end: nat)
    requires Starts(output, before) && position == |before| && position + |EncodeNode(n)| <= output.Length
    modifies output
    ensures Starts(output, before + EncodeNode(n)) && end == |before + EncodeNode(n)|
  {
    hide Starts, U16, U64, EncodeNode;
    ghost var b := before;
    NodeParts(before, n);
    end := PutU64(output, b, position, n.id);
    b := b + U64(n.id);
    end := PutU16(output, b, end, |n.name|);
    b := b + U16(|n.name|);
    end := PutU16(output, b, end, |n.nameSpace|);
    b := b + U16(|n.nameSpace|);
    end := PutU16(output, b, end, |n.enclave|);
    b := b + U16(|n.enclave|);
    end := PutBytes(output, b, end, [0, 0]);
    b := b + [0, 0];
    end := PutBytes(output, b, end, n.name);
    b := b + n.name;
    end := PutBytes(output, b, end, n.nameSpace);
    b := b + n.nameSpace;
    end := PutBytes(output, b, end, n.enclave);
    b := b + n.enclave;
  }

  lemma NodeParts(before: seq<byte>, n: Node)
    ensures before + EncodeNode(n) == before + U64(n.id) + U16(|n.name|) + U16(|n.nameSpace|) + U16(|n.enclave|)
                                    + [0, 0] + n.name + n.nameSpace + n.enclave
  {
    hide U16, U64;
    var texts := n.name + (n.nameSpace + n.enclave);
    var sizes := U16(|n.name|) + (U16(|n.nameSpace|) + (U16(|n.enclave|) + ([0, 0] + texts)));
    assert before + U64(n.id) + sizes == before + EncodeNode(n);
    var front := before + U64(n.id);
    assert front + sizes == front + U16(|n.name|) + U16(|n.nameSpace|) + U16(|n.enclave|) + [0, 0] + texts;
  }

  method PutTexts(output: array<byte>, ghost before: seq<byte>, position: nat, e: Endpoint) returns (end: nat)
    requires Starts(output, before) && position == |before| && position + |EndpointTexts(e)| <= output.Length
    modifies output
    ensures Starts(output, before + EndpointTexts(e)) && end == |before + EndpointTexts(e)|
  {
    hide Starts;
    ghost var b := before;
    end := PutBytes(output, b, position, e.rosTopic);
    b := b + e.rosTopic;
    end := PutBytes(output, b, end, e.rosType);
    b := b + e.rosType;
    end := PutBytes(output, b, end, e.ddsTopic);
    b := b + e.ddsTopic;
    end := PutBytes(output, b, end, e.ddsType);
    b := b + e.ddsType;
    assert b == before + EndpointTexts(e);
  }

  method PutSizes(output: array<byte>, ghost before: seq<byte>, position: nat, e: Endpoint) returns (end: nat)
    requires Starts(output, before) && position == |before| && position + 8 <= output.Length
    modifies output
    ensures Starts(output, before + EndpointSizes(e)) && end == |before| + 8
  {
    hide Starts, U16;
    ghost var b := before;
    end := PutU16(output, b, position, |e.rosTopic|);
    b := b + U16(|e.rosTopic|);
    end := PutU16(output, b, end, |e.rosType|);
    b := b + U16(|e.rosType|);
    end := PutU16(output, b, end, |e.ddsTopic|);
    b := b + U16(|e.ddsTopic|);
    end := PutU16(output, b, end, |e.ddsType|);
    b := b + U16(|e.ddsType|);
    assert b == before + EndpointSizes(e);
  }

  method PutEndpoint(output: array<byte>, ghost before: seq<byte>, position: nat, e: Endpoint) returns (end: nat)
    requires Starts(output, before) && position == |before| && position + |EncodeEndpoint(e)| <= output.Length
    modifies output
    ensures Starts(output, before + EncodeEndpoint(e)) && end == |before + EncodeEndpoint(e)|
  {
    hide Starts, U64, EndpointSizes, EndpointTexts;
    ghost var b := before;
    end := PutU64(output, b, position, e.nodeId);
    b := b + U64(e.nodeId);
    end := PutBytes(output, b, end, e.entityId);
    b := b + e.entityId;
    end := PutBytes(output, b, end, [e.kind, if e.conventions then 1 else 0, 0, 0]);
    b := b + EndpointFlags(e);
    end := PutSizes(output, b, end, e);
    b := b + EndpointSizes(e);
    end := PutTexts(output, b, end, e);
    b := b + EndpointTexts(e);
    assert b == before + EncodeEndpoint(e);
  }

  lemma {:induction false} NodesGrow(nodes: seq<Node>, m: nat, n: nat)
    requires m <= n <= |nodes|
    ensures |EncodeNodes(nodes, m)| <= |EncodeNodes(nodes, n)|
    decreases n
  {
    hide EncodeNode;
    if m < n {
      NodesGrow(nodes, m, n - 1);
    }
  }

  lemma {:induction false} EndpointsGrow(endpoints: seq<Endpoint>, m: nat, n: nat)
    requires m <= n <= |endpoints|
    ensures |EncodeEndpoints(endpoints, m)| <= |EncodeEndpoints(endpoints, n)|
    decreases n
  {
    hide EncodeEndpoint;
    if m < n {
      EndpointsGrow(endpoints, m, n - 1);
    }
  }

  /** Append node records until one does not fit. */
  method PutNodes(output: array<byte>, ghost before: seq<byte>, capacity: nat, position: nat, nodes: seq<Node>)
    returns (ok: bool, end: nat)
    requires Starts(output, before) && position == |before| <= capacity <= output.Length
    modifies output
    ensures ok <==> |before| + |EncodeNodes(nodes, |nodes|)| <= capacity
    ensures ok ==> Starts(output, before + EncodeNodes(nodes, |nodes|)) && end == |before + EncodeNodes(nodes, |nodes|)|
  {
    hide Starts, EncodeNode;
    end := position;
    assert before + [] == before;
    for index := 0 to |nodes|
      invariant Starts(output, before + EncodeNodes(nodes, index)) &&
          end == |before + EncodeNodes(nodes, index)| <= capacity
    {
      var node := nodes[index];
      NodesGrow(nodes, index + 1, |nodes|);
      if NODE_HEADER_SIZE + |node.name| + |node.nameSpace| + |node.enclave| > capacity - end {
        return false, 0;
      }
      end := PutNode(output, before + EncodeNodes(nodes, index), end, node);
      Assoc(before, EncodeNodes(nodes, index), EncodeNode(node));
    }
    return true, end;
  }

  /** Append endpoint records until one does not fit. */
  method PutEndpoints(output: array<byte>, ghost before: seq<byte>, capacity: nat, position: nat,
                      endpoints: seq<Endpoint>)
    returns (ok: bool, end: nat)
    requires Starts(output, before) && position == |before| <= capacity <= output.Length
    modifies output
    ensures ok <==> |before| + |EncodeEndpoints(endpoints, |endpoints|)| <= capacity
    ensures ok ==> Starts(output, before + EncodeEndpoints(endpoints, |endpoints|))
    ensures ok ==> end == |before + EncodeEndpoints(endpoints, |endpoints|)|
  {
    hide Starts, EncodeEndpoint;
    end := position;
    assert before + [] == before;
    for index := 0 to |endpoints|
      invariant Starts(output, before + EncodeEndpoints(endpoints, index))
      invariant end == |before + EncodeEndpoints(endpoints, index)| <= capacity
    {
      var e := endpoints[index];
      EndpointsGrow(endpoints, index + 1, |endpoints|);
      if ENDPOINT_HEADER_SIZE + |e.rosTopic| + |e.rosType| + |e.ddsTopic| + |e.ddsType| > capacity - end {
        return false, 0;
      }
      end := PutEndpoint(output, before + EncodeEndpoints(endpoints, index), end, e);
      Assoc(before, EncodeEndpoints(endpoints, index), EncodeEndpoint(e));
    }
    return true, end;
  }
}
