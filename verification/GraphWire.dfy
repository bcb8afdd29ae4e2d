/** The graph snapshot on the wire: a 24-byte header, then node records, then endpoint records. */
module GraphWire {
  import opened Bytes
  import opened Layout
  import opened RtpsTypes

  const LOCAL_NODE_CAPACITY := 8
  const LOCAL_ENDPOINT_CAPACITY := 16
  const NODE_NAME_CAPACITY := 64
  const NAMESPACE_CAPACITY := 128
  const ENCLAVE_CAPACITY := 256
  const TOPIC_CAPACITY := 256
  const TYPE_CAPACITY := 256
  const WIRE_CAPACITY := 32768
  const HEADER_SIZE := 24
  const NODE_HEADER_SIZE := 16
  const ENDPOINT_HEADER_SIZE := 24

  datatype Node = Node(id: nat, name: seq<byte>, nameSpace: seq<byte>, enclave: seq<byte>)

  datatype Endpoint = Endpoint(
    nodeId: nat, entityId: EntityId, kind: byte, conventions: bool,
    rosTopic: seq<byte>, rosType: seq<byte>, ddsTopic: seq<byte>, ddsType: seq<byte>)

  datatype Error = InvalidArgument | InvalidRecord | CapacityExceeded | DuplicateRecord | RecordNotFound
                 | StaleSnapshot | MalformedSnapshot | BufferOverflow

  predicate TextFits(text: seq<byte>, capacity: nat)
  {
    0 < |text| < capacity
  }

  predicate ValidEntity(e: EntityId)
  {
    e != [0, 0, 0, 0]
  }

  /** What a node record must satisfy to be stored and to survive the wire. */
  predicate NodeOk(n: Node)
  {
    0 < n.id <= 0xFFFF_FFFF_FFFF_FFFF && TextFits(n.name, NODE_NAME_CAPACITY) &&
    TextFits(n.nameSpace, NAMESPACE_CAPACITY) && TextFits(n.enclave, ENCLAVE_CAPACITY)
  }

  predicate EndpointOk(e: Endpoint)
  {
    e.nodeId <= 0xFFFF_FFFF_FFFF_FFFF && ValidEntity(e.entityId) && (e.kind == 1 || e.kind == 2) &&
    TextFits(e.rosTopic, TOPIC_CAPACITY) && TextFits(e.rosType, TYPE_CAPACITY) &&
    TextFits(e.ddsTopic, TOPIC_CAPACITY) && TextFits(e.ddsType, TYPE_CAPACITY)
  }

  datatype Snapshot = Snapshot(generation: nat, nodes: seq<Node>, endpoints: seq<Endpoint>)

  /** A snapshot a peer can hold: bounded, with distinct records whose endpoints have owners. */
  ghost predicate SnapshotOk(s: Snapshot)
  {
    && 0 < s.generation <= INT64_MAX
    && |s.nodes| <= LOCAL_NODE_CAPACITY && |s.endpoints| <= LOCAL_ENDPOINT_CAPACITY
    && (forall i :: 0 <= i < |s.nodes| ==> NodeOk(s.nodes[i]))
    && (forall i :: 0 <= i < |s.endpoints| ==> EndpointOk(s.endpoints[i]) && HasNode(s.nodes, s.endpoints[i].nodeId))
    && (forall i, j :: 0 <= i < j < |s.nodes| ==> s.nodes[i].id != s.nodes[j].id)
    && (forall i, j :: 0 <= i < j < |s.endpoints| ==> s.endpoints[i].entityId != s.endpoints[j].entityId)
  }

  predicate HasNode(nodes: seq<Node>, id: nat)
  {
    exists i :: 0 <= i < |nodes| && nodes[i].id == id
  }

  predicate HasEntity(endpoints: seq<Endpoint>, e: EntityId)
  {
    exists i :: 0 <= i < |endpoints| && endpoints[i].entityId == e
  }

  // ---------------------------------------------------------------- encoding

  function U16(v: nat): (b: seq<byte>)
    ensures |b| == 2
  {
    Encode(v, 2, LittleEndian)
  }

  function U64(v: nat): (b: seq<byte>)
    ensures |b| == 8
  {
    Encode(v, 8, LittleEndian)
  }

  function EncodeNode(n: Node): (b: seq<byte>)
    ensures |b| == NODE_HEADER_SIZE + |n.name| + |n.nameSpace| + |n.enclave|
  {
    U64(n.id) + (U16(|n.name|) + (U16(|n.nameSpace|) + (U16(|n.enclave|) +
    ([0, 0] + (n.name + (n.nameSpace + n.enclave))))))
  }

  function EndpointFlags(e: Endpoint): (b: seq<byte>)
    ensures |b| == 4
  {
    [e.kind, if e.conventions then 1 else 0, 0, 0]
  }

  function EndpointTexts(e: Endpoint): (b: seq<byte>)
    ensures |b| == |e.rosTopic| + |e.rosType| + |e.ddsTopic| + |e.ddsType|
  {
    e.rosTopic + (e.rosType + (e.ddsTopic + e.ddsType))
  }

  function EndpointSizes(e: Endpoint): (b: seq<byte>)
    ensures |b| == 8
  {
    U16(|e.rosTopic|) + (U16(|e.rosType|) + (U16(|e.ddsTopic|) + U16(|e.ddsType|)))
  }

  function EncodeEndpoint(e: Endpoint): (b: seq<byte>)
    ensures |b| == ENDPOINT_HEADER_SIZE + |e.rosTopic| + |e.rosType| + |e.ddsTopic| + |e.ddsType|
  {
    U64(e.nodeId) + (e.entityId + (EndpointFlags(e) + (EndpointSizes(e) + EndpointTexts(e))))
  }

  function EncodeNodes(nodes: seq<Node>, n: nat): (b: seq<byte>)
    requires n <= |nodes|
  {
    if n == 0 then [] else EncodeNodes(nodes, n - 1) + EncodeNode(nodes[n - 1])
  }

  function EncodeEndpoints(endpoints: seq<Endpoint>, n: nat): (b: seq<byte>)
    requires n <= |endpoints|
  {
    if n == 0 then [] else EncodeEndpoints(endpoints, n - 1) + EncodeEndpoint(endpoints[n - 1])
  }

  const ENCAPSULATION: seq<byte> := [0, 1, 0, 0]
  const MAGIC: seq<byte> := ['O' as int, 'R' as int, 'T' as int, 'G' as int]
  const VERSION: byte := 1

  function EncodeHeader(s: Snapshot): (b: seq<byte>)
    ensures |b| == HEADER_SIZE
  {
    ENCAPSULATION + (MAGIC + ([VERSION, 0] + (U16(|s.nodes|) + (U16(|s.endpoints|) + ([0, 0] + U64(s.generation))))))
  }

  function EncodeSnapshot(s: Snapshot): (b: seq<byte>)
  {
    EncodeHeader(s) + (EncodeNodes(s.nodes, |s.nodes|) + EncodeEndpoints(s.endpoints, |s.endpoints|))
  }

  lemma {:induction false} NodesBound(nodes: seq<Node>, n: nat)
    requires n <= |nodes| && forall i :: 0 <= i < |nodes| ==> NodeOk(nodes[i])
    ensures |EncodeNodes(nodes, n)| <= n * 461
  {
    hide EncodeNode;
    if n > 0 {
      NodesBound(nodes, n - 1);
    }
  }

  lemma {:induction false} EndpointsBound(endpoints: seq<Endpoint>, n: nat)
    requires n <= |endpoints| && forall i :: 0 <= i < |endpoints| ==> EndpointOk(endpoints[i])
    ensures |EncodeEndpoints(endpoints, n)| <= n * 1044
  {
    hide EncodeEndpoint;
    if n > 0 {
      EndpointsBound(endpoints, n - 1);
    }
  }

  /** Every snapshot fits the wire buffer, with room to spare. */
  lemma SnapshotFits(s: Snapshot)
    requires SnapshotOk(s)
    ensures |EncodeSnapshot(s)| <= 20416 < WIRE_CAPACITY
  {
    NodesBound(s.nodes, |s.nodes|);
    EndpointsBound(s.endpoints, |s.endpoints|);
  }

  // ---------------------------------------------------------------- decoding

  function ReadInteger(payload: seq<byte>, position: nat, width: nat): (v: nat)
    requires position + width <= |payload|
  {
    Load(payload, position, width, LittleEndian)
  }

  /** A parsed item and the position after it. */
  datatype Parsed<+T> = Malformed | Item(end: nat, value: T)

  function ReadText(payload: seq<byte>, position: nat, size: nat, capacity: nat): (r: Parsed<seq<byte>>)
  {
    if size >= capacity || size == 0 || position + size > |payload| then Malformed
    else Item(position + size, payload[position..position + size])
  }

  function ReadNode(payload: seq<byte>, start: nat): (r: Parsed<Node>)
  {
    if start + NODE_HEADER_SIZE > |payload| then Malformed
    else
      var id := ReadInteger(payload, start, 8);
      if id == 0 || payload[start + 14] != 0 || payload[start + 15] != 0 then Malformed
      else
        var name := ReadText(payload, start + 16, ReadInteger(payload, start + 8, 2), NODE_NAME_CAPACITY);
        if name.Malformed? then Malformed
        else
          var nameSpace := ReadText(payload, name.end, ReadInteger(payload, start + 10, 2), NAMESPACE_CAPACITY);
          if nameSpace.Malformed? then Malformed
          else
            var enclave := ReadText(payload, nameSpace.end, ReadInteger(payload, start + 12, 2), ENCLAVE_CAPACITY);
            if enclave.Malformed? then Malformed
            else Item(enclave.end, Node(id, name.value, nameSpace.value, enclave.value))
  }

  function ReadEndpoint(payload: seq<byte>, nodes: seq<Node>, start: nat): (r: Parsed<Endpoint>)
  {
    if start + ENDPOINT_HEADER_SIZE > |payload| then Malformed
    else
      var nodeId := ReadInteger(payload, start, 8);
      var entityId: EntityId := payload[start + 8..start + 12];
      var kind := payload[start + 12];
      if !ValidEntity(entityId) || !HasNode(nodes, nodeId) || (kind != 1 && kind != 2) ||
         payload[start + 13] > 1 || payload[start + 14] != 0 || payload[start + 15] != 0
      then Malformed
      else
        var rosTopic := ReadText(payload, start + 24, ReadInteger(payload, start + 16, 2), TOPIC_CAPACITY);
        if rosTopic.Malformed? then Malformed
        else
          var rosType := ReadText(payload, rosTopic.end, ReadInteger(payload, start + 18, 2), TYPE_CAPACITY);
          if rosType.Malformed? then Malformed
          else
            var ddsTopic := ReadText(payload, rosType.end, ReadInteger(payload, start + 20, 2), TOPIC_CAPACITY);
            if ddsTopic.Malformed? then Malformed
            else
              var ddsType := ReadText(payload, ddsTopic.end, ReadInteger(payload, start + 22, 2), TYPE_CAPACITY);
              if ddsType.Malformed? then Malformed
              else
                Item(ddsType.end, Endpoint(nodeId, entityId, kind, payload[start + 13] == 1,
                                           rosTopic.value, rosType.value, ddsTopic.value, ddsType.value))
  }

  /** Records read so far, or the first error. */
  datatype Reading<+T> = Stopped(error: Error) | Read(end: nat, records: seq<T>)

  function ReadNodes(payload: seq<byte>, n: nat): (r: Reading<Node>)
    ensures r.Read? ==> |r.records| == n
  {
    if n == 0 then Read(HEADER_SIZE, [])
    else
      var before := ReadNodes(payload, n - 1);
      if before.Stopped? then before
      else
        var node := ReadNode(payload, before.end);
        if node.Malformed? then Stopped(MalformedSnapshot)
        else if HasNode(before.records, node.value.id) then Stopped(DuplicateRecord)
        else Read(node.end, before.records + [node.value])
  }

  function ReadEndpoints(payload: seq<byte>, nodes: seq<Node>, start: nat, n: nat): (r: Reading<Endpoint>)
    ensures r.Read? ==> |r.records| == n
  {
    if n == 0 then Read(start, [])
    else
      var before := ReadEndpoints(payload, nodes, start, n - 1);
      if before.Stopped? then before
      else
        var endpoint := ReadEndpoint(payload, nodes, before.end);
        if endpoint.Malformed? then Stopped(MalformedSnapshot)
        else if HasEntity(before.records, endpoint.value.entityId) then Stopped(DuplicateRecord)
        else Read(endpoint.end, before.records + [endpoint.value])
  }

  predicate HeaderOk(payload: seq<byte>, sequence: nat)
  {
    && |payload| >= HEADER_SIZE
    && payload[0..4] == ENCAPSULATION && payload[4..8] == MAGIC
    && payload[8] == VERSION && payload[9] == 0 && payload[14] == 0 && payload[15] == 0
    && ReadInteger(payload, 10, 2) <= LOCAL_NODE_CAPACITY && ReadInteger(payload, 12, 2) <= LOCAL_ENDPOINT_CAPACITY
    && 0 < ReadInteger(payload, 16, 8) <= INT64_MAX && ReadInteger(payload, 16, 8) == sequence
  }

  datatype Decoded = Refused(error: Error) | Accepted(snapshot: Snapshot)

  function DecodeSnapshot(payload: seq<byte>, sequence: nat): (r: Decoded)
  {
    if !HeaderOk(payload, sequence) then Refused(MalformedSnapshot)
    else
      var nodes := ReadNodes(payload, ReadInteger(payload, 10, 2));
      if nodes.Stopped? then Refused(nodes.error)
      else
        var endpoints := ReadEndpoints(payload, nodes.records, nodes.end, ReadInteger(payload, 12, 2));
        if endpoints.Stopped? then Refused(endpoints.error)
        else if endpoints.end != |payload| then Refused(MalformedSnapshot)
        else Accepted(Snapshot(ReadInteger(payload, 16, 8), nodes.records, endpoints.records))
  }

  // ---------------------------------------------------------------- round trip

  lemma ReadU16Back(payload: seq<byte>, position: nat, v: nat)
    requires v < 0x1_0000 && At(payload, position, U16(v))
    ensures position + 2 <= |payload| && ReadInteger(payload, position, 2) == v
  {
    Pow256Values();
    LoadBack(payload, position, v, 2, LittleEndian);
  }

  lemma ReadU64Back(payload: seq<byte>, position: nat, v: nat)
    requires v <= 0xFFFF_FFFF_FFFF_FFFF && At(payload, position, U64(v))
    ensures position + 8 <= |payload| && ReadInteger(payload, position, 8) == v
  {
    Pow256Values();
    LoadBack(payload, position, v, 8, LittleEndian);
  }

  function NodeTexts(n: Node): (b: seq<byte>)
    ensures |b| == |n.name| + |n.nameSpace| + |n.enclave|
  {
    n.name + (n.nameSpace + n.enclave)
  }

  lemma NodeHeaderBack(payload: seq<byte>, start: nat, n: Node)
    requires NodeOk(n) && At(payload, start, EncodeNode(n))
    ensures start + NODE_HEADER_SIZE <= |payload|
    ensures ReadInteger(payload, start, 8) == n.id && ReadInteger(payload, start + 8, 2) == |n.name|
    ensures ReadInteger(payload, start + 10, 2) == |n.nameSpace| && ReadInteger(payload, start + 12, 2) == |n.enclave|
    ensures payload[start + 14] == 0 && payload[start + 15] == 0 && At(payload, start + 16, NodeTexts(n))
  {
    hide At, U16, U64, ReadInteger;
    var texts := n.name + (n.nameSpace + n.enclave);
    var s3 := U16(|n.enclave|) + ([0, 0] + texts);
    var s2 := U16(|n.nameSpace|) + s3;
    var s1 := U16(|n.name|) + s2;
    Split(payload, start, U64(n.id), s1);
    Split(payload, start + 8, U16(|n.name|), s2);
    Split(payload, start + 10, U16(|n.nameSpace|), s3);
    Split(payload, start + 12, U16(|n.enclave|), [0, 0] + texts);
    Split(payload, start + 14, [0, 0], texts);
    ReadU64Back(payload, start, n.id);
    ReadU16Back(payload, start + 8, |n.name|);
    ReadU16Back(payload, start + 10, |n.nameSpace|);
    ReadU16Back(payload, start + 12, |n.enclave|);
    ByteAt(payload, start + 14, [0, 0], 0);
    ByteAt(payload, start + 14, [0, 0], 1);
  }

  lemma NodeRoundTrip(payload: seq<byte>, start: nat, n: Node)
    requires NodeOk(n) && At(payload, start, EncodeNode(n))
    ensures ReadNode(payload, start) == Item(start + |EncodeNode(n)|, n)
  {
    hide At, ReadInteger, EncodeNode, ReadText;
    NodeHeaderBack(payload, start, n);
    TextsRoundTrip(payload, start + 16, n.name, n.nameSpace + n.enclave);
    TextsRoundTrip(payload, start + 16 + |n.name|, n.nameSpace, n.enclave);
    assert n.enclave + [] == n.enclave;
    TextsRoundTrip(payload, start + 16 + |n.name| + |n.nameSpace|, n.enclave, []);
  }

  lemma TextsRoundTrip(payload: seq<byte>, position: nat, text: seq<byte>, rest: seq<byte>)
    requires At(payload, position, text + rest) && text != []
    ensures forall capacity :: |text| < capacity ==>
              ReadText(payload, position, |text|, capacity) == Item(position + |text|, text)
    ensures At(payload, position + |text|, rest)
  {
    Split(payload, position, text, rest);
  }

  lemma EndpointIdentityBack(payload: seq<byte>, start: nat, e: Endpoint)
    requires EndpointOk(e) && At(payload, start, EncodeEndpoint(e))
    ensures start + ENDPOINT_HEADER_SIZE <= |payload|
    ensures ReadInteger(payload, start, 8) == e.nodeId && payload[start + 8..start + 12] == e.entityId
    ensures payload[start + 12..start + 16] == EndpointFlags(e)
    ensures At(payload, start + 16, EndpointSizes(e) + EndpointTexts(e))
  {
    hide At, U64, ReadInteger, EndpointFlags, EndpointTexts, EndpointSizes;
    var rest := EndpointSizes(e) + EndpointTexts(e);
    Split(payload, start, U64(e.nodeId), e.entityId + (EndpointFlags(e) + rest));
    Split(payload, start + 8, e.entityId, EndpointFlags(e) + rest);
    Split(payload, start + 12, EndpointFlags(e), rest);
    ReadU64Back(payload, start, e.nodeId);
    SliceAt(payload, start + 8, e.entityId);
    SliceAt(payload, start + 12, EndpointFlags(e));
    SliceAt(payload, start + 16, rest);
  }

  lemma EndpointSizesBack(payload: seq<byte>, start: nat, e: Endpoint)
    requires EndpointOk(e) && At(payload, start, EndpointSizes(e) + EndpointTexts(e)) && start + 8 <= |payload|
    ensures ReadInteger(payload, start, 2) == |e.rosTopic| && ReadInteger(payload, start + 2, 2) == |e.rosType|
    ensures ReadInteger(payload, start + 4, 2) == |e.ddsTopic| && ReadInteger(payload, start + 6, 2) == |e.ddsType|
    ensures At(payload, start + 8, EndpointTexts(e))
  {
    hide At, U16, ReadInteger, EndpointTexts;
    Split(payload, start, EndpointSizes(e), EndpointTexts(e));
    Split(payload, start, U16(|e.rosTopic|), U16(|e.rosType|) + (U16(|e.ddsTopic|) + U16(|e.ddsType|)));
    Split(payload, start + 2, U16(|e.rosType|), U16(|e.ddsTopic|) + U16(|e.ddsType|));
    Split(payload, start + 4, U16(|e.ddsTopic|), U16(|e.ddsType|));
    ReadU16Back(payload, start, |e.rosTopic|);
    ReadU16Back(payload, start + 2, |e.rosType|);
    ReadU16Back(payload, start + 4, |e.ddsTopic|);
    ReadU16Back(payload, start + 6, |e.ddsType|);
  }

  lemma EndpointTextsBack(payload: seq<byte>, start: nat, e: Endpoint)
    requires EndpointOk(e) && At(payload, start, EndpointTexts(e))
    ensures var a := start + |e.rosTopic|; var b := a + |e.rosType|; var c := b + |e.ddsTopic|;
      && ReadText(payload, start, |e.rosTopic|, TOPIC_CAPACITY) == Item(a, e.rosTopic)
      && ReadText(payload, a, |e.rosType|, TYPE_CAPACITY) == Item(b, e.rosType)
      && ReadText(payload, b, |e.ddsTopic|, TOPIC_CAPACITY) == Item(c, e.ddsTopic)
      && ReadText(payload, c, |e.ddsType|, TYPE_CAPACITY) == Item(c + |e.ddsType|, e.ddsType)
  {
    hide At, ReadText, ValidEntity;
    TextsRoundTrip(payload, start, e.rosTopic, e.rosType + (e.ddsTopic + e.ddsType));
    TextsRoundTrip(payload, start + |e.rosTopic|, e.rosType, e.ddsTopic + e.ddsType);
    TextsRoundTrip(payload, start + |e.rosTopic| + |e.rosType|, e.ddsTopic, e.ddsType);
    assert e.ddsType + [] == e.ddsType;
    TextsRoundTrip(payload, start + |e.rosTopic| + |e.rosType| + |e.ddsTopic|, e.ddsType, []);
  }

  lemma FlagsBack(payload: seq<byte>, start: nat, e: Endpoint)
    requires start + 4 <= |payload| && payload[start..start + 4] == EndpointFlags(e)
    ensures payload[start] == e.kind && payload[start + 2] == 0 && payload[start + 3] == 0
    ensures payload[start + 1] == if e.conventions then 1 else 0
  {
    forall i: nat | i < 4 ensures payload[start + i] == EndpointFlags(e)[i] {
      assert payload[start..start + 4][i] == payload[start + i];
    }
    assert payload[start + 0] == EndpointFlags(e)[0];
  }

  lemma EndpointRoundTrip(payload: seq<byte>, nodes: seq<Node>, start: nat, e: Endpoint)
    requires EndpointOk(e) && HasNode(nodes, e.nodeId) && At(payload, start, EncodeEndpoint(e))
    ensures ReadEndpoint(payload, nodes, start) == Item(start + |EncodeEndpoint(e)|, e)
  {
    hide At, ReadText, ReadInteger, HasNode, ValidEntity, EncodeEndpoint, EndpointFlags, EndpointTexts, EndpointSizes;
    EndpointIdentityBack(payload, start, e);
    FlagsBack(payload, start + 12, e);
    EndpointSizesBack(payload, start + 16, e);
    EndpointTextsBack(payload, start + 24, e);
  }

  lemma {:induction false} NodesRoundTrip(payload: seq<byte>, nodes: seq<Node>, n: nat)
    requires n <= |nodes| && (forall i :: 0 <= i < |nodes| ==> NodeOk(nodes[i]))
    requires forall i, j :: 0 <= i < j < |nodes| ==> nodes[i].id != nodes[j].id
    requires At(payload, HEADER_SIZE, EncodeNodes(nodes, n))
    ensures ReadNodes(payload, n) == Read(HEADER_SIZE + |EncodeNodes(nodes, n)|, nodes[..n])
  {
    hide ReadNode, EncodeNode, NodeOk, At;
    if n > 0 {
      Split(payload, HEADER_SIZE, EncodeNodes(nodes, n - 1), EncodeNode(nodes[n - 1]));
      NodesRoundTrip(payload, nodes, n - 1);
      NodeRoundTrip(payload, HEADER_SIZE + |EncodeNodes(nodes, n - 1)|, nodes[n - 1]);
      assert nodes[..n] == nodes[..n - 1] + [nodes[n - 1]];
    }
  }

  lemma {:induction false} EndpointsRoundTrip(payload: seq<byte>, nodes: seq<Node>, start: nat,
                                              endpoints: seq<Endpoint>, n: nat)
    requires n <= |endpoints|
    requires forall i :: 0 <= i < |endpoints| ==> EndpointOk(endpoints[i]) && HasNode(nodes, endpoints[i].nodeId)
    requires forall i, j :: 0 <= i < j < |endpoints| ==> endpoints[i].entityId != endpoints[j].entityId
    requires At(payload, start, EncodeEndpoints(endpoints, n))
    ensures ReadEndpoints(payload, nodes, start, n) == Read(start + |EncodeEndpoints(endpoints, n)|, endpoints[..n])
  {
    hide ReadEndpoint, EncodeEndpoint, EndpointOk, HasNode, At;
    if n > 0 {
      Split(payload, start, EncodeEndpoints(endpoints, n - 1), EncodeEndpoint(endpoints[n - 1]));
      EndpointsRoundTrip(payload, nodes, start, endpoints, n - 1);
      EndpointRoundTrip(payload, nodes, start + |EncodeEndpoints(endpoints, n - 1)|, endpoints[n - 1]);
      assert endpoints[..n] == endpoints[..n - 1] + [endpoints[n - 1]];
    }
  }

  lemma HeaderRoundTrip(payload: seq<byte>, s: Snapshot)
    requires SnapshotOk(s) && At(payload, 0, EncodeHeader(s))
    ensures HeaderOk(payload, s.generation)
    ensures ReadInteger(payload, 10, 2) == |s.nodes| && ReadInteger(payload, 12, 2) == |s.endpoints|
    ensures ReadInteger(payload, 16, 8) == s.generation
  {
    hide At, U16, U64, ReadInteger;
    var tail: seq<byte> := [0, 0] + U64(s.generation);
    var counts := U16(|s.nodes|) + (U16(|s.endpoints|) + tail);
    Split(payload, 0, ENCAPSULATION, MAGIC + ([VERSION, 0] + counts));
    Split(payload, 4, MAGIC, [VERSION, 0] + counts);
    Split(payload, 8, [VERSION, 0], counts);
    Split(payload, 10, U16(|s.nodes|), U16(|s.endpoints|) + tail);
    Split(payload, 12, U16(|s.endpoints|), tail);
    Split(payload, 14, [0, 0], U64(s.generation));
    SliceAt(payload, 0, ENCAPSULATION);
    SliceAt(payload, 4, MAGIC);
    ByteAt(payload, 8, [VERSION, 0], 0);
    ByteAt(payload, 8, [VERSION, 0], 1);
    ReadU16Back(payload, 10, |s.nodes|);
    ReadU16Back(payload, 12, |s.endpoints|);
    ByteAt(payload, 14, [0, 0], 0);
    ByteAt(payload, 14, [0, 0], 1);
    ReadU64Back(payload, 16, s.generation);
  }

  /** What a sender encodes, a receiver that sees the matching sequence number decodes. */
  lemma SnapshotRoundTrip(s: Snapshot)
    requires SnapshotOk(s)
    ensures DecodeSnapshot(EncodeSnapshot(s), s.generation) == Accepted(s)
  {
    hide EncodeHeader, EncodeNodes, EncodeEndpoints, ReadNodes, ReadEndpoints, HeaderOk, ReadInteger;
    var payload := EncodeSnapshot(s);
    var nodes, endpoints := EncodeNodes(s.nodes, |s.nodes|), EncodeEndpoints(s.endpoints, |s.endpoints|);
    assert At(payload, 0, payload);
    Split(payload, 0, EncodeHeader(s), nodes + endpoints);
    Split(payload, HEADER_SIZE, nodes, endpoints);
    HeaderRoundTrip(payload, s);
    NodesRoundTrip(payload, s.nodes, |s.nodes|);
    EndpointsRoundTrip(payload, s.nodes, HEADER_SIZE + |nodes|, s.endpoints, |s.endpoints|);
    assert s.nodes[..|s.nodes|] == s.nodes && s.endpoints[..|s.endpoints|] == s.endpoints;
  }

  // ---------------------------------------------------------------- only encodings are accepted

  lemma ReencodeU16(payload: seq<byte>, position: nat)
    requires position + 2 <= |payload|
    ensures At(payload, position, U16(ReadInteger(payload, position, 2)))
  {
    Reencode(payload, position, 2, LittleEndian);
  }

  lemma ReencodeU64(payload: seq<byte>, position: nat)
    requires position + 8 <= |payload|
    ensures At(payload, position, U64(ReadInteger(payload, position, 8)))
    ensures ReadInteger(payload, position, 8) <= 0xFFFF_FFFF_FFFF_FFFF
  {
    Reencode(payload, position, 8, LittleEndian);
    Pow256Values();
  }

  lemma ReadTextIsAt(payload: seq<byte>, position: nat, size: nat, capacity: nat)
    requires ReadText(payload, position, size, capacity).Item?
    ensures var r := ReadText(payload, position, size, capacity);
            At(payload, position, r.value) && r.end == position + size && |r.value| == size &&
                TextFits(r.value, capacity)
  {}

  lemma NodeIsEncoding(payload: seq<byte>, start: nat)
    requires ReadNode(payload, start).Item?
    ensures var r := ReadNode(payload, start);
            NodeOk(r.value) && At(payload, start, EncodeNode(r.value)) && r.end == start + |EncodeNode(r.value)|
  {
    hide At, U16, U64, ReadInteger, ReadText, TextFits;
    var n := ReadNode(payload, start).value;
    var name := ReadInteger(payload, start + 8, 2);
    var nameSpace := ReadInteger(payload, start + 10, 2);
    var enclave := ReadInteger(payload, start + 12, 2);
    ReencodeU64(payload, start);
    ReencodeU16(payload, start + 8);
    ReencodeU16(payload, start + 10);
    ReencodeU16(payload, start + 12);
    BytesAt(payload, start + 14, [0, 0]);
    ReadTextIsAt(payload, start + 16, name, NODE_NAME_CAPACITY);
    ReadTextIsAt(payload, start + 16 + name, nameSpace, NAMESPACE_CAPACITY);
    ReadTextIsAt(payload, start + 16 + name + nameSpace, enclave, ENCLAVE_CAPACITY);
    Join(payload, start + 16 + name, n.nameSpace, n.enclave);
    var texts := n.name + (n.nameSpace + n.enclave);
    Join(payload, start + 16, n.name, n.nameSpace + n.enclave);
    Join(payload, start + 14, [0, 0], texts);
    Join(payload, start + 12, U16(enclave), [0, 0] + texts);
    Join(payload, start + 10, U16(nameSpace), U16(enclave) + ([0, 0] + texts));
    Join(payload, start + 8, U16(name), U16(nameSpace) + (U16(enclave) + ([0, 0] + texts)));
    Join(payload, start, U64(n.id), U16(name) + (U16(nameSpace) + (U16(enclave) + ([0, 0] + texts))));
  }

  lemma EndpointSizesAre(payload: seq<byte>, start: nat, e: Endpoint)
    requires start + 8 <= |payload|
    requires ReadInteger(payload, start, 2) == |e.rosTopic| && ReadInteger(payload, start + 2, 2) == |e.rosType|
    requires ReadInteger(payload, start + 4, 2) == |e.ddsTopic| && ReadInteger(payload, start + 6, 2) == |e.ddsType|
    ensures At(payload, start, EndpointSizes(e))
  {
    hide At, U16, ReadInteger;
    ReencodeU16(payload, start);
    ReencodeU16(payload, start + 2);
    ReencodeU16(payload, start + 4);
    ReencodeU16(payload, start + 6);
    Join(payload, start + 4, U16(|e.ddsTopic|), U16(|e.ddsType|));
    Join(payload, start + 2, U16(|e.rosType|), U16(|e.ddsTopic|) + U16(|e.ddsType|));
    Join(payload, start, U16(|e.rosTopic|), U16(|e.rosType|) + (U16(|e.ddsTopic|) + U16(|e.ddsType|)));
  }

  lemma EndpointTextsAre(payload: seq<byte>, start: nat, e: Endpoint)
    requires At(payload, start, e.rosTopic) && At(payload, start + |e.rosTopic|, e.rosType)
    requires At(payload, start + |e.rosTopic| + |e.rosType|, e.ddsTopic)
    requires At(payload, start + |e.rosTopic| + |e.rosType| + |e.ddsTopic|, e.ddsType)
    ensures At(payload, start, EndpointTexts(e))
  {
    hide At;
    Join(payload, start + |e.rosTopic| + |e.rosType|, e.ddsTopic, e.ddsType);
    Join(payload, start + |e.rosTopic|, e.rosType, e.ddsTopic + e.ddsType);
    Join(payload, start, e.rosTopic, e.rosType + (e.ddsTopic + e.ddsType));
  }

  lemma EndpointTextsRead(payload: seq<byte>, nodes: seq<Node>, start: nat)
    requires ReadEndpoint(payload, nodes, start).Item?
    ensures var r := ReadEndpoint(payload, nodes, start); var e := r.value;
      && At(payload, start + 24, EndpointTexts(e)) && At(payload, start + 16, EndpointSizes(e))
      && r.end == start + 24 + |EndpointTexts(e)|
      && TextFits(e.rosTopic, TOPIC_CAPACITY) && TextFits(e.rosType, TYPE_CAPACITY)
      && TextFits(e.ddsTopic, TOPIC_CAPACITY) && TextFits(e.ddsType, TYPE_CAPACITY)
  {
    hide At, ReadInteger, ReadText, TextFits, HasNode, ValidEntity, EndpointTexts, EndpointSizes;
    var e := ReadEndpoint(payload, nodes, start).value;
    var a, b := ReadInteger(payload, start + 16, 2), ReadInteger(payload, start + 18, 2);
    var c, d := ReadInteger(payload, start + 20, 2), ReadInteger(payload, start + 22, 2);
    ReadTextIsAt(payload, start + 24, a, TOPIC_CAPACITY);
    ReadTextIsAt(payload, start + 24 + a, b, TYPE_CAPACITY);
    ReadTextIsAt(payload, start + 24 + a + b, c, TOPIC_CAPACITY);
    ReadTextIsAt(payload, start + 24 + a + b + c, d, TYPE_CAPACITY);
    EndpointTextsAre(payload, start + 24, e);
    EndpointSizesAre(payload, start + 16, e);
  }

  lemma EndpointIdentityRead(payload: seq<byte>, nodes: seq<Node>, start: nat)
    requires ReadEndpoint(payload, nodes, start).Item?
    ensures var e := ReadEndpoint(payload, nodes, start).value;
      && At(payload, start, U64(e.nodeId)) && e.nodeId <= 0xFFFF_FFFF_FFFF_FFFF && HasNode(nodes, e.nodeId)
      && At(payload, start + 8, e.entityId) && ValidEntity(e.entityId)
      && At(payload, start + 12, EndpointFlags(e)) && (e.kind == 1 || e.kind == 2)
  {
    hide ReadInteger, ReadText, HasNode, ValidEntity, U64;
    ReencodeU64(payload, start);
    BytesAt(payload, start + 12, EndpointFlags(ReadEndpoint(payload, nodes, start).value));
  }

  lemma EndpointIsEncoding(payload: seq<byte>, nodes: seq<Node>, start: nat)
    requires ReadEndpoint(payload, nodes, start).Item?
    ensures var r := ReadEndpoint(payload, nodes, start);
            && EndpointOk(r.value) && HasNode(nodes, r.value.nodeId)
            && At(payload, start, EncodeEndpoint(r.value)) && r.end == start + |EncodeEndpoint(r.value)|
  {
    hide At, ReadEndpoint, TextFits, HasNode, ValidEntity, EndpointTexts, EndpointSizes, EndpointFlags, U64;
    var e := ReadEndpoint(payload, nodes, start).value;
    EndpointTextsRead(payload, nodes, start);
    EndpointIdentityRead(payload, nodes, start);
    var rest := EndpointSizes(e) + EndpointTexts(e);
    Join(payload, start + 16, EndpointSizes(e), EndpointTexts(e));
    Join(payload, start + 12, EndpointFlags(e), rest);
    Join(payload, start + 8, e.entityId, EndpointFlags(e) + rest);
    Join(payload, start, U64(e.nodeId), e.entityId + (EndpointFlags(e) + rest));
  }

  lemma {:induction false} NodesAreEncoding(payload: seq<byte>, n: nat)
    requires |payload| >= HEADER_SIZE && ReadNodes(payload, n).Read?
    ensures var r := ReadNodes(payload, n);
      && At(payload, HEADER_SIZE, EncodeNodes(r.records, n)) && r.end == HEADER_SIZE + |EncodeNodes(r.records, n)|
      && (forall i :: 0 <= i < n ==> NodeOk(r.records[i]))
      && (forall i, j :: 0 <= i < j < n ==> r.records[i].id != r.records[j].id)
  {
    hide ReadNode, EncodeNode, NodeOk;
    if n > 0 {
      NodesAreEncoding(payload, n - 1);
      var before, after := ReadNodes(payload, n - 1), ReadNodes(payload, n);
      NodeIsEncoding(payload, before.end);
      EncodeNodesPrefix(before.records, after.records, n - 1);
      Join(payload, HEADER_SIZE, EncodeNodes(after.records, n - 1), EncodeNode(after.records[n - 1]));
    }
  }

  lemma {:induction false} EncodeNodesPrefix(a: seq<Node>, b: seq<Node>, n: nat)
    requires n <= |a| && n <= |b| && a[..n] == b[..n]
    ensures EncodeNodes(a, n) == EncodeNodes(b, n)
  {
    hide EncodeNode;
    if n > 0 {
      assert a[n - 1] == a[..n][n - 1] == b[..n][n - 1] == b[n - 1];
      assert a[..n - 1] == a[..n][..n - 1] == b[..n][..n - 1] == b[..n - 1];
      EncodeNodesPrefix(a, b, n - 1);
    }
  }

  lemma {:induction false} EncodeEndpointsPrefix(a: seq<Endpoint>, b: seq<Endpoint>, n: nat)
    requires n <= |a| && n <= |b| && a[..n] == b[..n]
    ensures EncodeEndpoints(a, n) == EncodeEndpoints(b, n)
  {
    hide EncodeEndpoint;
    if n > 0 {
      assert a[n - 1] == a[..n][n - 1] == b[..n][n - 1] == b[n - 1];
      assert a[..n - 1] == a[..n][..n - 1] == b[..n][..n - 1] == b[..n - 1];
      EncodeEndpointsPrefix(a, b, n - 1);
    }
  }

  lemma {:induction false} EndpointsAreEncoding(payload: seq<byte>, nodes: seq<Node>, start: nat, n: nat)
    requires start <= |payload| && ReadEndpoints(payload, nodes, start, n).Read?
    ensures var r := ReadEndpoints(payload, nodes, start, n);
      && At(payload, start, EncodeEndpoints(r.records, n)) && r.end == start + |EncodeEndpoints(r.records, n)|
      && (forall i :: 0 <= i < n ==> EndpointOk(r.records[i]) && HasNode(nodes, r.records[i].nodeId))
      && (forall i, j :: 0 <= i < j < n ==> r.records[i].entityId != r.records[j].entityId)
  {
    hide ReadEndpoint, EncodeEndpoint, EndpointOk, HasNode;
    if n > 0 {
      EndpointsAreEncoding(payload, nodes, start, n - 1);
      var before, after := ReadEndpoints(payload, nodes, start, n - 1), ReadEndpoints(payload, nodes, start, n);
      EndpointIsEncoding(payload, nodes, before.end);
      EncodeEndpointsPrefix(before.records, after.records, n - 1);
      Join(payload, start, EncodeEndpoints(after.records, n - 1), EncodeEndpoint(after.records[n - 1]));
    }
  }

  lemma HeaderIsEncoding(payload: seq<byte>, sequence: nat, s: Snapshot)
    requires HeaderOk(payload, sequence)
    requires |s.nodes| == ReadInteger(payload, 10, 2) && |s.endpoints| == ReadInteger(payload, 12, 2)
    requires s.generation == ReadInteger(payload, 16, 8)
    ensures At(payload, 0, EncodeHeader(s))
  {
    hide At, U16, U64, ReadInteger;
    SliceIsAt(payload, 0, 4);
    SliceIsAt(payload, 4, 8);
    BytesAt(payload, 8, [VERSION, 0]);
    ReencodeU16(payload, 10);
    ReencodeU16(payload, 12);
    BytesAt(payload, 14, [0, 0]);
    ReencodeU64(payload, 16);
    var tail: seq<byte> := [0, 0] + U64(s.generation);
    var counts := U16(|s.nodes|) + (U16(|s.endpoints|) + tail);
    Join(payload, 14, [0, 0], U64(s.generation));
    Join(payload, 12, U16(|s.endpoints|), tail);
    Join(payload, 10, U16(|s.nodes|), U16(|s.endpoints|) + tail);
    Join(payload, 8, [VERSION, 0], counts);
    Join(payload, 4, MAGIC, [VERSION, 0] + counts);
    Join(payload, 0, ENCAPSULATION, MAGIC + ([VERSION, 0] + counts));
  }

  /** Whatever is accepted is a well-formed snapshot, and the payload is exactly its encoding. */
  lemma AcceptedIsEncoding(payload: seq<byte>, sequence: nat)
    requires DecodeSnapshot(payload, sequence).Accepted?
    ensures var s := DecodeSnapshot(payload, sequence).snapshot;
            SnapshotOk(s) && payload == EncodeSnapshot(s) && sequence == s.generation
  {
    hide EncodeHeader, EncodeNodes, EncodeEndpoints, ReadNodes, ReadEndpoints, ReadInteger, EndpointOk, NodeOk, HasNode;
    var s := DecodeSnapshot(payload, sequence).snapshot;
    NodesAreEncoding(payload, |s.nodes|);
    var middle := HEADER_SIZE + |EncodeNodes(s.nodes, |s.nodes|)|;
    EndpointsAreEncoding(payload, s.nodes, middle, |s.endpoints|);
    HeaderIsEncoding(payload, sequence, s);
    Join(payload, HEADER_SIZE, EncodeNodes(s.nodes, |s.nodes|), EncodeEndpoints(s.endpoints, |s.endpoints|));
    Join(payload, 0, EncodeHeader(s), EncodeNodes(s.nodes, |s.nodes|) + EncodeEndpoints(s.endpoints, |s.endpoints|));
  }

  /** A receiver accepts a payload for a snapshot exactly when it is that snapshot's encoding under its own number. */
  lemma DecodeIsExact(payload: seq<byte>, sequence: nat, s: Snapshot)
    ensures DecodeSnapshot(payload, sequence) == Accepted(s)
       <==> SnapshotOk(s) && payload == EncodeSnapshot(s) && sequence == s.generation
  {
    hide DecodeSnapshot, EncodeSnapshot, SnapshotOk;
    if DecodeSnapshot(payload, sequence) == Accepted(s) {
      AcceptedIsEncoding(payload, sequence);
    } else if SnapshotOk(s) && payload == EncodeSnapshot(s) && sequence == s.generation {
      SnapshotRoundTrip(s);
    }
  }
}
