/** The bounded ROS graph: our own nodes and endpoints, and the latest snapshot of every known participant. */
module GraphCache {
  import opened Bytes
  import opened RtpsTypes
  import opened GraphSlots
  import opened GraphWire
  import opened GraphWriter
  import opened BufferWriter

  const NODE_CAPACITY := 136
  const ENDPOINT_CAPACITY := 48
  const REMOTE_CAPACITY := 16

  datatype Remote = Remote(prefix: GuidPrefix, generation: nat)

  datatype Cache = Cache(
    nodes: Slots<Node>, endpoints: Slots<Endpoint>, remotes: seq<Option<Remote>>,
    generation: nat, localGeneration: nat)

  datatype Update = Unchanged | Changed | Rejected

  predicate ValidPrefix(p: GuidPrefix)
  {
    exists i :: 0 <= i < 12 && p[i] != 0
  }

  function NextGeneration(g: nat): (r: nat)
  {
    if g >= INT64_MAX then 1 else g + 1
  }

  function Advanced(c: Cache, localChange: bool): (r: Cache)
  {
    c.(generation := NextGeneration(c.generation),
       localGeneration := if localChange then NextGeneration(c.localGeneration) else c.localGeneration)
  }

  /** A text argument is usable when the pointer is set and its length is positive and below the capacity. */
  predicate Usable(text: Option<seq<byte>>, capacity: nat)
  {
    text.Some? && TextFits(text.value, capacity)
  }

  predicate IsLocalNode(slot: Option<Tagged<Node>>, id: nat)
  {
    IsLocal(slot) && slot.value.body.id == id
  }

  predicate IsLocalEntity(slot: Option<Tagged<Endpoint>>, e: EntityId)
  {
    IsLocal(slot) && slot.value.body.entityId == e
  }

  predicate HasLocalNode(nodes: Slots<Node>, id: nat)
  {
    exists i :: 0 <= i < |nodes| && IsLocalNode(nodes[i], id)
  }

  predicate HasLocalOwner(nodes: Slots<Node>, p: GuidPrefix, id: nat)
  {
    exists i :: 0 <= i < |nodes| && IsLocalNode(nodes[i], id) && nodes[i].value.prefix == p
  }

  predicate HasLocalEntity(endpoints: Slots<Endpoint>, e: EntityId)
  {
    exists i :: 0 <= i < |endpoints| && IsLocalEntity(endpoints[i], e)
  }

  /** Some endpoint of ours still belongs to node `id`. */
  predicate LocalNodeInUse(endpoints: Slots<Endpoint>, id: nat)
  {
    exists i :: 0 <= i < |endpoints| && IsLocal(endpoints[i]) && endpoints[i].value.body.nodeId == id
  }

  function FirstLocalNode(nodes: Slots<Node>, id: nat, from: nat): (i: nat)
    requires from <= |nodes|
    ensures from <= i <= |nodes|
    ensures forall j :: from <= j < i ==> !IsLocalNode(nodes[j], id)
    ensures i < |nodes| ==> IsLocalNode(nodes[i], id)
    decreases |nodes| - from
  {
    if from == |nodes| || IsLocalNode(nodes[from], id) then from else FirstLocalNode(nodes, id, from + 1)
  }

  function FirstLocalEntity(endpoints: Slots<Endpoint>, e: EntityId, from: nat): (i: nat)
    requires from <= |endpoints|
    ensures from <= i <= |endpoints|
    ensures forall j :: from <= j < i ==> !IsLocalEntity(endpoints[j], e)
    ensures i < |endpoints| ==> IsLocalEntity(endpoints[i], e)
    decreases |endpoints| - from
  {
    if from == |endpoints| || IsLocalEntity(endpoints[from], e) then from else FirstLocalEntity(endpoints, e, from + 1)
  }

  // ---------------------------------------------------------------- operations on values

  function AddLocalNode(c: Cache, p: GuidPrefix, id: nat, name: Option<seq<byte>>, nameSpace: Option<seq<byte>>,
                        enclave: Option<seq<byte>>): (r: (Cache, Option<Error>))
  {
    if !ValidPrefix(p) || id == 0 then (c, Some(InvalidArgument))
    else if HasLocalNode(c.nodes, id) then (c, Some(DuplicateRecord))
    else if !Usable(name, NODE_NAME_CAPACITY) || !Usable(nameSpace, NAMESPACE_CAPACITY) ||
        !Usable(enclave, ENCLAVE_CAPACITY)
    then (c, Some(InvalidRecord))
    else if FirstFree(c.nodes, 0) == |c.nodes| then (c, Some(CapacityExceeded))
    else
      var record := Tagged(p, true, Node(id, name.value, nameSpace.value, enclave.value));
      (Advanced(c.(nodes := Insert(c.nodes, record)), true), None)
  }

  function RemoveLocalNode(c: Cache, id: nat): (r: (Cache, Option<Error>))
  {
    if LocalNodeInUse(c.endpoints, id) then (c, Some(InvalidRecord))
    else
      var i := FirstLocalNode(c.nodes, id, 0);
      if i == |c.nodes| then (c, Some(RecordNotFound))
      else (Advanced(c.(nodes := c.nodes[i := None]), true), None)
  }

  /** The texts an endpoint is announced with. */
  datatype Texts = Texts(rosTopic: Option<seq<byte>>, rosType: Option<seq<byte>>,
                         ddsTopic: Option<seq<byte>>, ddsType: Option<seq<byte>>)

  predicate UsableTexts(t: Texts)
  {
    Usable(t.rosTopic, TOPIC_CAPACITY) && Usable(t.rosType, TYPE_CAPACITY) &&
    Usable(t.ddsTopic, TOPIC_CAPACITY) && Usable(t.ddsType, TYPE_CAPACITY)
  }

  function AddLocalEndpoint(c: Cache, p: GuidPrefix, e: EntityId, id: nat, kind: byte, t: Texts, conventions: bool)
    : (r: (Cache, Option<Error>))
  {
    if !ValidPrefix(p) || !ValidEntity(e) || id == 0 || (kind != 1 && kind != 2) then (c, Some(InvalidArgument))
    else if !HasLocalOwner(c.nodes, p, id) then (c, Some(RecordNotFound))
    else if HasLocalEntity(c.endpoints, e) then (c, Some(DuplicateRecord))
    else if !UsableTexts(t) then (c, Some(InvalidRecord))
    else if FirstFree(c.endpoints, 0) == |c.endpoints| then (c, Some(CapacityExceeded))
    else
      var body := Endpoint(id, e, kind, conventions, t.rosTopic.value, t.rosType.value, t.ddsTopic.value,
                           t.ddsType.value);
      (Advanced(c.(endpoints := Insert(c.endpoints, Tagged(p, true, body))), true), None)
  }

  function RemoveLocalEndpoint(c: Cache, e: EntityId): (r: (Cache, Option<Error>))
  {
    var i := FirstLocalEntity(c.endpoints, e, 0);
    if i == |c.endpoints| then (c, Some(RecordNotFound))
    else (Advanced(c.(endpoints := c.endpoints[i := None]), true), None)
  }

  /** Where the generation of `p` is kept, or the table size. */
  function EntryOf(remotes: seq<Option<Remote>>, p: GuidPrefix, from: nat): (i: nat)
    requires from <= |remotes|
    ensures from <= i <= |remotes|
    ensures forall j :: from <= j < i ==> remotes[j].Some? ==> remotes[j].value.prefix != p
    ensures i < |remotes| ==> remotes[i].Some? && remotes[i].value.prefix == p
    decreases |remotes| - from
  {
    if from == |remotes| || (remotes[from].Some? && remotes[from].value.prefix == p) then from
    else EntryOf(remotes, p, from + 1)
  }

  /** The slot that will hold the generation of `p`: its own, else the first free one, else the table size. */
  function Destination(remotes: seq<Option<Remote>>, p: GuidPrefix): (i: nat)
    ensures i <= |remotes|
  {
    var own := EntryOf(remotes, p, 0);
    if own < |remotes| then own else FirstFree(remotes, 0)
  }

  /** The last accepted generation of `p`; zero when none is remembered. */
  function GenerationOf(remotes: seq<Option<Remote>>, p: GuidPrefix): (g: nat)
  {
    var own := EntryOf(remotes, p, 0);
    if own < |remotes| then remotes[own].value.generation else 0
  }

  /** Records that stay when `p` is replaced leave room for the snapshot. */
  predicate HasRoom(c: Cache, p: GuidPrefix, s: Snapshot)
  {
    Used(Cleared(c.nodes, p), |c.nodes|) + |s.nodes| <= |c.nodes| &&
    Used(Cleared(c.endpoints, p), |c.endpoints|) + |s.endpoints| <= |c.endpoints|
  }

  function Installed(c: Cache, p: GuidPrefix, s: Snapshot): (r: Cache)
    requires Destination(c.remotes, p) < |c.remotes|
  {
    Advanced(c.(nodes := InsertAll(Cleared(c.nodes, p), p, s.nodes, |s.nodes|),
                endpoints := InsertAll(Cleared(c.endpoints, p), p, s.endpoints, |s.endpoints|),
                remotes := c.remotes[Destination(c.remotes, p) := Some(Remote(p, s.generation))]), false)
  }

  /** Accepting a decoded snapshot: the outcome and the error reported with it. */
  function ApplySnapshot(c: Cache, p: GuidPrefix, s: Snapshot): (r: (Cache, Update, Option<Error>))
  {
    if EntryOf(c.remotes, p, 0) < |c.remotes| && s.generation <= GenerationOf(c.remotes, p)
    then (c, Unchanged, Some(StaleSnapshot))
    else if Destination(c.remotes, p) == |c.remotes| || !HasRoom(c, p, s) then (c, Rejected, Some(CapacityExceeded))
    else (Installed(c, p, s), Changed, None)
  }

  function ApplyRemote(c: Cache, p: GuidPrefix, payload: Option<seq<byte>>, sequence: nat)
    : (r: (Cache, Update, Option<Error>))
  {
    if !ValidPrefix(p) || payload.None? then (c, Rejected, Some(MalformedSnapshot))
    else
      var d := DecodeSnapshot(payload.value, sequence);
      if d.Refused? then (c, Rejected, Some(d.error)) else ApplySnapshot(c, p, d.snapshot)
  }

  predicate HasRemotes<T>(slots: Slots<T>, p: GuidPrefix)
  {
    exists i :: 0 <= i < |slots| && IsRemoteOf(slots[i], p)
  }

  function Forgotten(remotes: seq<Option<Remote>>, p: GuidPrefix): (r: seq<Option<Remote>>)
    ensures |r| == |remotes|
  {
    var own := EntryOf(remotes, p, 0);
    if own < |remotes| then remotes[own := None] else remotes
  }

  function RemoveRemote(c: Cache, p: GuidPrefix): (r: (Cache, Update))
  {
    var cleared := c.(nodes := Cleared(c.nodes, p), endpoints := Cleared(c.endpoints, p),
                      remotes := Forgotten(c.remotes, p));
    if HasRemotes(c.nodes, p) || HasRemotes(c.endpoints, p) then (Advanced(cleared, false), Changed)
    else (cleared, Unchanged)
  }

  /** What we announce to others. */
  function LocalSnapshot(c: Cache): (s: Snapshot)
  {
    Snapshot(c.localGeneration, LocalsOf(c.nodes, |c.nodes|), LocalsOf(c.endpoints, |c.endpoints|))
  }

  // ---------------------------------------------------------------- table methods

  method FindFree<T>(slots: array<Option<Tagged<T>>>) returns (i: nat)
    ensures i == FirstFree(slots[..], 0)
  {
    i := 0;
    while i < slots.Length && slots[i].Some?
      invariant i <= slots.Length
      invariant FirstFree(slots[..], 0) == FirstFree(slots[..], i)
    {
      i := i + 1;
    }
  }

  method InsertRemotes<T>(slots: array<Option<Tagged<T>>>, p: GuidPrefix, bodies: seq<T>)
    modifies slots
    ensures slots[..] == InsertAll(old(slots[..]), p, bodies, |bodies|)
  {
    for index := 0 to |bodies|
      invariant slots[..] == InsertAll(old(slots[..]), p, bodies, index)
    {
      var i := FindFree(slots);
      if i < slots.Length {
        slots[i] := Some(Tagged(p, false, bodies[index]));
      }
    }
  }

  method ClearRemotes<T>(slots: array<Option<Tagged<T>>>, p: GuidPrefix) returns (changed: bool)
    modifies slots
    ensures slots[..] == Cleared(old(slots[..]), p)
    ensures changed == HasRemotes(old(slots[..]), p)
  {
    changed := false;
    for i := 0 to slots.Length
      invariant forall j :: 0 <= j < i ==>
          slots[j] == if IsRemoteOf(old(slots[..])[j], p) then None else old(slots[..])[j]
      invariant forall j :: i <= j < slots.Length ==> slots[j] == old(slots[..])[j]
      invariant changed == exists j :: 0 <= j < i && IsRemoteOf(old(slots[..])[j], p)
    {
      if IsRemoteOf(slots[i], p) {
        slots[i] := None;
        changed := true;
      }
    }
  }

  /** How many records would stay if those of `p` were dropped. */
  method CountOthers<T>(slots: array<Option<Tagged<T>>>, p: GuidPrefix) returns (count: nat)
    ensures count == Used(Cleared(slots[..], p), slots.Length)
  {
    count := 0;
    for i := 0 to slots.Length
      invariant count == Used(Cleared(slots[..], p), i)
    {
      if slots[i].Some? && !IsRemoteOf(slots[i], p) {
        count := count + 1;
      }
    }
  }

  /** Our own records, in table order. */
  method Locals<T>(slots: array<Option<Tagged<T>>>) returns (r: seq<T>)
    ensures r == LocalsOf(slots[..], slots.Length)
  {
    r := [];
    for i := 0 to slots.Length
      invariant r == LocalsOf(slots[..], i)
    {
      if IsLocal(slots[i]) {
        r := r + [slots[i].value.body];
      }
    }
  }

  /** Which error, if any, announcing `s` into a buffer reports. */
  function SerializeError(s: Snapshot, present: bool, capacity: nat): (e: Option<Error>)
  {
    if !present || capacity < HEADER_SIZE then Some(InvalidArgument)
    else if |s.nodes| > LOCAL_NODE_CAPACITY || |s.endpoints| > LOCAL_ENDPOINT_CAPACITY then Some(CapacityExceeded)
    else if |EncodeSnapshot(s)| > capacity then Some(BufferOverflow)
    else None
  }

  // ---------------------------------------------------------------- parsing methods

  method ParseNodes(payload: seq<byte>, count: nat) returns (r: Reading<Node>)
    ensures r == ReadNodes(payload, count)
  {
    hide ReadNode;
    r := Read(HEADER_SIZE, []);
    var index := 0;
    while index < count
      invariant index <= count && r.Read? && r == ReadNodes(payload, index)
    {
      var node := ReadNode(payload, r.end);
      var duplicate := node.Item? && HasNode(r.records, node.value.id);
      index := index + 1;
      if node.Malformed? {
        StoppedNodes(payload, index, count);
        return Stopped(MalformedSnapshot);
      }
      if duplicate {
        StoppedNodes(payload, index, count);
        return Stopped(DuplicateRecord);
      }
      r := Read(node.end, r.records + [node.value]);
    }
  }

  lemma {:induction false} StoppedNodes(payload: seq<byte>, n: nat, count: nat)
    requires n <= count && ReadNodes(payload, n).Stopped?
    ensures ReadNodes(payload, count) == ReadNodes(payload, n)
    decreases count
  {
    hide ReadNode, HasNode;
    if n < count {
      StoppedNodes(payload, n, count - 1);
    }
  }

  method ParseEndpoints(payload: seq<byte>, nodes: seq<Node>, start: nat, count: nat) returns (r: Reading<Endpoint>)
    ensures r == ReadEndpoints(payload, nodes, start, count)
  {
    hide ReadEndpoint;
    r := Read(start, []);
    var index := 0;
    while index < count
      invariant index <= count && r.Read? && r == ReadEndpoints(payload, nodes, start, index)
    {
      var endpoint := ReadEndpoint(payload, nodes, r.end);
      var duplicate := endpoint.Item? && HasEntity(r.records, endpoint.value.entityId);
      index := index + 1;
      if endpoint.Malformed? {
        StoppedEndpoints(payload, nodes, start, index, count);
        return Stopped(MalformedSnapshot);
      }
      if duplicate {
        StoppedEndpoints(payload, nodes, start, index, count);
        return Stopped(DuplicateRecord);
      }
      r := Read(endpoint.end, r.records + [endpoint.value]);
    }
  }

  lemma {:induction false} StoppedEndpoints(payload: seq<byte>, nodes: seq<Node>, start: nat, n: nat, count: nat)
    requires n <= count && ReadEndpoints(payload, nodes, start, n).Stopped?
    ensures ReadEndpoints(payload, nodes, start, count) == ReadEndpoints(payload, nodes, start, n)
    decreases count
  {
    hide ReadEndpoint, HasEntity;
    if n < count {
      StoppedEndpoints(payload, nodes, start, n, count - 1);
    }
  }

  method ParseSnapshot(payload: seq<byte>, sequence: nat) returns (r: Decoded)
    ensures r == DecodeSnapshot(payload, sequence)
  {
    hide ReadNodes, ReadEndpoints;
    if !HeaderOk(payload, sequence) {
      return Refused(MalformedSnapshot);
    }
    var nodes := ParseNodes(payload, ReadInteger(payload, 10, 2));
    if nodes.Stopped? {
      return Refused(nodes.error);
    }
    var endpoints := ParseEndpoints(payload, nodes.records, nodes.end, ReadInteger(payload, 12, 2));
    if endpoints.Stopped? {
      return Refused(endpoints.error);
    }
    if endpoints.end != |payload| {
      return Refused(MalformedSnapshot);
    }
    return Accepted(Snapshot(ReadInteger(payload, 16, 8), nodes.records, endpoints.records));
  }

  // ---------------------------------------------------------------- the cache

  class GraphCache {
    const nodes: array<Option<Tagged<Node>>>
    const endpoints: array<Option<Tagged<Endpoint>>>
    const remotes: array<Option<Remote>>
    var generation: nat
    var localGeneration: nat

    function View(): (c: Cache)
      reads this, nodes, endpoints, remotes
    {
      Cache(nodes[..], endpoints[..], remotes[..], generation, localGeneration)
    }

    constructor ()
      ensures fresh(nodes) && fresh(endpoints) && fresh(remotes)
      ensures View() == Empty()
    {
      nodes := new Option<Tagged<Node>>[NODE_CAPACITY](_ => None);
      endpoints := new Option<Tagged<Endpoint>>[ENDPOINT_CAPACITY](_ => None);
      remotes := new Option<Remote>[REMOTE_CAPACITY](_ => None);
      generation, localGeneration := 1, 1;
    }

    method AdvanceGeneration(localChange: bool)
      modifies this
      ensures View() == Advanced(old(View()), localChange)
    {
      generation := if generation >= INT64_MAX then 1 else generation + 1;
      if localChange {
        localGeneration := if localGeneration >= INT64_MAX then 1 else localGeneration + 1;
      }
    }

    method AddNode(p: GuidPrefix, id: nat, name: Option<seq<byte>>, nameSpace: Option<seq<byte>>,
                   enclave: Option<seq<byte>>) returns (error: Option<Error>)
      modifies this, nodes
      ensures (View(), error) == AddLocalNode(old(View()), p, id, name, nameSpace, enclave)
    {
      if !ValidPrefix(p) || id == 0 {
        return Some(InvalidArgument);
      }
      for i := 0 to nodes.Length
        invariant forall j :: 0 <= j < i ==> !IsLocalNode(nodes[j], id)
      {
        if IsLocalNode(nodes[i], id) {
          assert IsLocalNode(nodes[..][i], id);
          return Some(DuplicateRecord);
        }
      }
      if !Usable(name, NODE_NAME_CAPACITY) || !Usable(nameSpace, NAMESPACE_CAPACITY) ||
          !Usable(enclave, ENCLAVE_CAPACITY) {
        return Some(InvalidRecord);
      }
      var i := FindFree(nodes);
      if i == nodes.Length {
        return Some(CapacityExceeded);
      }
      nodes[i] := Some(Tagged(p, true, Node(id, name.value, nameSpace.value, enclave.value)));
      AdvanceGeneration(true);
      return None;
    }

    method RemoveNode(id: nat) returns (error: Option<Error>)
      modifies this, nodes
      ensures (View(), error) == RemoveLocalNode(old(View()), id)
    {
      for i := 0 to endpoints.Length
        invariant forall j :: 0 <= j < i ==> !(IsLocal(endpoints[j]) && endpoints[j].value.body.nodeId == id)
      {
        if IsLocal(endpoints[i]) && endpoints[i].value.body.nodeId == id {
          assert IsLocal(endpoints[..][i]);
          return Some(InvalidRecord);
        }
      }
      for i := 0 to nodes.Length
        invariant FirstLocalNode(nodes[..], id, 0) == FirstLocalNode(nodes[..], id, i)
      {
        if IsLocalNode(nodes[i], id) {
          nodes[i] := None;
          AdvanceGeneration(true);
          return None;
        }
      }
      return Some(RecordNotFound);
    }

    method AddEndpoint(p: GuidPrefix, e: EntityId, id: nat, kind: byte, t: Texts, conventions: bool)
      returns (error: Option<Error>)
      modifies this, endpoints
      ensures (View(), error) == AddLocalEndpoint(old(View()), p, e, id, kind, t, conventions)
    {
      if !ValidPrefix(p) || !ValidEntity(e) || id == 0 || (kind != 1 && kind != 2) {
        return Some(InvalidArgument);
      }
      var owned := OwnerExists(p, id);
      if !owned {
        return Some(RecordNotFound);
      }
      for i := 0 to endpoints.Length
        invariant forall j :: 0 <= j < i ==> !IsLocalEntity(endpoints[j], e)
      {
        if IsLocalEntity(endpoints[i], e) {
          assert IsLocalEntity(endpoints[..][i], e);
          return Some(DuplicateRecord);
        }
      }
      if !UsableTexts(t) {
        return Some(InvalidRecord);
      }
      var i := FindFree(endpoints);
      if i == endpoints.Length {
        return Some(CapacityExceeded);
      }
      endpoints[i] := Some(Tagged(p, true, Endpoint(id, e, kind, conventions, t.rosTopic.value, t.rosType.value,
                                                    t.ddsTopic.value, t.ddsType.value)));
      AdvanceGeneration(true);
      return None;
    }

    method OwnerExists(p: GuidPrefix, id: nat) returns (found: bool)
      ensures found == HasLocalOwner(nodes[..], p, id)
    {
      for i := 0 to nodes.Length
        invariant forall j :: 0 <= j < i ==> !(IsLocalNode(nodes[j], id) && nodes[j].value.prefix == p)
      {
        if IsLocalNode(nodes[i], id) && nodes[i].value.prefix == p {
          assert IsLocalNode(nodes[..][i], id);
          return true;
        }
      }
      return false;
    }

    method RemoveEndpoint(e: EntityId) returns (error: Option<Error>)
      modifies this, endpoints
      ensures (View(), error) == RemoveLocalEndpoint(old(View()), e)
    {
      for i := 0 to endpoints.Length
        invariant FirstLocalEntity(endpoints[..], e, 0) == FirstLocalEntity(endpoints[..], e, i)
      {
        if IsLocalEntity(endpoints[i], e) {
          endpoints[i] := None;
          AdvanceGeneration(true);
          return None;
        }
      }
      return Some(RecordNotFound);
    }

    /** The slot already holding `p`, else the first free one, else the table size. */
    method FindEntry(p: GuidPrefix) returns (known: bool, entry: nat)
      ensures known <==> EntryOf(remotes[..], p, 0) < remotes.Length
      ensures entry == Destination(remotes[..], p)
    {
      var free := remotes.Length;
      var i := 0;
      while i < remotes.Length
        invariant i <= remotes.Length
        invariant EntryOf(remotes[..], p, 0) == EntryOf(remotes[..], p, i)
        invariant free < remotes.Length ==> free == FirstFree(remotes[..], 0)
        invariant free >= remotes.Length ==>
            free == remotes.Length && FirstFree(remotes[..], 0) == FirstFree(remotes[..], i)
      {
        if remotes[i].Some? && remotes[i].value.prefix == p {
          return true, i;
        }
        if remotes[i].None? && free == remotes.Length {
          free := i;
        }
        i := i + 1;
      }
      return false, free;
    }

    method Apply(p: GuidPrefix, payload: Option<seq<byte>>, sequence: nat)
      returns (update: Update, error: Option<Error>)
      modifies this, nodes, endpoints, remotes
      ensures (View(), update, error) == ApplyRemote(old(View()), p, payload, sequence)
    {
      hide DecodeSnapshot, InsertAll, Used, EntryOf, FirstFree;
      if !ValidPrefix(p) || payload.None? {
        return Rejected, Some(MalformedSnapshot);
      }
      var decoded := ParseSnapshot(payload.value, sequence);
      if decoded.Refused? {
        return Rejected, Some(decoded.error);
      }
      var s := decoded.snapshot;
      var known, entry := FindEntry(p);
      if known && s.generation <= remotes[entry].value.generation {
        return Unchanged, Some(StaleSnapshot);
      }
      if entry == remotes.Length {
        return Rejected, Some(CapacityExceeded);
      }
      var remainingNodes := CountOthers(nodes, p);
      var remainingEndpoints := CountOthers(endpoints, p);
      if |s.nodes| > nodes.Length - remainingNodes || |s.endpoints| > endpoints.Length - remainingEndpoints {
        return Rejected, Some(CapacityExceeded);
      }
      Install(p, s, entry);
      return Changed, None;
    }

    method Install(p: GuidPrefix, s: Snapshot, entry: nat)
      requires entry == Destination(remotes[..], p) < remotes.Length
      modifies this, nodes, endpoints, remotes
      ensures View() == Installed(old(View()), p, s)
    {
      hide InsertAll, EntryOf, FirstFree;
      var _ := ClearRemotes(nodes, p);
      var _ := ClearRemotes(endpoints, p);
      InsertRemotes(nodes, p, s.nodes);
      InsertRemotes(endpoints, p, s.endpoints);
      remotes[entry] := Some(Remote(p, s.generation));
      AdvanceGeneration(false);
    }

    /**
     Write our snapshot. A missing or too small buffer, too many records of our own,
     and records that do not fit are each reported; then the contents of the buffer mean nothing.
     */
    method SerializeLocal(output: array?<byte>, capacity: nat) returns (error: Option<Error>, size: nat, announced: nat)
      requires output != null ==> capacity <= output.Length
      modifies output
      ensures announced == localGeneration
      ensures error == SerializeError(LocalSnapshot(View()), output != null, capacity)
      ensures error.None? ==>
          size <= capacity && output != null && output[..size] == EncodeSnapshot(LocalSnapshot(View()))
      ensures error.Some? ==> size == 0
    {
      hide LocalsOf, EncodeHeader, EncodeNodes, EncodeEndpoints;
      announced := localGeneration;
      if output == null || capacity < HEADER_SIZE {
        return Some(InvalidArgument), 0, announced;
      }
      var localNodes := Locals(nodes);
      var localEndpoints := Locals(endpoints);
      if |localNodes| > LOCAL_NODE_CAPACITY || |localEndpoints| > LOCAL_ENDPOINT_CAPACITY {
        return Some(CapacityExceeded), 0, announced;
      }
      ghost var s := LocalSnapshot(View());
      var position := PutHeader(output, Snapshot(localGeneration, localNodes, localEndpoints));
      var ok: bool;
      ok, position := PutNodes(output, EncodeHeader(s), capacity, position, localNodes);
      if !ok {
        return Some(BufferOverflow), 0, announced;
      }
      ghost var written := EncodeHeader(s) + EncodeNodes(s.nodes, |s.nodes|);
      ok, position := PutEndpoints(output, written, capacity, position, localEndpoints);
      if !ok {
        return Some(BufferOverflow), 0, announced;
      }
      Assoc(EncodeHeader(s), EncodeNodes(s.nodes, |s.nodes|), EncodeEndpoints(s.endpoints, |s.endpoints|));
      return None, position, announced;
    }

    method RemoveParticipant(p: GuidPrefix) returns (update: Update)
      modifies this, nodes, endpoints, remotes
      ensures (View(), update) == RemoveRemote(old(View()), p)
    {
      hide EntryOf;
      var changedNodes := ClearRemotes(nodes, p);
      var changedEndpoints := ClearRemotes(endpoints, p);
      var known, entry := FindEntry(p);
      if known {
        remotes[entry] := None;
      }
      if changedNodes || changedEndpoints {
        AdvanceGeneration(false);
        return Changed;
      }
      return Unchanged;
    }
  }

  function Empty(): (c: Cache)
  {
    Cache(seq(NODE_CAPACITY, _ => None), seq(ENDPOINT_CAPACITY, _ => None), seq(REMOTE_CAPACITY, _ => None), 1, 1)
  }
}
