/** What every run of graph operations keeps, and why participants' views converge. */
module GraphRuns {
  import opened Bytes
  import opened RtpsTypes
  import opened GraphSlots
  import opened GraphWire
  import opened GraphCache

  // ---------------------------------------------------------------- filtered records and slots

  lemma {:induction false} RemoteAt<T>(slots: Slots<T>, p: GuidPrefix, i: nat, n: nat)
    requires i < n <= |slots| && IsRemoteOf(slots[i], p)
    ensures |RemotesOf(slots, p, i)| < |RemotesOf(slots, p, n)|
    ensures RemotesOf(slots, p, n)[|RemotesOf(slots, p, i)|] == slots[i].value.body
    decreases n
  {
    if i < n - 1 {
      RemoteAt(slots, p, i, n - 1);
    }
  }

  lemma {:induction false} RemoteSlot<T>(slots: Slots<T>, p: GuidPrefix, n: nat, k: nat) returns (i: nat)
    requires n <= |slots| && k < |RemotesOf(slots, p, n)|
    ensures i < n && IsRemoteOf(slots[i], p) && slots[i].value.body == RemotesOf(slots, p, n)[k]
    decreases n
  {
    if k < |RemotesOf(slots, p, n - 1)| {
      i := RemoteSlot(slots, p, n - 1, k);
    } else {
      i := n - 1;
    }
  }

  lemma {:induction false} LocalAt<T>(slots: Slots<T>, i: nat, n: nat)
    requires i < n <= |slots| && IsLocal(slots[i])
    ensures |LocalsOf(slots, i)| < |LocalsOf(slots, n)|
    ensures LocalsOf(slots, n)[|LocalsOf(slots, i)|] == slots[i].value.body
    decreases n
  {
    if i < n - 1 {
      LocalAt(slots, i, n - 1);
    }
  }

  /** Two different positions among our own records come from two different slots, in order. */
  lemma {:induction false} LocalSlot<T>(slots: Slots<T>, n: nat, k: nat) returns (i: nat)
    requires n <= |slots| && k < |LocalsOf(slots, n)|
    ensures i < n && IsLocal(slots[i]) && slots[i].value.body == LocalsOf(slots, n)[k] && |LocalsOf(slots, i)| == k
    decreases n
  {
    if k < |LocalsOf(slots, n - 1)| {
      i := LocalSlot(slots, n - 1, k);
    } else {
      i := n - 1;
    }
  }

  // ---------------------------------------------------------------- integrity

  ghost predicate SameNode(a: Tagged<Node>, b: Tagged<Node>)
  {
    a.local == b.local && a.body.id == b.body.id && (a.local || a.prefix == b.prefix)
  }

  ghost predicate SameEndpoint(a: Tagged<Endpoint>, b: Tagged<Endpoint>)
  {
    a.local == b.local && a.body.entityId == b.body.entityId && (a.local || a.prefix == b.prefix)
  }

  ghost predicate NodesOk(nodes: Slots<Node>)
  {
    && (forall i :: 0 <= i < |nodes| && nodes[i].Some? ==> NodeOk(nodes[i].value.body))
    && (forall i, j :: 0 <= i < j < |nodes| && nodes[i].Some? && nodes[j].Some? ==>
          !SameNode(nodes[i].value, nodes[j].value))
  }

  ghost predicate EndpointsOk(endpoints: Slots<Endpoint>)
  {
    && (forall i :: 0 <= i < |endpoints| && endpoints[i].Some? ==> EndpointOk(endpoints[i].value.body))
    && (forall i, j :: 0 <= i < j < |endpoints| && endpoints[i].Some? && endpoints[j].Some?
          ==> !SameEndpoint(endpoints[i].value, endpoints[j].value))
  }

  ghost predicate IsOwner(slot: Option<Tagged<Node>>, e: Tagged<Endpoint>)
  {
    slot.Some? && slot.value.local == e.local && slot.value.prefix == e.prefix && slot.value.body.id == e.body.nodeId
  }

  ghost predicate HasOwner(nodes: Slots<Node>, e: Tagged<Endpoint>)
  {
    exists k :: 0 <= k < |nodes| && IsOwner(nodes[k], e)
  }

  ghost predicate AllOwned(nodes: Slots<Node>, endpoints: Slots<Endpoint>)
  {
    forall i :: 0 <= i < |endpoints| && endpoints[i].Some? ==> HasOwner(nodes, endpoints[i].value)
  }

  ghost predicate RemotesOk(remotes: seq<Option<Remote>>)
  {
    && (forall i :: 0 <= i < |remotes| && remotes[i].Some? ==> 0 < remotes[i].value.generation <= INT64_MAX)
    && (forall i, j :: 0 <= i < j < |remotes| && remotes[i].Some? && remotes[j].Some?
          ==> remotes[i].value.prefix != remotes[j].value.prefix)
  }

  /** Every remote record belongs to a participant whose generation is remembered. */
  ghost predicate AllKnown<T>(slots: Slots<T>, remotes: seq<Option<Remote>>)
  {
    forall i :: 0 <= i < |slots| && slots[i].Some? && !slots[i].value.local
      ==> EntryOf(remotes, slots[i].value.prefix, 0) < |remotes|
  }

  ghost predicate Integrity(c: Cache)
  {
    && |c.nodes| == NODE_CAPACITY && |c.endpoints| == ENDPOINT_CAPACITY && |c.remotes| == REMOTE_CAPACITY
    && 0 < c.generation <= INT64_MAX && 0 < c.localGeneration <= INT64_MAX
    && NodesOk(c.nodes) && EndpointsOk(c.endpoints) && AllOwned(c.nodes, c.endpoints)
    && RemotesOk(c.remotes) && AllKnown(c.nodes, c.remotes) && AllKnown(c.endpoints, c.remotes)
  }

  // ---------------------------------------------------------------- installing a snapshot

  lemma NodesInstalled(nodes: Slots<Node>, p: GuidPrefix, bodies: seq<Node>, r: Slots<Node>)
    requires NodesOk(nodes) && Installing(Cleared(nodes, p), p, r) && RemotesOf(r, p, |r|) == bodies
    requires forall i :: 0 <= i < |bodies| ==> NodeOk(bodies[i])
    requires forall i, j :: 0 <= i < j < |bodies| ==> bodies[i].id != bodies[j].id
    ensures NodesOk(r)
  {
    hide RemotesOf, FirstFree, NodeOk;
    forall i: nat | i < |r| && r[i].Some? ensures NodeOk(r[i].value.body) {
      if IsRemoteOf(r[i], p) {
        RemoteAt(r, p, i, |r|);
      }
    }
    forall i: nat, j: nat | i < j < |r| && r[i].Some? && r[j].Some? ensures !SameNode(r[i].value, r[j].value) {
      if IsRemoteOf(r[i], p) && IsRemoteOf(r[j], p) {
        RemoteAt(r, p, i, |r|);
        RemoteAt(r, p, j, |r|);
        RemoteAt(r, p, i, j);
      } else {
        assert IsRemoteOf(r[i], p) || r[i] == nodes[i];
        assert IsRemoteOf(r[j], p) || r[j] == nodes[j];
      }
    }
  }

  lemma EndpointsInstalled(endpoints: Slots<Endpoint>, p: GuidPrefix, bodies: seq<Endpoint>, r: Slots<Endpoint>)
    requires EndpointsOk(endpoints) && Installing(Cleared(endpoints, p), p, r) && RemotesOf(r, p, |r|) == bodies
    requires forall i :: 0 <= i < |bodies| ==> EndpointOk(bodies[i])
    requires forall i, j :: 0 <= i < j < |bodies| ==> bodies[i].entityId != bodies[j].entityId
    ensures EndpointsOk(r)
  {
    hide RemotesOf, FirstFree, EndpointOk;
    forall i: nat | i < |r| && r[i].Some? ensures EndpointOk(r[i].value.body) {
      if IsRemoteOf(r[i], p) {
        RemoteAt(r, p, i, |r|);
      }
    }
    forall i: nat, j: nat | i < j < |r| && r[i].Some? && r[j].Some? ensures !SameEndpoint(r[i].value, r[j].value) {
      if IsRemoteOf(r[i], p) && IsRemoteOf(r[j], p) {
        RemoteAt(r, p, i, |r|);
        RemoteAt(r, p, j, |r|);
        RemoteAt(r, p, i, j);
      } else {
        assert IsRemoteOf(r[i], p) || r[i] == endpoints[i];
        assert IsRemoteOf(r[j], p) || r[j] == endpoints[j];
      }
    }
  }

  lemma OwnersInstalled(c: Cache, p: GuidPrefix, s: Snapshot, nodes: Slots<Node>, endpoints: Slots<Endpoint>)
    requires AllOwned(c.nodes, c.endpoints)
    requires Installing(Cleared(c.nodes, p), p, nodes) && RemotesOf(nodes, p, |nodes|) == s.nodes
    requires Installing(Cleared(c.endpoints, p), p, endpoints) && RemotesOf(endpoints, p, |endpoints|) == s.endpoints
    requires forall i :: 0 <= i < |s.endpoints| ==> HasNode(s.nodes, s.endpoints[i].nodeId)
    ensures AllOwned(nodes, endpoints)
  {
    hide RemotesOf, FirstFree;
    forall i: nat | i < |endpoints| && endpoints[i].Some? ensures HasOwner(nodes, endpoints[i].value) {
      var e := endpoints[i].value;
      if IsRemoteOf(endpoints[i], p) {
        RemoteAt(endpoints, p, i, |endpoints|);
        var k: nat :| k < |s.nodes| && s.nodes[k].id == e.body.nodeId;
        var slot := RemoteSlot(nodes, p, |nodes|, k);
        assert IsOwner(nodes[slot], e);
      } else {
        assert endpoints[i] == c.endpoints[i];
        var k :| 0 <= k < |c.nodes| && IsOwner(c.nodes[k], e);
        assert nodes[k] == Cleared(c.nodes, p)[k] == c.nodes[k];
        assert IsOwner(nodes[k], e);
      }
    }
  }

  /** Both tables after installing hold exactly the snapshot for `p` and everything else as it was. */
  lemma InstalledTables(c: Cache, p: GuidPrefix, s: Snapshot)
    requires HasRoom(c, p, s) && Destination(c.remotes, p) < |c.remotes|
    ensures var r := Installed(c, p, s);
      && Installing(Cleared(c.nodes, p), p, r.nodes) && RemotesOf(r.nodes, p, |r.nodes|) == s.nodes
      && Installing(Cleared(c.endpoints, p), p, r.endpoints) && RemotesOf(r.endpoints, p, |r.endpoints|) == s.endpoints
  {
    hide RemotesOf, InsertAll, Used, FirstFree, Installing;
    InsertAllInstalls(Cleared(c.nodes, p), p, s.nodes, |s.nodes|);
    InsertAllInstalls(Cleared(c.endpoints, p), p, s.endpoints, |s.endpoints|);
    assert s.nodes[..|s.nodes|] == s.nodes && s.endpoints[..|s.endpoints|] == s.endpoints;
  }

  // ---------------------------------------------------------------- remembered generations

  ghost predicate Holds(entry: Option<Remote>, p: GuidPrefix)
  {
    entry.Some? && entry.value.prefix == p
  }

  lemma {:induction false} EntryAgrees(a: seq<Option<Remote>>, b: seq<Option<Remote>>, p: GuidPrefix, from: nat)
    requires |a| == |b| && from <= |a|
    requires forall i :: from <= i < |a| ==> (Holds(a[i], p) <==> Holds(b[i], p))
    ensures EntryOf(a, p, from) == EntryOf(b, p, from)
    decreases |a| - from
  {
    if from < |a| && !Holds(a[from], p) {
      EntryAgrees(a, b, p, from + 1);
    }
  }

  lemma RememberOne(remotes: seq<Option<Remote>>, p: GuidPrefix, g: nat)
    requires Destination(remotes, p) < |remotes|
    ensures var r := remotes[Destination(remotes, p) := Some(Remote(p, g))];
      && EntryOf(r, p, 0) < |r| && GenerationOf(r, p) == g
      && (forall q: GuidPrefix :: q != p ==>
            EntryOf(r, q, 0) == EntryOf(remotes, q, 0) && GenerationOf(r, q) == GenerationOf(remotes, q))
      && (RemotesOk(remotes) && 0 < g <= INT64_MAX ==> RemotesOk(r))
  {
    hide EntryOf, FirstFree;
    var d := Destination(remotes, p);
    var r := remotes[d := Some(Remote(p, g))];
    assert Holds(r[d], p);
    assert forall i :: 0 <= i < |r| && i < EntryOf(remotes, p, 0) && i != d ==> !Holds(r[i], p);
    forall q: GuidPrefix | q != p
      ensures EntryOf(r, q, 0) == EntryOf(remotes, q, 0) && GenerationOf(r, q) == GenerationOf(remotes, q)
    {
      EntryAgrees(remotes, r, q, 0);
    }
    assert RemotesOk(remotes) ==> forall i :: 0 <= i < |r| && i != d ==> !Holds(r[i], p);
    assert GenerationOf(r, p) == g by {
      FirstHolder(remotes, p, g);
    }
  }

  lemma FirstHolder(remotes: seq<Option<Remote>>, p: GuidPrefix, g: nat)
    requires Destination(remotes, p) < |remotes|
    ensures EntryOf(remotes[Destination(remotes, p) := Some(Remote(p, g))], p, 0) == Destination(remotes, p)
  {
    hide EntryOf, FirstFree;
    var d := Destination(remotes, p);
    var r := remotes[d := Some(Remote(p, g))];
    var own := EntryOf(r, p, 0);
    assert Holds(r[d], p);
    assert forall i :: 0 <= i < d ==> !Holds(remotes[i], p) && r[i] == remotes[i];
  }

  lemma KnownInstalled<T>(slots: Slots<T>, p: GuidPrefix, r: Slots<T>, before: seq<Option<Remote>>,
                          after: seq<Option<Remote>>)
    requires AllKnown(slots, before) && Installing(Cleared(slots, p), p, r) && |before| == |after|
    requires EntryOf(after, p, 0) < |after| && forall q: GuidPrefix :: q != p ==>
        EntryOf(after, q, 0) == EntryOf(before, q, 0)
    ensures AllKnown(r, after)
  {
    hide EntryOf, FirstFree;
    forall i: nat | i < |r| && r[i].Some? && !r[i].value.local ensures EntryOf(after, r[i].value.prefix, 0) < |after| {
      if !IsRemoteOf(r[i], p) {
        assert r[i] == slots[i];
      }
    }
  }

  lemma InstallKeepsIntegrity(c: Cache, p: GuidPrefix, s: Snapshot)
    requires Integrity(c) && SnapshotOk(s) && HasRoom(c, p, s) && Destination(c.remotes, p) < |c.remotes|
    ensures Integrity(Installed(c, p, s))
  {
    hide RemotesOf, InsertAll, Used, Installing, NodesOk, EndpointsOk, AllOwned, RemotesOk, AllKnown, EntryOf,
         FirstFree,
         HasNode, NodeOk, EndpointOk, Destination, GenerationOf, HasRoom;
    var r := Installed(c, p, s);
    InstalledTables(c, p, s);
    NodesInstalled(c.nodes, p, s.nodes, r.nodes);
    EndpointsInstalled(c.endpoints, p, s.endpoints, r.endpoints);
    OwnersInstalled(c, p, s, r.nodes, r.endpoints);
    RememberOne(c.remotes, p, s.generation);
    KnownInstalled(c.nodes, p, r.nodes, c.remotes, r.remotes);
    KnownInstalled(c.endpoints, p, r.endpoints, c.remotes, r.remotes);
  }

  // ---------------------------------------------------------------- the other operations

  lemma InsertKeepsKnown<T>(slots: Slots<T>, t: Tagged<T>, remotes: seq<Option<Remote>>)
    requires t.local && AllKnown(slots, remotes)
    ensures AllKnown(Insert(slots, t), remotes)
  {
    hide FirstFree, EntryOf;
  }

  lemma AddNodeKeepsIntegrity(c: Cache, p: GuidPrefix, id: nat, name: Option<seq<byte>>, nameSpace: Option<seq<byte>>,
                              enclave: Option<seq<byte>>)
    requires Integrity(c) && id <= 0xFFFF_FFFF_FFFF_FFFF
    ensures Integrity(AddLocalNode(c, p, id, name, nameSpace, enclave).0)
  {
    hide FirstFree, EntryOf, RemotesOk, AllKnown, EndpointsOk, ValidPrefix, HasOwner;
    var r := AddLocalNode(c, p, id, name, nameSpace, enclave);
    if r.1.None? {
      var t := Tagged(p, true, Node(id, name.value, nameSpace.value, enclave.value));
      InsertKeepsKnown(c.nodes, t, c.remotes);
      InsertKeepsOwners(c.nodes, t, c.endpoints);
      assert forall i :: 0 <= i < |c.nodes| && c.nodes[i].Some? ==> r.0.nodes[i] == c.nodes[i];
      assert NodesOk(r.0.nodes);
    }
  }

  lemma InsertKeepsOwners(nodes: Slots<Node>, t: Tagged<Node>, endpoints: Slots<Endpoint>)
    requires AllOwned(nodes, endpoints)
    ensures AllOwned(Insert(nodes, t), endpoints)
  {
    hide FirstFree;
    var r := Insert(nodes, t);
    forall i: nat | i < |endpoints| && endpoints[i].Some? ensures HasOwner(r, endpoints[i].value) {
      var k :| 0 <= k < |nodes| && IsOwner(nodes[k], endpoints[i].value);
      assert IsOwner(r[k], endpoints[i].value);
    }
  }

  lemma RemoveNodeKeepsIntegrity(c: Cache, id: nat)
    requires Integrity(c)
    ensures Integrity(RemoveLocalNode(c, id).0)
  {
    hide FirstLocalNode, EntryOf, RemotesOk, EndpointsOk;
    var r := RemoveLocalNode(c, id);
    if r.1.None? {
      assert forall i :: 0 <= i < |c.nodes| ==> r.0.nodes[i] == c.nodes[i] || r.0.nodes[i].None?;
      forall i: nat | i < |c.endpoints| && c.endpoints[i].Some? ensures HasOwner(r.0.nodes, c.endpoints[i].value) {
        var k :| 0 <= k < |c.nodes| && IsOwner(c.nodes[k], c.endpoints[i].value);
        assert !(IsLocal(c.endpoints[i]) && c.endpoints[i].value.body.nodeId == id);
        assert IsOwner(r.0.nodes[k], c.endpoints[i].value);
      }
    }
  }

  lemma AddEndpointKeepsIntegrity(c: Cache, p: GuidPrefix, e: EntityId, id: nat, kind: byte, t: Texts,
                                  conventions: bool)
    requires Integrity(c) && id <= 0xFFFF_FFFF_FFFF_FFFF
    ensures Integrity(AddLocalEndpoint(c, p, e, id, kind, t, conventions).0)
  {
    hide FirstFree, EntryOf, RemotesOk, AllKnown, NodesOk, ValidPrefix, ValidEntity, AllOwned;
    var r := AddLocalEndpoint(c, p, e, id, kind, t, conventions);
    if r.1.None? {
      var body := Endpoint(id, e, kind, conventions, t.rosTopic.value, t.rosType.value, t.ddsTopic.value,
                           t.ddsType.value);
      var record := Tagged(p, true, body);
      InsertKeepsKnown(c.endpoints, record, c.remotes);
      var k :| 0 <= k < |c.nodes| && IsLocalNode(c.nodes[k], id) && c.nodes[k].value.prefix == p;
      assert IsOwner(c.nodes[k], record);
      InsertIsOwned(c.nodes, c.endpoints, record);
      assert forall i :: 0 <= i < |c.endpoints| && c.endpoints[i].Some? ==> r.0.endpoints[i] == c.endpoints[i];
      assert EndpointsOk(r.0.endpoints);
    }
  }

  lemma InsertIsOwned(nodes: Slots<Node>, endpoints: Slots<Endpoint>, e: Tagged<Endpoint>)
    requires AllOwned(nodes, endpoints) && HasOwner(nodes, e)
    ensures AllOwned(nodes, Insert(endpoints, e))
  {
    hide FirstFree, HasOwner;
  }

  lemma RemoveEndpointKeepsIntegrity(c: Cache, e: EntityId)
    requires Integrity(c)
    ensures Integrity(RemoveLocalEndpoint(c, e).0)
  {
    hide FirstLocalEntity, EntryOf, RemotesOk, NodesOk, HasOwner;
    var r := RemoveLocalEndpoint(c, e);
    if r.1.None? {
      assert forall i :: 0 <= i < |c.endpoints| ==> r.0.endpoints[i] == c.endpoints[i] || r.0.endpoints[i].None?;
    }
  }

  lemma ForgetOne(remotes: seq<Option<Remote>>, p: GuidPrefix)
    requires RemotesOk(remotes)
    ensures var r := Forgotten(remotes, p);
      && RemotesOk(r) && EntryOf(r, p, 0) == |r|
      && forall q: GuidPrefix :: q != p ==>
          EntryOf(r, q, 0) == EntryOf(remotes, q, 0) && GenerationOf(r, q) == GenerationOf(remotes, q)
  {
    hide EntryOf;
    var r := Forgotten(remotes, p);
    forall q: GuidPrefix | q != p
      ensures EntryOf(r, q, 0) == EntryOf(remotes, q, 0) && GenerationOf(r, q) == GenerationOf(remotes, q)
    {
      EntryAgrees(remotes, r, q, 0);
    }
    assert forall i :: 0 <= i < |r| ==> !Holds(r[i], p);
  }

  lemma ClearedIsKnown<T>(slots: Slots<T>, p: GuidPrefix, before: seq<Option<Remote>>, after: seq<Option<Remote>>)
    requires AllKnown(slots, before) && |before| == |after|
    requires forall q: GuidPrefix :: q != p ==> EntryOf(after, q, 0) == EntryOf(before, q, 0)
    ensures AllKnown(Cleared(slots, p), after)
  {
    hide EntryOf;
    var r := Cleared(slots, p);
    forall i: nat | i < |r| && r[i].Some? && !r[i].value.local ensures EntryOf(after, r[i].value.prefix, 0) < |after| {
      assert r[i] == slots[i] && !IsRemoteOf(slots[i], p);
    }
  }

  lemma ClearedIsOwned(nodes: Slots<Node>, endpoints: Slots<Endpoint>, p: GuidPrefix)
    requires AllOwned(nodes, endpoints)
    ensures AllOwned(Cleared(nodes, p), Cleared(endpoints, p))
  {
    var n, r := Cleared(nodes, p), Cleared(endpoints, p);
    forall i: nat | i < |r| && r[i].Some? ensures HasOwner(n, r[i].value) {
      assert r[i] == endpoints[i];
      var k :| 0 <= k < |nodes| && IsOwner(nodes[k], r[i].value);
      assert IsOwner(n[k], r[i].value);
    }
  }

  lemma RemoveRemoteKeepsIntegrity(c: Cache, p: GuidPrefix)
    requires Integrity(c)
    ensures Integrity(RemoveRemote(c, p).0)
  {
    hide EntryOf, AllKnown, AllOwned, GenerationOf, Forgotten, HasRemotes;
    ForgetOne(c.remotes, p);
    ClearedIsKnown(c.nodes, p, c.remotes, Forgotten(c.remotes, p));
    ClearedIsKnown(c.endpoints, p, c.remotes, Forgotten(c.remotes, p));
    ClearedIsOwned(c.nodes, c.endpoints, p);
    assert NodesOk(Cleared(c.nodes, p));
    assert EndpointsOk(Cleared(c.endpoints, p));
  }

  lemma ApplyKeepsIntegrity(c: Cache, p: GuidPrefix, payload: Option<seq<byte>>, sequence: nat)
    requires Integrity(c)
    ensures Integrity(ApplyRemote(c, p, payload, sequence).0)
  {
    hide Integrity, Installed, HasRoom, Destination, GenerationOf, EntryOf, DecodeSnapshot, SnapshotOk;
    if ApplyRemote(c, p, payload, sequence).1 == Changed {
      AcceptedIsEncoding(payload.value, sequence);
      InstallKeepsIntegrity(c, p, DecodeSnapshot(payload.value, sequence).snapshot);
    }
  }

  // ---------------------------------------------------------------- runs

  type u64id = n: nat | n <= 0xFFFF_FFFF_FFFF_FFFF

  datatype Operation =
    | AddNode(prefix: GuidPrefix, id: u64id, name: Option<seq<byte>>, nameSpace: Option<seq<byte>>,
              enclave: Option<seq<byte>>)
    | RemoveNode(id: u64id)
    | AddEndpoint(prefix: GuidPrefix, entity: EntityId, id: u64id, kind: byte, texts: Texts, conventions: bool)
    | RemoveEndpoint(entity: EntityId)
    | Apply(prefix: GuidPrefix, payload: Option<seq<byte>>, sequence: nat)
    | RemoveParticipant(prefix: GuidPrefix)

  function Step(c: Cache, op: Operation): (r: Cache)
  {
    match op
    case AddNode(p, id, name, nameSpace, enclave) => AddLocalNode(c, p, id, name, nameSpace, enclave).0
    case RemoveNode(id) => RemoveLocalNode(c, id).0
    case AddEndpoint(p, e, id, kind, texts, conventions) => AddLocalEndpoint(c, p, e, id, kind, texts, conventions).0
    case RemoveEndpoint(e) => RemoveLocalEndpoint(c, e).0
    case Apply(p, payload, sequence) => ApplyRemote(c, p, payload, sequence).0
    case RemoveParticipant(p) => RemoveRemote(c, p).0
  }

  function Run(c: Cache, ops: seq<Operation>, n: nat): (r: Cache)
    requires n <= |ops|
  {
    if n == 0 then c else Step(Run(c, ops, n - 1), ops[n - 1])
  }

  lemma StepKeepsIntegrity(c: Cache, op: Operation)
    requires Integrity(c)
    ensures Integrity(Step(c, op))
  {
    hide Integrity, AddLocalNode, RemoveLocalNode, AddLocalEndpoint, RemoveLocalEndpoint, ApplyRemote, RemoveRemote;
    match op
    case AddNode(p, id, name, nameSpace, enclave) => AddNodeKeepsIntegrity(c, p, id, name, nameSpace, enclave);
    case RemoveNode(id) => RemoveNodeKeepsIntegrity(c, id);
    case AddEndpoint(p, e, id, kind, texts, conventions) =>
      AddEndpointKeepsIntegrity(c, p, e, id, kind, texts, conventions);
    case RemoveEndpoint(e) => RemoveEndpointKeepsIntegrity(c, e);
    case Apply(p, payload, sequence) => ApplyKeepsIntegrity(c, p, payload, sequence);
    case RemoveParticipant(p) => RemoveRemoteKeepsIntegrity(c, p);
  }

  /** Every run from the empty graph keeps its integrity. */
  lemma {:induction false} EveryRunKeepsIntegrity(ops: seq<Operation>, n: nat)
    requires n <= |ops|
    ensures Integrity(Run(Empty(), ops, n))
  {
    hide Step;
    if n > 0 {
      hide Integrity;
      EveryRunKeepsIntegrity(ops, n - 1);
      StepKeepsIntegrity(Run(Empty(), ops, n - 1), ops[n - 1]);
    }
  }
}
