/** What adding and removing our own nodes and endpoints does to what we announce, and to what peers then show. */
module GraphLocals {
  import opened Bytes
  import opened RtpsTypes
  import opened GraphSlots
  import opened GraphWire
  import opened GraphCache
  import opened GraphRuns
  import opened GraphConvergence

  // ---------------------------------------------------------------- one slot

  /** A record of ours put in an empty slot is one more among our own records, and nothing else. */
  lemma {:induction false} LocalsGain<T>(slots: Slots<T>, i: nat, t: Tagged<T>, n: nat)
    requires i < |slots| && n <= |slots| && slots[i].None? && t.local
    ensures multiset(LocalsOf(slots[i := Some(t)], n))
         == multiset(LocalsOf(slots, n)) + (if i < n then multiset{t.body} else multiset{})
  {
    if n > 0 {
      LocalsGain(slots, i, t, n - 1);
    }
  }

  lemma LocalsLose<T>(slots: Slots<T>, i: nat)
    requires i < |slots| && IsLocal(slots[i])
    ensures multiset(LocalsOf(slots, |slots|))
         == multiset(LocalsOf(slots[i := None], |slots|)) + multiset{slots[i].value.body}
  {
    hide LocalsOf;
    assert slots[i := None][i := slots[i]] == slots;
    LocalsGain(slots[i := None], i, slots[i].value, |slots|);
  }

  lemma LocalIsAnnounced<T>(slots: Slots<T>, t: T)
    ensures t in LocalsOf(slots, |slots|) <==>
        exists i :: 0 <= i < |slots| && IsLocal(slots[i]) && slots[i].value.body == t
  {
    hide LocalsOf;
    if t in LocalsOf(slots, |slots|) {
      var k: nat :| k < |LocalsOf(slots, |slots|)| && LocalsOf(slots, |slots|)[k] == t;
      var i := LocalSlot(slots, |slots|, k);
    }
    if i :| 0 <= i < |slots| && IsLocal(slots[i]) && slots[i].value.body == t {
      LocalAt(slots, i, |slots|);
    }
  }

  const NO_PARTICIPANT: GuidPrefix := [0, 0, 0, 0, 0, 0, 0, 0, 0, 0, 0, 0]

  lemma ValidPrefixes(p: GuidPrefix)
    ensures ValidPrefix(p) <==> p != NO_PARTICIPANT
  {
    if !ValidPrefix(p) {
      assert forall i :: 0 <= i < 12 ==> p[i] == NO_PARTICIPANT[i];
    }
  }

  // ---------------------------------------------------------------- nodes

  /** What we announce after a successful add: one node more, with the caller's texts, under the next generation. */
  lemma AddedNodeIsAnnounced(c: Cache, p: GuidPrefix, id: nat, name: Option<seq<byte>>, nameSpace: Option<seq<byte>>,
                             enclave: Option<seq<byte>>)
    requires AddLocalNode(c, p, id, name, nameSpace, enclave).1.None?
    ensures name.Some? && nameSpace.Some? && enclave.Some?
    ensures var s, s' := LocalSnapshot(c), LocalSnapshot(AddLocalNode(c, p, id, name, nameSpace, enclave).0);
            && multiset(s'.nodes) == multiset(s.nodes) + multiset{Node(id := id, name := name.value,
                                                                       nameSpace := nameSpace.value,
                                                                       enclave := enclave.value)}
            && s'.endpoints == s.endpoints && s'.generation == NextGeneration(s.generation)
    ensures HasLocalOwner(AddLocalNode(c, p, id, name, nameSpace, enclave).0.nodes, p, id)
  {
    hide LocalsOf, FirstFree;
    var r := AddLocalNode(c, p, id, name, nameSpace, enclave).0;
    var i := FirstFree(c.nodes, 0);
    LocalsGain(c.nodes, i, r.nodes[i].value, |c.nodes|);
    assert IsLocalNode(r.nodes[i], id);
  }

  lemma FreeMeansRoom<T>(slots: Slots<T>, t: Tagged<T>)
    ensures FirstFree(slots, 0) < |slots| <==> Used(slots, |slots|) < |slots|
  {
    hide FirstFree, Used;
    var i := FirstFree(slots, 0);
    if i < |slots| {
      UsedUpdate(slots, i, t, |slots|);
    } else {
      FullWhenNoneFree(slots, |slots|);
    }
  }

  /** A node is added exactly when its arguments are usable, no node of ours has its id, and the table has room. */
  lemma NodeIsAccepted(c: Cache, p: GuidPrefix, id: nat, name: Option<seq<byte>>, nameSpace: Option<seq<byte>>,
                       enclave: Option<seq<byte>>)
    ensures var (r, error) := AddLocalNode(c, p, id, name, nameSpace, enclave);
            && (error.None? <==>
                  && p != NO_PARTICIPANT && id != 0 && (forall n :: n in LocalSnapshot(c).nodes ==> n.id != id)
                  && Usable(name, NODE_NAME_CAPACITY) && Usable(nameSpace, NAMESPACE_CAPACITY)
                  && Usable(enclave, ENCLAVE_CAPACITY) && Used(c.nodes, |c.nodes|) < |c.nodes|)
            && (error.Some? ==> r == c)
  {
    hide LocalsOf, FirstFree, Used, ValidPrefix, Usable;
    ValidPrefixes(p);
    FreeMeansRoom(c.nodes, Tagged(p, true, Node(0, [], [], [])));
    forall n ensures n in LocalSnapshot(c).nodes
      <==> exists i :: 0 <= i < |c.nodes| && IsLocal(c.nodes[i]) && c.nodes[i].value.body == n
    {
      LocalIsAnnounced(c.nodes, n);
    }
  }

  /** A node of ours goes exactly when it is announced and no announced endpoint belongs to it; and only it goes. */
  lemma RemovedNodeIsGone(c: Cache, id: nat)
    ensures var (r, error) := RemoveLocalNode(c, id); var s, s' := LocalSnapshot(c), LocalSnapshot(r);
            && (error.None? <==> (exists n :: n in s.nodes && n.id == id)
                                 && !exists e :: e in s.endpoints && e.nodeId == id)
            && (error == Some(InvalidRecord) <==> exists e :: e in s.endpoints && e.nodeId == id)
            && (error.Some? ==> r == c)
            && (error.None? ==> s'.endpoints == s.endpoints && s'.generation == NextGeneration(s.generation)
                                && exists n: Node :: n.id == id &&
                                    multiset(s.nodes) == multiset(s'.nodes) + multiset{n})
  {
    hide LocalsOf, FirstLocalNode;
    var (r, error) := RemoveLocalNode(c, id);
    var s := LocalSnapshot(c);
    forall e ensures e in s.endpoints
      <==> exists i :: 0 <= i < |c.endpoints| && IsLocal(c.endpoints[i]) && c.endpoints[i].value.body == e
    {
      LocalIsAnnounced(c.endpoints, e);
    }
    forall n ensures n in s.nodes
      <==> exists i :: 0 <= i < |c.nodes| && IsLocal(c.nodes[i]) && c.nodes[i].value.body == n
    {
      LocalIsAnnounced(c.nodes, n);
    }
    if error.None? {
      LocalsLose(c.nodes, FirstLocalNode(c.nodes, id, 0));
    }
  }

  // ---------------------------------------------------------------- endpoints

  /** The record of an endpoint, field by field from the caller's arguments. */
  function Described(e: EntityId, id: nat, kind: byte, t: Texts, conventions: bool): (r: Endpoint)
    requires t.rosTopic.Some? && t.rosType.Some? && t.ddsTopic.Some? && t.ddsType.Some?
  {
    Endpoint(entityId := e, nodeId := id, kind := kind, conventions := conventions,
             rosTopic := t.rosTopic.value, ddsTopic := t.ddsTopic.value,
             rosType := t.rosType.value, ddsType := t.ddsType.value)
  }

  /** What we announce after a successful add: one endpoint more, with everything the caller gave in its place. */
  lemma AddedEndpointIsAnnounced(c: Cache, p: GuidPrefix, e: EntityId, id: nat, kind: byte, t: Texts,
                                 conventions: bool)
    requires AddLocalEndpoint(c, p, e, id, kind, t, conventions).1.None?
    ensures t.rosTopic.Some? && t.rosType.Some? && t.ddsTopic.Some? && t.ddsType.Some?
    ensures var s, s' := LocalSnapshot(c), LocalSnapshot(AddLocalEndpoint(c, p, e, id, kind, t, conventions).0);
            && multiset(s'.endpoints) == multiset(s.endpoints) + multiset{Described(e, id, kind, t, conventions)}
            && s'.nodes == s.nodes && s'.generation == NextGeneration(s.generation)
  {
    hide LocalsOf, FirstFree;
    var r := AddLocalEndpoint(c, p, e, id, kind, t, conventions).0;
    var i := FirstFree(c.endpoints, 0);
    LocalsGain(c.endpoints, i, r.endpoints[i].value, |c.endpoints|);
  }

  /**
   An endpoint is added exactly when its arguments are usable, its node is ours and of the same participant, no
   endpoint of ours has its entity id, and the table has room.
   */
  lemma EndpointIsAccepted(c: Cache, p: GuidPrefix, e: EntityId, id: nat, kind: byte, t: Texts, conventions: bool)
    ensures var (r, error) := AddLocalEndpoint(c, p, e, id, kind, t, conventions);
            && (error.None? <==>
                  && p != NO_PARTICIPANT && e != [0, 0, 0, 0] && id != 0 && (kind == 1 || kind == 2)
                  && HasLocalOwner(c.nodes, p, id) && UsableTexts(t)
                  && (forall x :: x in LocalSnapshot(c).endpoints ==> x.entityId != e)
                  && Used(c.endpoints, |c.endpoints|) < |c.endpoints|)
            && (error.Some? ==> r == c)
  {
    hide LocalsOf, FirstFree, Used, ValidPrefix, UsableTexts, HasLocalOwner;
    ValidPrefixes(p);
    FreeMeansRoom(c.endpoints, Tagged(p, true, Endpoint(0, e, 0, false, [], [], [], [])));
    forall x ensures x in LocalSnapshot(c).endpoints
      <==> exists i :: 0 <= i < |c.endpoints| && IsLocal(c.endpoints[i]) && c.endpoints[i].value.body == x
    {
      LocalIsAnnounced(c.endpoints, x);
    }
  }

  /** An endpoint of ours goes exactly when it is announced; and only it goes. */
  lemma RemovedEndpointIsGone(c: Cache, e: EntityId)
    ensures var (r, error) := RemoveLocalEndpoint(c, e); var s, s' := LocalSnapshot(c), LocalSnapshot(r);
            && (error.None? <==> exists x :: x in s.endpoints && x.entityId == e)
            && (error.Some? ==> r == c && error == Some(RecordNotFound))
            && (error.None? ==> s'.nodes == s.nodes && s'.generation == NextGeneration(s.generation)
                                && exists x: Endpoint :: x.entityId == e
                                               && multiset(s.endpoints) == multiset(s'.endpoints) + multiset{x})
  {
    hide LocalsOf, FirstLocalEntity;
    var (r, error) := RemoveLocalEndpoint(c, e);
    forall x ensures x in LocalSnapshot(c).endpoints
      <==> exists i :: 0 <= i < |c.endpoints| && IsLocal(c.endpoints[i]) && c.endpoints[i].value.body == x
    {
      LocalIsAnnounced(c.endpoints, x);
    }
    if error.None? {
      LocalsLose(c.endpoints, FirstLocalEntity(c.endpoints, e, 0));
    }
  }

  /** Removing the endpoint just added gives back the very tables there were before. */
  lemma RemoveUndoesAdd(c: Cache, p: GuidPrefix, e: EntityId, id: nat, kind: byte, t: Texts, conventions: bool)
    requires AddLocalEndpoint(c, p, e, id, kind, t, conventions).1.None?
    ensures var (r, error) := RemoveLocalEndpoint(AddLocalEndpoint(c, p, e, id, kind, t, conventions).0, e);
            error.None? && r.nodes == c.nodes && r.endpoints == c.endpoints && r.remotes == c.remotes
  {
    hide FirstFree, FirstLocalEntity;
    var added := AddLocalEndpoint(c, p, e, id, kind, t, conventions).0;
    var i := FirstFree(c.endpoints, 0);
    assert IsLocalEntity(added.endpoints[i], e);
    assert forall j :: 0 <= j < |c.endpoints| && j != i ==> !IsLocalEntity(added.endpoints[j], e);
    assert FirstLocalEntity(added.endpoints, e, 0) == i;
    assert added.endpoints[i := None] == c.endpoints;
  }

  // ---------------------------------------------------------------- at a peer

  /**
   From the caller's arguments to a peer's graph: once the endpoint is added and the announcement accepted, the
   peer shows everything we showed before and that endpoint, under the very names and identifiers given.
   */
  lemma PeerShowsAddedEndpoint(c: Cache, p: GuidPrefix, e: EntityId, id: u64id, kind: byte, t: Texts,
                               conventions: bool, peer: Cache)
    requires Integrity(c) && AddLocalEndpoint(c, p, e, id, kind, t, conventions).1.None?
    requires var added := AddLocalEndpoint(c, p, e, id, kind, t, conventions).0;
      && SerializeError(LocalSnapshot(added), true, WIRE_CAPACITY).None?
      && GenerationOf(peer.remotes, p) < added.localGeneration
      && Destination(peer.remotes, p) < |peer.remotes| && HasRoom(peer, p, LocalSnapshot(added))
    ensures t.rosTopic.Some? && t.rosType.Some? && t.ddsTopic.Some? && t.ddsType.Some?
    ensures var s := LocalSnapshot(AddLocalEndpoint(c, p, e, id, kind, t, conventions).0);
            var (r, update, _) := ApplyRemote(peer, p, Some(EncodeSnapshot(s)), s.generation);
            && update == Changed && ViewOf(r, p).nodes == LocalSnapshot(c).nodes
            && multiset(ViewOf(r, p).endpoints)
               == multiset(LocalSnapshot(c).endpoints) + multiset{Described(e, id, kind, t, conventions)}
  {
    var added := AddLocalEndpoint(c, p, e, id, kind, t, conventions).0;
    AddedEndpointIsAnnounced(c, p, e, id, kind, t, conventions);
    AddEndpointKeepsIntegrity(c, p, e, id, kind, t, conventions);
    assert ValidPrefix(p);
    hide AddLocalEndpoint, LocalsOf, Integrity, ApplyRemote, ViewOf, EncodeSnapshot, SerializeError, HasRoom,
         Destination,
         GenerationOf, ValidPrefix;
    PeerShowsAnnouncement(added, peer, p);
  }

  // ---------------------------------------------------------------- room

  lemma {:induction false} RemotesOfOneMore<T>(slots: Slots<T>, p: GuidPrefix, i: nat, body: T, n: nat)
    requires i < |slots| && n <= |slots| && slots[i].None?
    ensures |RemotesOf(slots[i := Some(Tagged(p, false, body))], p, n)|
         == |RemotesOf(slots, p, n)| + if i < n then 1 else 0
  {
    if n > 0 {
      RemotesOfOneMore(slots, p, i, body, n - 1);
    }
  }

  /** However many records are inserted, those stored take up the slots that were free. */
  lemma {:induction false} StoredTakesRoom<T>(slots: Slots<T>, p: GuidPrefix, bodies: seq<T>, n: nat)
    requires n <= |bodies| && forall i :: 0 <= i < |slots| ==> !IsRemoteOf(slots[i], p)
    ensures var r := InsertAll(slots, p, bodies, n);
            |RemotesOf(r, p, |r|)| + Used(slots, |slots|) == Used(r, |r|)
  {
    hide RemotesOf, Used, FirstFree;
    if n == 0 {
      RemotesOfNone(slots, p, 0, |slots|);
      NoneStored(slots, p);
    } else {
      StoredTakesRoom(slots, p, bodies, n - 1);
      var r := InsertAll(slots, p, bodies, n - 1);
      var i := FirstFree(r, 0);
      if i < |r| {
        RemotesOfOneMore(r, p, i, bodies[n - 1], |r|);
        UsedUpdate(r, i, Tagged(p, false, bodies[n - 1]), |r|);
      }
    }
  }

  lemma NoneStored<T>(slots: Slots<T>, p: GuidPrefix)
    ensures RemotesOf(slots, p, 0) == []
  {}

  lemma RoomForAll<T>(slots: Slots<T>, p: GuidPrefix, bodies: seq<T>)
    ensures var r := InsertAll(Cleared(slots, p), p, bodies, |bodies|);
            Used(Cleared(slots, p), |slots|) + |bodies| <= |slots| <==> RemotesOf(r, p, |r|) == bodies
  {
    hide RemotesOf, Used, FirstFree, InsertAll;
    var r := InsertAll(Cleared(slots, p), p, bodies, |bodies|);
    StoredTakesRoom(Cleared(slots, p), p, bodies, |bodies|);
    if Used(Cleared(slots, p), |slots|) + |bodies| <= |slots| {
      InsertAllInstalls(Cleared(slots, p), p, bodies, |bodies|);
      assert bodies[..|bodies|] == bodies;
    }
  }

  /** There is room for a snapshot exactly when installing it would store every record of it. */
  lemma RoomIsExact(c: Cache, p: GuidPrefix, s: Snapshot)
    ensures HasRoom(c, p, s) <==>
      && RemotesOf(InsertAll(Cleared(c.nodes, p), p, s.nodes, |s.nodes|), p, |c.nodes|) == s.nodes
      && RemotesOf(InsertAll(Cleared(c.endpoints, p), p, s.endpoints, |s.endpoints|), p, |c.endpoints|) == s.endpoints
  {
    hide RemotesOf, Used, InsertAll, Cleared;
    RoomForAll(c.nodes, p, s.nodes);
    RoomForAll(c.endpoints, p, s.endpoints);
  }

  /** A generation can be remembered exactly when the participant is known already or an entry is free. */
  lemma EntryIsFound(remotes: seq<Option<Remote>>, p: GuidPrefix)
    ensures Destination(remotes, p) < |remotes| <==>
      exists i :: 0 <= i < |remotes| && (remotes[i].None? || remotes[i].value.prefix == p)
  {
    hide EntryOf, FirstFree;
    var own, free := EntryOf(remotes, p, 0), FirstFree(remotes, 0);
    if i :| 0 <= i < |remotes| && (remotes[i].None? || remotes[i].value.prefix == p) {
      assert own <= i || free <= i || own < |remotes| || free < |remotes|;
    }
  }

  /**
   Who is heard of for the first time is shown: a well-formed first snapshot is accepted exactly when an entry is free
   and the tables can store every record of it.
   */
  lemma NewcomerIsShown(c: Cache, p: GuidPrefix, s: Snapshot)
    requires p != NO_PARTICIPANT && SnapshotOk(s)
    requires forall i :: 0 <= i < |c.remotes| && c.remotes[i].Some? ==> c.remotes[i].value.prefix != p
    ensures var (r, update, _) := ApplyRemote(c, p, Some(EncodeSnapshot(s)), s.generation);
            && (update == Changed <==>
                  && (exists i :: 0 <= i < |c.remotes| && c.remotes[i].None?)
                  && RemotesOf(InsertAll(Cleared(c.nodes, p), p, s.nodes, |s.nodes|), p, |c.nodes|) == s.nodes
                  && RemotesOf(InsertAll(Cleared(c.endpoints, p), p, s.endpoints, |s.endpoints|), p, |c.endpoints|)
                     == s.endpoints)
            && (update == Changed ==> ViewOf(r, p) == Shown(s.generation, s.nodes, s.endpoints))
  {
    hide DecodeSnapshot, SnapshotOk, EncodeSnapshot, HasRoom, Destination, EntryOf, ViewOf, Installed, RemotesOf,
         InsertAll, Cleared, ValidPrefix;
    ValidPrefixes(p);
    EntryIsFound(c.remotes, p);
    RoomIsExact(c, p, s);
    DecodeIsExact(EncodeSnapshot(s), s.generation, s);
    if Destination(c.remotes, p) < |c.remotes| && HasRoom(c, p, s) {
      InstallReplacesOne(c, p, s);
    }
  }

  /** A removal reports a change exactly when something of the participant was shown. */
  lemma RemovalIsReported(c: Cache, p: GuidPrefix)
    ensures RemoveRemote(c, p).1 == Changed <==> ViewOf(c, p).nodes != [] || ViewOf(c, p).endpoints != []
  {
    hide RemotesOf, EntryOf, Forgotten, Cleared;
    SomethingShown(c.nodes, p);
    SomethingShown(c.endpoints, p);
  }

  lemma SomethingShown<T>(slots: Slots<T>, p: GuidPrefix)
    ensures HasRemotes(slots, p) <==> RemotesOf(slots, p, |slots|) != []
  {
    hide RemotesOf;
    if i :| 0 <= i < |slots| && IsRemoteOf(slots[i], p) {
      RemoteAt(slots, p, i, |slots|);
    } else {
      NoRemotes(slots, p);
    }
  }

  /** Announcing succeeds exactly when there is a buffer, few enough records, and the encoding fits. */
  lemma AnnouncingIsExact(s: Snapshot, present: bool, capacity: nat)
    ensures SerializeError(s, present, capacity).None? <==>
      && present && |s.nodes| <= LOCAL_NODE_CAPACITY && |s.endpoints| <= LOCAL_ENDPOINT_CAPACITY
      && |EncodeSnapshot(s)| <= capacity
    ensures SerializeError(s, present, capacity) == Some(InvalidArgument) <==> !present || capacity < 24
  {
    hide EncodeNodes, EncodeEndpoints;
  }

  // ---------------------------------------------------------------- generations

  /** The operation changes our own records. */
  predicate ChangesOurs(c: Cache, op: Operation)
  {
    match op
    case AddNode(p, id, name, nameSpace, enclave) => AddLocalNode(c, p, id, name, nameSpace, enclave).1.None?
    case RemoveNode(id) => RemoveLocalNode(c, id).1.None?
    case AddEndpoint(p, e, id, kind, texts, conventions) =>
      AddLocalEndpoint(c, p, e, id, kind, texts, conventions).1.None?
    case RemoveEndpoint(e) => RemoveLocalEndpoint(c, e).1.None?
    case _ => false
  }

  /** The operation changes what is held of a participant. */
  predicate ChangesTheirs(c: Cache, op: Operation)
  {
    match op
    case Apply(p, payload, sequence) => ApplyRemote(c, p, payload, sequence).1 == Changed
    case RemoveParticipant(p) => HasRemotes(c.nodes, p) || HasRemotes(c.endpoints, p)
    case _ => false
  }

  /** How many of the first `n` operations changed our records, and how many changed anything. */
  function Changes(ops: seq<Operation>, n: nat): (k: (nat, nat))
    requires n <= |ops|
  {
    if n == 0 then (0, 0)
    else
      var (ours, all), c := Changes(ops, n - 1), Run(Empty(), ops, n - 1);
      if ChangesOurs(c, ops[n - 1]) then (ours + 1, all + 1)
      else if ChangesTheirs(c, ops[n - 1]) then (ours, all + 1)
      else (ours, all)
  }

  /** The generation after `k` changes: it starts at 1 and goes from 2^63 - 1 back to 1. */
  function GenerationAfter(k: nat): (g: nat)
  {
    k % INT64_MAX + 1
  }

  lemma NextIsNext(k: nat)
    ensures NextGeneration(GenerationAfter(k)) == GenerationAfter(k + 1)
  {
    var q, r := k / INT64_MAX, k % INT64_MAX;
    if r + 1 < INT64_MAX {
      RemainderIs(k + 1, q, r + 1);
    } else {
      RemainderIs(k + 1, q + 1, 0);
    }
  }

  lemma RemainderIs(k: nat, q: nat, r: nat)
    requires k == INT64_MAX * q + r && r < INT64_MAX
    ensures k % INT64_MAX == r
  {
    var d := k / INT64_MAX - q;
    assert INT64_MAX * d == r - k % INT64_MAX;
    assert d >= 1 ==> INT64_MAX * d >= INT64_MAX;
    assert d <= -1 ==> INT64_MAX * d + INT64_MAX <= 0;
  }

  lemma StepAdvances(c: Cache, op: Operation)
    ensures var r, ours := Step(c, op), ChangesOurs(c, op);
            && r.localGeneration == (if ours then NextGeneration(c.localGeneration) else c.localGeneration)
            && r.generation == if ours || ChangesTheirs(c, op) then NextGeneration(c.generation) else c.generation
  {
    hide ValidPrefix, FirstFree, EntryOf, DecodeSnapshot, HasRoom, Destination, GenerationOf, InsertAll, NextGeneration,
         HasLocalOwner, UsableTexts, Usable, HasRemotes;
  }

  /** Over every run both generations count the changes, ours alone and all of them, and never repeat within a cycle. */
  lemma {:induction false} GenerationsCount(ops: seq<Operation>, n: nat)
    requires n <= |ops|
    ensures var c, k := Run(Empty(), ops, n), Changes(ops, n);
            c.localGeneration == GenerationAfter(k.0) && c.generation == GenerationAfter(k.1)
  {
    hide Step, ChangesOurs, ChangesTheirs, Empty, NextGeneration, GenerationAfter;
    if n == 0 {
      StartsAtOne();
    } else {
      GenerationsCount(ops, n - 1);
      StepAdvances(Run(Empty(), ops, n - 1), ops[n - 1]);
      NextIsNext(Changes(ops, n - 1).0);
      NextIsNext(Changes(ops, n - 1).1);
    }
  }

  lemma StartsAtOne()
    ensures Empty().generation == Empty().localGeneration == GenerationAfter(0)
  {}
}
