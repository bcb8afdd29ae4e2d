/** A participant's view in the graph: replaced whole, never mixed, and the same whatever the delivery order. */
module GraphConvergence {
  import opened Bytes
  import opened RtpsTypes
  import opened GraphSlots
  import opened GraphWire
  import opened GraphCache
  import opened GraphRuns

  /** What the graph holds about one participant. */
  datatype Shown = Shown(generation: nat, nodes: seq<Node>, endpoints: seq<Endpoint>)

  function ViewOf(c: Cache, p: GuidPrefix): (v: Shown)
  {
    Shown(GenerationOf(c.remotes, p), RemotesOf(c.nodes, p, |c.nodes|), RemotesOf(c.endpoints, p, |c.endpoints|))
  }

  const NOTHING := Shown(0, [], [])

  // ---------------------------------------------------------------- one delivery

  lemma OthersAgree<T>(slots: Slots<T>, p: GuidPrefix, r: Slots<T>, q: GuidPrefix)
    requires Installing(Cleared(slots, p), p, r) && q != p
    ensures RemotesOf(r, q, |r|) == RemotesOf(slots, q, |slots|)
  {
    hide RemotesOf, FirstFree;
    RemotesOfAgree(r, slots, q, |r|);
  }

  lemma LocalsAgree<T>(slots: Slots<T>, p: GuidPrefix, r: Slots<T>)
    requires Installing(Cleared(slots, p), p, r)
    ensures LocalsOf(r, |r|) == LocalsOf(slots, |slots|)
  {
    hide *;
    LocalSlotsKept(slots, p, r);
    LocalsOfAgree(r, slots, |r|);
  }

  lemma LocalSlotsKept<T>(slots: Slots<T>, p: GuidPrefix, r: Slots<T>)
    requires Installing(Cleared(slots, p), p, r)
    ensures |r| == |slots|
    ensures forall i :: 0 <= i < |r| ==> (IsLocal(r[i]) || IsLocal(slots[i]) ==> r[i] == slots[i])
  {
    hide FirstFree;
  }

  /** Installing a snapshot of `p` shows exactly that snapshot, and changes nobody else's view nor ours. */
  lemma InstallReplacesOne(c: Cache, p: GuidPrefix, s: Snapshot)
    requires HasRoom(c, p, s) && Destination(c.remotes, p) < |c.remotes|
    ensures var r := Installed(c, p, s);
      && ViewOf(r, p) == Shown(s.generation, s.nodes, s.endpoints)
      && (forall q: GuidPrefix :: q != p ==> ViewOf(r, q) == ViewOf(c, q))
      && LocalSnapshot(r) == LocalSnapshot(c)
  {
    hide RemotesOf, LocalsOf, InsertAll, Installing, EntryOf, FirstFree, HasRoom, GenerationOf, Destination, Cleared;
    var r := Installed(c, p, s);
    InstalledTables(c, p, s);
    RememberOne(c.remotes, p, s.generation);
    LocalsAgree(c.nodes, p, r.nodes);
    LocalsAgree(c.endpoints, p, r.endpoints);
    forall q: GuidPrefix | q != p ensures ViewOf(r, q) == ViewOf(c, q) {
      OthersAgree(c.nodes, p, r.nodes, q);
      OthersAgree(c.endpoints, p, r.endpoints, q);
    }
  }

  /** When a delivery is accepted. */
  ghost predicate Acceptable(c: Cache, p: GuidPrefix, payload: Option<seq<byte>>, s: Snapshot)
  {
    && ValidPrefix(p) && SnapshotOk(s) && payload == Some(EncodeSnapshot(s))
    && s.generation > GenerationOf(c.remotes, p) && Destination(c.remotes, p) < |c.remotes| && HasRoom(c, p, s)
  }

  /**
   A delivery either changes nothing at all and says why, or replaces the whole view of one participant.
   The second happens exactly when the payload is the encoding of a newer snapshot for which there is room.
   */
  lemma DeliveryIsAtomic(c: Cache, p: GuidPrefix, payload: Option<seq<byte>>, sequence: nat)
    ensures var (r, update, error) := ApplyRemote(c, p, payload, sequence);
      && (update != Changed ==> r == c && error.Some?)
      && (update == Changed <==> exists s :: Acceptable(c, p, payload, s) && s.generation == sequence)
      && (forall s :: Acceptable(c, p, payload, s) && s.generation == sequence ==>
            && error.None? && ViewOf(r, p) == Shown(s.generation, s.nodes, s.endpoints)
            && (forall q: GuidPrefix :: q != p ==> ViewOf(r, q) == ViewOf(c, q))
            && LocalSnapshot(r) == LocalSnapshot(c))
  {
    hide DecodeSnapshot, SnapshotOk, EncodeSnapshot, HasRoom, Destination, GenerationOf, EntryOf, ViewOf, LocalSnapshot,
         Installed;
    if ApplyRemote(c, p, payload, sequence).1 == Changed {
      var s := DecodeSnapshot(payload.value, sequence).snapshot;
      AcceptedIsEncoding(payload.value, sequence);
      NewerThanRemembered(c, p, s);
      assert Acceptable(c, p, payload, s);
    }
    forall s | Acceptable(c, p, payload, s) && s.generation == sequence
      ensures ApplyRemote(c, p, payload, sequence) == (Installed(c, p, s), Changed, None)
      ensures ViewOf(Installed(c, p, s), p) == Shown(s.generation, s.nodes, s.endpoints)
      ensures forall q: GuidPrefix :: q != p ==> ViewOf(Installed(c, p, s), q) == ViewOf(c, q)
      ensures LocalSnapshot(Installed(c, p, s)) == LocalSnapshot(c)
    {
      DecodeIsExact(payload.value, sequence, s);
      NewerThanRemembered(c, p, s);
      InstallReplacesOne(c, p, s);
    }
  }

  lemma NewerThanRemembered(c: Cache, p: GuidPrefix, s: Snapshot)
    requires SnapshotOk(s)
    ensures 0 < s.generation
    ensures EntryOf(c.remotes, p, 0) < |c.remotes| && s.generation <= GenerationOf(c.remotes, p)
       <==> s.generation <= GenerationOf(c.remotes, p)
  {
    hide EntryOf;
  }

  // ---------------------------------------------------------------- all operations

  /** Our own operations change nobody's view. */
  lemma LocalStepsKeepViews(c: Cache, op: Operation, q: GuidPrefix)
    requires !op.Apply? && !op.RemoveParticipant?
    ensures ViewOf(Step(c, op), q) == ViewOf(c, q)
  {
    hide RemotesOf, EntryOf, FirstFree, FirstLocalNode, FirstLocalEntity, ValidPrefix, HasLocalOwner, UsableTexts,
         ValidEntity,
         HasLocalEntity, HasLocalNode, LocalNodeInUse;
    var r := Step(c, op);
    RemotesOfAgree(r.nodes, c.nodes, q, |c.nodes|);
    RemotesOfAgree(r.endpoints, c.endpoints, q, |c.endpoints|);
  }

  lemma RemovalKeepsOthers(c: Cache, p: GuidPrefix, q: GuidPrefix)
    requires RemotesOk(c.remotes) && q != p
    ensures ViewOf(RemoveRemote(c, p).0, q) == ViewOf(c, q)
  {
    hide RemotesOf, EntryOf, RemotesOk, GenerationOf, Forgotten, HasRemotes;
    ForgetOne(c.remotes, p);
    RemotesOfAgree(Cleared(c.nodes, p), c.nodes, q, |c.nodes|);
    RemotesOfAgree(Cleared(c.endpoints, p), c.endpoints, q, |c.endpoints|);
  }

  /** After a participant is removed nothing of it is left. */
  lemma RemovalErases(c: Cache, p: GuidPrefix)
    requires RemotesOk(c.remotes)
    ensures ViewOf(RemoveRemote(c, p).0, p) == NOTHING
    ensures LocalSnapshot(RemoveRemote(c, p).0) == LocalSnapshot(c)
  {
    hide RemotesOf, LocalsOf, EntryOf, RemotesOk, Forgotten, HasRemotes;
    ForgetOne(c.remotes, p);
    NoRemotes(Cleared(c.nodes, p), p);
    NoRemotes(Cleared(c.endpoints, p), p);
    LocalsOfAgree(Cleared(c.nodes, p), c.nodes, |c.nodes|);
    LocalsOfAgree(Cleared(c.endpoints, p), c.endpoints, |c.endpoints|);
  }

  lemma NoRemotes<T>(slots: Slots<T>, p: GuidPrefix)
    requires forall i :: 0 <= i < |slots| ==> !IsRemoteOf(slots[i], p)
    ensures RemotesOf(slots, p, |slots|) == []
  {
    RemotesOfNone(slots, p, 0, |slots|);
  }

  // ---------------------------------------------------------------- convergence

  /** The snapshot `op` carries for `p`, if it is one. */
  function Offer(op: Operation, p: GuidPrefix): (o: Option<Snapshot>)
  {
    if op.Apply? && op.prefix == p && ValidPrefix(p) && op.payload.Some? then
      var d := DecodeSnapshot(op.payload.value, op.sequence);
      if d.Accepted? then Some(d.snapshot) else None
    else None
  }

  /** What an operation offers of `p`: at most one snapshot. */
  function Offered(op: Operation, p: GuidPrefix): (r: set<Snapshot>)
  {
    var o := Offer(op, p);
    if o.Some? then {o.value} else {}
  }

  /** What an operation offers of `p` and the graph accepts. */
  function Absorbed(c: Cache, op: Operation, p: GuidPrefix): (r: set<Snapshot>)
  {
    if op.Apply? && op.prefix == p && ApplyRemote(c, p, op.payload, op.sequence).1 == Changed then Offered(op, p)
    else {}
  }

  function Offers(ops: seq<Operation>, p: GuidPrefix, n: nat): (r: set<Snapshot>)
    requires n <= |ops|
  {
    if n == 0 then {} else Offers(ops, p, n - 1) + Offered(ops[n - 1], p)
  }

  /** The snapshots of `p` accepted in a run from the empty graph. */
  function Taken(ops: seq<Operation>, p: GuidPrefix, n: nat): (r: set<Snapshot>)
    requires n <= |ops|
  {
    if n == 0 then {} else Taken(ops, p, n - 1) + Absorbed(Run(Empty(), ops, n - 1), ops[n - 1], p)
  }

  ghost predicate NeverRemoved(ops: seq<Operation>, p: GuidPrefix, n: nat)
    requires n <= |ops|
  {
    forall i :: 0 <= i < n ==> ops[i].RemoveParticipant? ==> ops[i].prefix != p
  }

  /** A snapshot of `p` is not refused for want of room. */
  ghost predicate HadRoom(c: Cache, op: Operation, p: GuidPrefix)
  {
    op.Apply? && op.prefix == p ==> ApplyRemote(c, p, op.payload, op.sequence).2 != Some(CapacityExceeded)
  }

  ghost predicate AlwaysHadRoom(ops: seq<Operation>, p: GuidPrefix, n: nat)
    requires n <= |ops|
  {
    forall i: nat :: i < n ==> HadRoom(Run(Empty(), ops, i), ops[i], p)
  }

  /** The view is that of the newest of these snapshots. */
  ghost predicate Tracks(v: Shown, snapshots: set<Snapshot>)
  {
    && (snapshots == {} ==> v == NOTHING)
    && (forall s :: s in snapshots ==> s.generation <= v.generation)
    && (snapshots != {} ==> Snapshot(v.generation, v.nodes, v.endpoints) in snapshots)
  }

  lemma StepTracks(c: Cache, op: Operation, p: GuidPrefix, before: set<Snapshot>, more: set<Snapshot>)
    requires Tracks(ViewOf(c, p), before) && RemotesOk(c.remotes) && (op.RemoveParticipant? ==> op.prefix != p)
    requires more == Absorbed(c, op, p) || (more == Offered(op, p) && HadRoom(c, op, p))
    ensures Tracks(ViewOf(Step(c, op), p), before + more)
  {
    hide ViewOf, RemotesOk, DecodeSnapshot, SnapshotOk, HasRoom, Destination, EntryOf, Installed, ApplyRemote;
    if op.Apply? && op.prefix == p {
      OwnDeliveryTracks(c, p, op.payload, op.sequence, before, more);
    } else {
      assert before + more == before;
      match op
      case Apply(q, payload, sequence) => OtherDelivery(c, q, payload, sequence, p);
      case RemoveParticipant(q) => RemovalKeepsOthers(c, q, p);
      case AddNode(_, _, _, _, _) => LocalStepsKeepViews(c, op, p);
      case RemoveNode(_) => LocalStepsKeepViews(c, op, p);
      case AddEndpoint(_, _, _, _, _, _) => LocalStepsKeepViews(c, op, p);
      case RemoveEndpoint(_) => LocalStepsKeepViews(c, op, p);
    }
  }

  lemma OtherDelivery(c: Cache, q: GuidPrefix, payload: Option<seq<byte>>, sequence: nat, p: GuidPrefix)
    requires p != q
    ensures ViewOf(ApplyRemote(c, q, payload, sequence).0, p) == ViewOf(c, p)
  {
    hide ViewOf, DecodeSnapshot, SnapshotOk, HasRoom, Destination, EntryOf, GenerationOf, Installed, LocalSnapshot;
    if ApplyRemote(c, q, payload, sequence).1 == Changed {
      InstallReplacesOne(c, q, DecodeSnapshot(payload.value, sequence).snapshot);
    }
  }

  lemma OwnDeliveryTracks(c: Cache, p: GuidPrefix, payload: Option<seq<byte>>, sequence: nat, before: set<Snapshot>,
                          more: set<Snapshot>)
    requires Tracks(ViewOf(c, p), before)
    requires var op := Apply(p, payload, sequence);
             more == Absorbed(c, op, p) || (more == Offered(op, p) && HadRoom(c, op, p))
    ensures Tracks(ViewOf(ApplyRemote(c, p, payload, sequence).0, p), before + more)
  {
    hide DecodeSnapshot, SnapshotOk, HasRoom, Destination, EntryOf, Installed, LocalSnapshot, RemotesOf, GenerationOf;
    var o := Offer(Apply(p, payload, sequence), p);
    if o.Some? {
      AcceptedIsEncoding(payload.value, sequence);
      NewerThanRemembered(c, p, o.value);
      if ApplyRemote(c, p, payload, sequence).1 == Changed {
        InstallReplacesOne(c, p, o.value);
      }
    }
    if more == {} {
      assert before + more == before;
    }
  }

  lemma NothingShown(p: GuidPrefix)
    ensures ViewOf(Empty(), p) == NOTHING
  {
    hide RemotesOf, EntryOf;
    NoRemotes(Empty().nodes, p);
    NoRemotes(Empty().endpoints, p);
  }

  /**
   However deliveries are ordered, lost, repeated, refused or interleaved with anything else, a participant that
   is not removed is shown as the newest snapshot of it that was accepted.
   */
  lemma {:induction false} RunTracks(ops: seq<Operation>, p: GuidPrefix, n: nat)
    requires n <= |ops| && NeverRemoved(ops, p, n)
    ensures Tracks(ViewOf(Run(Empty(), ops, n), p), Taken(ops, p, n))
  {
    hide ViewOf, Step, Empty, Absorbed, RemotesOk;
    if n == 0 {
      NothingShown(p);
    } else {
      hide Tracks;
      RunTracks(ops, p, n - 1);
      RemotesStayOk(ops, n - 1);
      var c := Run(Empty(), ops, n - 1);
      StepTracks(c, ops[n - 1], p, Taken(ops, p, n - 1), Absorbed(c, ops[n - 1], p));
    }
  }

  /** Where there was always room, that is the newest snapshot offered. */
  lemma {:induction false} RunTracksOffers(ops: seq<Operation>, p: GuidPrefix, n: nat)
    requires n <= |ops| && NeverRemoved(ops, p, n) && AlwaysHadRoom(ops, p, n)
    ensures Tracks(ViewOf(Run(Empty(), ops, n), p), Offers(ops, p, n))
  {
    hide ViewOf, Step, Empty, Offered, HadRoom, RemotesOk;
    if n == 0 {
      NothingShown(p);
    } else {
      hide Tracks;
      RunTracksOffers(ops, p, n - 1);
      RemotesStayOk(ops, n - 1);
      StepTracks(Run(Empty(), ops, n - 1), ops[n - 1], p, Offers(ops, p, n - 1), Offered(ops[n - 1], p));
    }
  }

  lemma RemotesStayOk(ops: seq<Operation>, n: nat)
    requires n <= |ops|
    ensures RemotesOk(Run(Empty(), ops, n).remotes)
  {
    hide Run, RemotesOk, NodesOk, EndpointsOk, AllOwned, AllKnown;
    EveryRunKeepsIntegrity(ops, n);
  }

  // ---------------------------------------------------------------- one participant, many graphs

  /** One step of a graph leaves what it announces alone, or moves its own generation on by one. */
  lemma AnnouncementMoves(c: Cache, op: Operation)
    requires RemotesOk(c.remotes)
    ensures LocalSnapshot(Step(c, op)) == LocalSnapshot(c)
         || Step(c, op).localGeneration == NextGeneration(c.localGeneration)
  {
    hide LocalsOf, DecodeSnapshot, Installed, HasRoom, Destination, EntryOf, GenerationOf, FirstFree, RemotesOk,
         RemoveRemote;
    match op
    case Apply(p, payload, sequence) => {
      if ApplyRemote(c, p, payload, sequence).1 == Changed {
        InstallReplacesOne(c, p, DecodeSnapshot(payload.value, sequence).snapshot);
      }
    }
    case RemoveParticipant(p) => RemovalErases(c, p);
    case AddNode(_, _, _, _, _) =>
    case RemoveNode(_) =>
    case AddEndpoint(_, _, _, _, _, _) =>
    case RemoveEndpoint(_) =>
  }

  /** The graph's own generation does not wrap in this run: it never falls. */
  ghost predicate NeverWraps(ops: seq<Operation>)
  {
    forall i: nat :: i < |ops| ==> Run(Empty(), ops, i).localGeneration <= Run(Empty(), ops, i + 1).localGeneration
  }

  lemma {:induction false} AnnouncementsDiffer(ops: seq<Operation>, i: nat, j: nat)
    requires i <= j <= |ops| && NeverWraps(ops)
    ensures var a, b := LocalSnapshot(Run(Empty(), ops, i)), LocalSnapshot(Run(Empty(), ops, j));
            a == b || a.generation < b.generation
    decreases j
  {
    hide Step, Empty, LocalsOf, RemotesOk;
    if i < j {
      AnnouncementsDiffer(ops, i, j - 1);
      RemotesStayOk(ops, j - 1);
      var before, after := Run(Empty(), ops, j - 1), Run(Empty(), ops, j);
      AnnouncementMoves(before, ops[j - 1]);
      assert before.localGeneration <= after.localGeneration;
    }
  }

  /** Everything a graph announces in a run. */
  ghost function Announcements(ops: seq<Operation>): (r: set<Snapshot>)
  {
    set i: nat | i <= |ops| :: LocalSnapshot(Run(Empty(), ops, i))
  }

  /** Short of a wrap, one generation of a graph never means two contents. */
  lemma OneContentPerGeneration(ops: seq<Operation>, s: Snapshot, t: Snapshot)
    requires NeverWraps(ops) && s in Announcements(ops) && t in Announcements(ops) && s.generation == t.generation
    ensures s == t
  {
    hide Run, LocalSnapshot, NeverWraps;
    var i: nat :| i <= |ops| && s == LocalSnapshot(Run(Empty(), ops, i));
    var j: nat :| j <= |ops| && t == LocalSnapshot(Run(Empty(), ops, j));
    if i <= j {
      AnnouncementsDiffer(ops, i, j);
    } else {
      AnnouncementsDiffer(ops, j, i);
    }
  }

  /**
   Two graphs that accepted announcements of one sender, whichever and in whatever order, show it the same
   exactly when they remember the same generation of it.
   */
  lemma SameGenerationSameView(sender: seq<Operation>, first: seq<Operation>, second: seq<Operation>, p: GuidPrefix)
    requires NeverWraps(sender) && NeverRemoved(first, p, |first|) && NeverRemoved(second, p, |second|)
    requires Taken(first, p, |first|) <= Announcements(sender) && Taken(second, p, |second|) <= Announcements(sender)
    ensures var v, w := ViewOf(Run(Empty(), first, |first|), p), ViewOf(Run(Empty(), second, |second|), p);
            v == w <==> v.generation == w.generation
  {
    hide Run, ViewOf, Taken, Empty, NeverRemoved, Announcements, NeverWraps;
    RunTracks(first, p, |first|);
    RunTracks(second, p, |second|);
    var v, w := ViewOf(Run(Empty(), first, |first|), p), ViewOf(Run(Empty(), second, |second|), p);
    PositiveGenerations(first, p, |first|);
    PositiveGenerations(second, p, |second|);
    if v.generation == w.generation && v.generation != 0 {
      OneContentPerGeneration(sender, Snapshot(v.generation, v.nodes, v.endpoints),
                              Snapshot(w.generation, w.nodes, w.endpoints));
    }
  }

  lemma {:induction false} PositiveGenerations(ops: seq<Operation>, p: GuidPrefix, n: nat)
    requires n <= |ops|
    ensures forall s :: s in Taken(ops, p, n) ==> s.generation > 0
  {
    hide DecodeSnapshot, ApplyRemote, Run, Empty, SnapshotOk;
    if n > 0 {
      PositiveGenerations(ops, p, n - 1);
      var op := ops[n - 1];
      if Offer(op, p).Some? {
        AcceptedIsEncoding(op.payload.value, op.sequence);
        OkIsPositive(Offer(op, p).value);
      }
    }
  }

  lemma OkIsPositive(s: Snapshot)
    requires SnapshotOk(s)
    ensures s.generation > 0
  {}

  /**
   Convergence: two graphs that were offered the same announcements of one sender, in any orders and with
   repetitions, show it the same, short of a removal, a wrap of its generation or a lack of room.
   */
  lemma ViewsConverge(sender: seq<Operation>, first: seq<Operation>, second: seq<Operation>, p: GuidPrefix)
    requires NeverWraps(sender) && Offers(first, p, |first|) <= Announcements(sender)
    requires Offers(first, p, |first|) == Offers(second, p, |second|)
    requires NeverRemoved(first, p, |first|) && AlwaysHadRoom(first, p, |first|)
    requires NeverRemoved(second, p, |second|) && AlwaysHadRoom(second, p, |second|)
    ensures ViewOf(Run(Empty(), first, |first|), p) == ViewOf(Run(Empty(), second, |second|), p)
  {
    hide Run, ViewOf, Offers, Empty, NeverRemoved, AlwaysHadRoom, Announcements, NeverWraps;
    RunTracksOffers(first, p, |first|);
    RunTracksOffers(second, p, |second|);
    var v, w := ViewOf(Run(Empty(), first, |first|), p), ViewOf(Run(Empty(), second, |second|), p);
    var a, b := Snapshot(v.generation, v.nodes, v.endpoints), Snapshot(w.generation, w.nodes, w.endpoints);
    if Offers(first, p, |first|) != {} {
      assert a.generation == b.generation;
      OneContentPerGeneration(sender, a, b);
    }
  }

  /** Short of a removal, the generation shown for `p` never falls, and an accepted snapshot raises it. */
  lemma GenerationNeverFalls(c: Cache, op: Operation, p: GuidPrefix)
    requires RemotesOk(c.remotes) && (op.RemoveParticipant? ==> op.prefix != p)
    ensures ViewOf(Step(c, op), p).generation >= ViewOf(c, p).generation
    ensures ViewOf(Step(c, op), p).generation == ViewOf(c, p).generation ==> ViewOf(Step(c, op), p) == ViewOf(c, p)
  {
    hide RemotesOf, GenerationOf, RemotesOk, DecodeSnapshot, SnapshotOk, HasRoom, Destination, EntryOf, Installed,
         LocalSnapshot;
    match op
    case Apply(q, payload, sequence) => {
      if q != p {
        OtherDelivery(c, q, payload, sequence, p);
      } else if ApplyRemote(c, p, payload, sequence).1 == Changed {
        AcceptedIsEncoding(payload.value, sequence);
        var s := DecodeSnapshot(payload.value, sequence).snapshot;
        NewerThanRemembered(c, p, s);
        InstallReplacesOne(c, p, s);
      }
    }
    case RemoveParticipant(q) => RemovalKeepsOthers(c, q, p);
    case AddNode(_, _, _, _, _) => LocalStepsKeepViews(c, op, p);
    case RemoveNode(_) => LocalStepsKeepViews(c, op, p);
    case AddEndpoint(_, _, _, _, _, _) => LocalStepsKeepViews(c, op, p);
    case RemoveEndpoint(_) => LocalStepsKeepViews(c, op, p);
  }

  // ---------------------------------------------------------------- from one graph to another

  lemma LocalNodesOk(nodes: Slots<Node>, l: seq<Node>)
    requires NodesOk(nodes) && l == LocalsOf(nodes, |nodes|)
    ensures forall i :: 0 <= i < |l| ==> NodeOk(l[i])
    ensures forall i, j :: 0 <= i < j < |l| ==> l[i].id != l[j].id
  {
    hide LocalsOf, NodeOk;
    forall i: nat | i < |l| ensures NodeOk(l[i]) {
      var a := LocalSlot(nodes, |nodes|, i);
    }
    forall i: nat, j: nat | i < j < |l| ensures l[i].id != l[j].id {
      var a := LocalSlot(nodes, |nodes|, i);
      var b := LocalSlot(nodes, |nodes|, j);
      assert a != b;
      assert !SameNode(nodes[if a < b then a else b].value, nodes[if a < b then b else a].value);
    }
  }

  lemma LocalEndpointsOk(endpoints: Slots<Endpoint>, l: seq<Endpoint>)
    requires EndpointsOk(endpoints) && l == LocalsOf(endpoints, |endpoints|)
    ensures forall i :: 0 <= i < |l| ==> EndpointOk(l[i])
    ensures forall i, j :: 0 <= i < j < |l| ==> l[i].entityId != l[j].entityId
  {
    hide LocalsOf, EndpointOk;
    forall i: nat | i < |l| ensures EndpointOk(l[i]) {
      var a := LocalSlot(endpoints, |endpoints|, i);
    }
    forall i: nat, j: nat | i < j < |l| ensures l[i].entityId != l[j].entityId {
      var a := LocalSlot(endpoints, |endpoints|, i);
      var b := LocalSlot(endpoints, |endpoints|, j);
      assert a != b;
      assert !SameEndpoint(endpoints[if a < b then a else b].value, endpoints[if a < b then b else a].value);
    }
  }

  lemma LocalOwners(c: Cache)
    requires AllOwned(c.nodes, c.endpoints)
    ensures var s := LocalSnapshot(c); forall i :: 0 <= i < |s.endpoints| ==> HasNode(s.nodes, s.endpoints[i].nodeId)
  {
    hide LocalsOf;
    var s := LocalSnapshot(c);
    forall i: nat | i < |s.endpoints| ensures HasNode(s.nodes, s.endpoints[i].nodeId) {
      var a := LocalSlot(c.endpoints, |c.endpoints|, i);
      var k :| 0 <= k < |c.nodes| && IsOwner(c.nodes[k], c.endpoints[a].value);
      LocalAt(c.nodes, k, |c.nodes|);
    }
  }

  /** With no more records of our own than a snapshot may carry, what we announce is well formed. */
  lemma AnnouncementIsOk(c: Cache)
    requires Integrity(c)
    requires |LocalSnapshot(c).nodes| <= LOCAL_NODE_CAPACITY && |LocalSnapshot(c).endpoints| <= LOCAL_ENDPOINT_CAPACITY
    ensures SnapshotOk(LocalSnapshot(c))
  {
    hide LocalSnapshot, NodesOk, EndpointsOk, AllOwned, RemotesOk, AllKnown, SnapshotOk;
    RecordsAreOk(c);
  }

  lemma RecordsAreOk(c: Cache)
    requires NodesOk(c.nodes) && EndpointsOk(c.endpoints) && AllOwned(c.nodes, c.endpoints)
    requires 0 < c.localGeneration <= INT64_MAX
    requires |LocalSnapshot(c).nodes| <= LOCAL_NODE_CAPACITY && |LocalSnapshot(c).endpoints| <= LOCAL_ENDPOINT_CAPACITY
    ensures SnapshotOk(LocalSnapshot(c))
  {
    hide LocalsOf, NodesOk, EndpointsOk, AllOwned, NodeOk, EndpointOk, HasNode;
    LocalNodesOk(c.nodes, LocalSnapshot(c).nodes);
    LocalEndpointsOk(c.endpoints, LocalSnapshot(c).endpoints);
    LocalOwners(c);
  }

  /** Announcing into a buffer of wire size fails only for too many records of our own: it never overflows. */
  lemma WireBufferSuffices(c: Cache)
    requires Integrity(c)
    ensures SerializeError(LocalSnapshot(c), true, WIRE_CAPACITY).None?
       <==> |LocalSnapshot(c).nodes| <= LOCAL_NODE_CAPACITY && |LocalSnapshot(c).endpoints| <= LOCAL_ENDPOINT_CAPACITY
    ensures SerializeError(LocalSnapshot(c), true, WIRE_CAPACITY) != Some(BufferOverflow)
  {
    hide Integrity, LocalSnapshot, EncodeSnapshot, SnapshotOk;
    if |LocalSnapshot(c).nodes| <= LOCAL_NODE_CAPACITY && |LocalSnapshot(c).endpoints| <= LOCAL_ENDPOINT_CAPACITY {
      AnnouncementIsOk(c);
      SnapshotFits(LocalSnapshot(c));
    }
  }

  /**
   What one graph announces, a peer that has not seen it yet and has room shows unchanged,
   record for record and in order.
   */
  lemma PeerShowsAnnouncement(c: Cache, peer: Cache, p: GuidPrefix)
    requires Integrity(c) && SerializeError(LocalSnapshot(c), true, WIRE_CAPACITY).None?
    requires ValidPrefix(p) && GenerationOf(peer.remotes, p) < c.localGeneration
    requires Destination(peer.remotes, p) < |peer.remotes| && HasRoom(peer, p, LocalSnapshot(c))
    ensures var s := LocalSnapshot(c);
            var (r, update, error) := ApplyRemote(peer, p, Some(EncodeSnapshot(s)), s.generation);
            && update == Changed && error.None? && ViewOf(r, p) == Shown(c.localGeneration, s.nodes, s.endpoints)
            && (forall q: GuidPrefix :: q != p ==> ViewOf(r, q) == ViewOf(peer, q))
            && LocalSnapshot(r) == LocalSnapshot(peer)
  {
    hide Integrity, LocalsOf, EncodeSnapshot, SnapshotOk, ValidPrefix, GenerationOf, Destination, HasRoom, ApplyRemote,
         ViewOf;
    AnnouncementIsOk(c);
    assert Acceptable(peer, p, Some(EncodeSnapshot(LocalSnapshot(c))), LocalSnapshot(c));
    DeliveryIsAtomic(peer, p, Some(EncodeSnapshot(LocalSnapshot(c))), c.localGeneration);
  }
}
