/** Fixed tables of tagged records: first-free insertion, clearing one participant, filtering in slot order. */
module GraphSlots {
  import opened RtpsTypes

  /** A record with the participant it came from and whether it is ours. */
  datatype Tagged<T> = Tagged(prefix: GuidPrefix, local: bool, body: T)

  type Slots<T> = seq<Option<Tagged<T>>>

  predicate IsRemoteOf<T>(slot: Option<Tagged<T>>, p: GuidPrefix)
  {
    slot.Some? && !slot.value.local && slot.value.prefix == p
  }

  predicate IsLocal<T>(slot: Option<Tagged<T>>)
  {
    slot.Some? && slot.value.local
  }

  /** The first unoccupied slot, or the table size. */
  function FirstFree<T>(slots: seq<Option<T>>, from: nat): (i: nat)
    requires from <= |slots|
    ensures from <= i <= |slots|
    ensures forall j :: from <= j < i ==> slots[j].Some?
    ensures i < |slots| ==> slots[i].None?
    decreases |slots| - from
  {
    if from == |slots| || slots[from].None? then from else FirstFree(slots, from + 1)
  }

  /** Put a record in the first free slot; a full table drops it. */
  function Insert<T>(slots: Slots<T>, t: Tagged<T>): (r: Slots<T>)
    ensures |r| == |slots|
  {
    var i := FirstFree(slots, 0);
    if i < |slots| then slots[i := Some(t)] else slots
  }

  function InsertAll<T>(slots: Slots<T>, p: GuidPrefix, bodies: seq<T>, n: nat): (r: Slots<T>)
    requires n <= |bodies|
    ensures |r| == |slots|
  {
    if n == 0 then slots else Insert(InsertAll(slots, p, bodies, n - 1), Tagged(p, false, bodies[n - 1]))
  }

  function Cleared<T>(slots: Slots<T>, p: GuidPrefix): (r: Slots<T>)
    ensures |r| == |slots|
    ensures forall i :: 0 <= i < |slots| ==> r[i] == if IsRemoteOf(slots[i], p) then None else slots[i]
  {
    seq(|slots|, i requires 0 <= i < |slots| => if IsRemoteOf(slots[i], p) then None else slots[i])
  }

  /** How many of the first `n` slots are occupied. */
  function Used<T>(slots: Slots<T>, n: nat): (c: nat)
    requires n <= |slots|
    ensures c <= n
  {
    if n == 0 then 0 else Used(slots, n - 1) + (if slots[n - 1].Some? then 1 else 0)
  }

  /** The remote records of `p` among the first `n` slots, in slot order. */
  function RemotesOf<T>(slots: Slots<T>, p: GuidPrefix, n: nat): (r: seq<T>)
    requires n <= |slots|
  {
    if n == 0 then []
    else RemotesOf(slots, p, n - 1) + (if IsRemoteOf(slots[n - 1], p) then [slots[n - 1].value.body] else [])
  }

  /** Our own records among the first `n` slots, in slot order. */
  function LocalsOf<T>(slots: Slots<T>, n: nat): (r: seq<T>)
    requires n <= |slots|
  {
    if n == 0 then []
    else LocalsOf(slots, n - 1) + (if IsLocal(slots[n - 1]) then [slots[n - 1].value.body] else [])
  }

  // ---------------------------------------------------------------- counting

  lemma {:induction false} FullWhenNoneFree<T>(slots: Slots<T>, n: nat)
    requires n <= |slots| && forall i :: 0 <= i < n ==> slots[i].Some?
    ensures Used(slots, n) == n
  {
    if n > 0 {
      FullWhenNoneFree(slots, n - 1);
    }
  }

  lemma {:induction false} UsedUpdate<T>(slots: Slots<T>, i: nat, t: Tagged<T>, n: nat)
    requires i < |slots| && n <= |slots| && slots[i].None?
    ensures Used(slots[i := Some(t)], n) == Used(slots, n) + (if i < n then 1 else 0)
  {
    if n > 0 {
      UsedUpdate(slots, i, t, n - 1);
    }
  }

  /** A table with room has a free slot, and inserting uses up one. */
  lemma RoomMeansFree<T>(slots: Slots<T>)
    requires Used(slots, |slots|) < |slots|
    ensures FirstFree(slots, 0) < |slots|
  {
    if FirstFree(slots, 0) == |slots| {
      FullWhenNoneFree(slots, |slots|);
    }
  }

  lemma InsertUses<T>(slots: Slots<T>, t: Tagged<T>)
    requires Used(slots, |slots|) < |slots|
    ensures Used(Insert(slots, t), |slots|) == Used(slots, |slots|) + 1
  {
    RoomMeansFree(slots);
    UsedUpdate(slots, FirstFree(slots, 0), t, |slots|);
  }

  // ---------------------------------------------------------------- filtering

  lemma {:induction false} RemotesOfNone<T>(slots: Slots<T>, p: GuidPrefix, m: nat, n: nat)
    requires m <= n <= |slots| && forall i :: m <= i < n ==> !IsRemoteOf(slots[i], p)
    ensures RemotesOf(slots, p, n) == RemotesOf(slots, p, m)
    decreases n
  {
    if m < n {
      RemotesOfNone(slots, p, m, n - 1);
    }
  }

  lemma {:induction false} RemotesOfAgree<T>(a: Slots<T>, b: Slots<T>, p: GuidPrefix, n: nat)
    requires n <= |a| && n <= |b|
    requires forall i :: 0 <= i < n ==> (IsRemoteOf(a[i], p) || IsRemoteOf(b[i], p) ==> a[i] == b[i])
    ensures RemotesOf(a, p, n) == RemotesOf(b, p, n)
  {
    if n > 0 {
      RemotesOfAgree(a, b, p, n - 1);
    }
  }

  lemma {:induction false} LocalsOfAgree<T>(a: Slots<T>, b: Slots<T>, n: nat)
    requires n <= |a| && n <= |b|
    requires forall i :: 0 <= i < n ==> (IsLocal(a[i]) || IsLocal(b[i]) ==> a[i] == b[i])
    ensures LocalsOf(a, n) == LocalsOf(b, n)
  {
    if n > 0 {
      LocalsOfAgree(a, b, n - 1);
    }
  }

  /** What an installation has done so far: `r` is `slots` with `p`'s records filled in at the front-most free slots. */
  ghost predicate Installing<T>(slots: Slots<T>, p: GuidPrefix, r: Slots<T>)
  {
    && |r| == |slots|
    && (forall i :: 0 <= i < |r| ==> r[i] == slots[i] || (slots[i].None? && IsRemoteOf(r[i], p)))
    && (forall i :: FirstFree(r, 0) <= i < |r| ==> r[i] == slots[i])
  }

  lemma InsertKeepsInstalling<T>(slots: Slots<T>, p: GuidPrefix, r: Slots<T>, body: T)
    requires Installing(slots, p, r) && FirstFree(r, 0) < |r|
    ensures Installing(slots, p, Insert(r, Tagged(p, false, body)))
  {
    hide FirstFree;
    var f := FirstFree(r, 0);
    var r' := Insert(r, Tagged(p, false, body));
    assert FirstFree(r', 0) > f;
  }

  lemma InsertInstalls<T>(slots: Slots<T>, p: GuidPrefix, r: Slots<T>, body: T)
    requires forall i :: 0 <= i < |slots| ==> !IsRemoteOf(slots[i], p)
    requires Installing(slots, p, r) && FirstFree(r, 0) < |r|
    ensures RemotesOf(Insert(r, Tagged(p, false, body)), p, |r|) == RemotesOf(r, p, |r|) + [body]
  {
    hide FirstFree, RemotesOf;
    var f := FirstFree(r, 0);
    var r' := Insert(r, Tagged(p, false, body));
    RemotesOfNone(r, p, f, |r|);
    RemotesOfNone(r', p, f + 1, |r|);
    RemotesOfAgree(r, r', p, f);
    RemotesOfNext(r', p, f);
  }

  lemma RemotesOfNext<T>(slots: Slots<T>, p: GuidPrefix, n: nat)
    requires n < |slots| && IsRemoteOf(slots[n], p)
    ensures RemotesOf(slots, p, n + 1) == RemotesOf(slots, p, n) + [slots[n].value.body]
  {}

  /**
   Installing a list of records where there is room stores every one of them, in order,
   and leaves every other slot alone.
   */
  lemma {:induction false} InsertAllInstalls<T>(slots: Slots<T>, p: GuidPrefix, bodies: seq<T>, n: nat)
    requires n <= |bodies| && Used(slots, |slots|) + n <= |slots|
    requires forall i :: 0 <= i < |slots| ==> !IsRemoteOf(slots[i], p)
    ensures var r := InsertAll(slots, p, bodies, n);
            && RemotesOf(r, p, |r|) == bodies[..n]
            && Installing(slots, p, r)
            && Used(r, |r|) == Used(slots, |slots|) + n
  {
    if n == 0 {
      RemotesOfNone(slots, p, 0, |slots|);
    } else {
      InsertAllInstalls(slots, p, bodies, n - 1);
      var r := InsertAll(slots, p, bodies, n - 1);
      RoomMeansFree(r);
      InsertKeepsInstalling(slots, p, r, bodies[n - 1]);
      InsertInstalls(slots, p, r, bodies[n - 1]);
      InsertUses(r, Tagged(p, false, bodies[n - 1]));
      assert bodies[..n] == bodies[..n - 1] + [bodies[n - 1]];
    }
  }
}
