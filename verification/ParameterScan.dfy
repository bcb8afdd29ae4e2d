/** What a scan of a parameter list accepts, whatever the bytes. */
module ParameterScan {
  import opened Bytes
  import opened Layout
  import opened ParameterList

  /** Whatever every step keeps, the whole scan keeps. */
  lemma {:induction false} ScanKeeps<S(!new), E>(payload: seq<byte>, offset: nat, order: ByteOrder, s: S, malformed: E,
                                                 step: (S, nat, seq<byte>, ByteOrder) -> Progress<S, E>,
                                                 kept: S -> bool)
    requires offset <= |payload| && kept(s)
    requires forall t, id, value :: kept(t) && step(t, id, value, order).Go? ==> kept(step(t, id, value, order).state)
    ensures var r := Scan(payload, offset, order, s, malformed, step); r.Go? ==> kept(r.state)
    decreases |payload| - offset
  {
    hide Load, Scan;
    if offset + 4 > |payload| {
      ScanShort(payload, offset, order, s, malformed, step);
    } else {
      ScanOne(payload, offset, order, s, malformed, step);
      var id, length := Load(payload, offset, 2, order), Load(payload, offset + 2, 2, order);
      if id != SENTINEL && length % 4 == 0 && length <= |payload| - offset - 4 {
        var next := step(s, id, payload[offset + 4..offset + 4 + length], order);
        if next.Go? {
          ScanKeeps(payload, offset + 4 + length, order, next.state, malformed, step, kept);
        }
      }
    }
  }

  /** From `start` stand well-formed parameters, which take the state from `s` to `t`. */
  ghost predicate ListedFrom<S, E>(payload: seq<byte>, start: nat, order: ByteOrder, ps: seq<Parameter>, s: S, t: S,
                                   step: (S, nat, seq<byte>, ByteOrder) -> Progress<S, E>)
  {
    && (forall i :: 0 <= i < |ps| ==> WellFormed(ps[i])) && At(payload, start, EncodeList(ps, order, |ps|))
    && Fold(s, ps, order, |ps|, step) == Go(t)
  }

  lemma ParameterIs(payload: seq<byte>, offset: nat, order: ByteOrder, p: Parameter)
    requires offset + 4 + |p.value| <= |payload| && p.value == payload[offset + 4..offset + 4 + |p.value|]
    requires Load(payload, offset, 2, order) == p.id && Load(payload, offset + 2, 2, order) == |p.value|
    ensures At(payload, offset, EncodeParameter(p, order)) && p.id <= 0xFFFF && |p.value| <= 0xFFFF
  {
    hide At, Load, Encode;
    Pow256Values();
    Reencode(payload, offset, 2, order);
    Reencode(payload, offset + 2, 2, order);
    SliceIsAt(payload, offset + 4, offset + 4 + |p.value|);
    Join(payload, offset + 2, Encode(|p.value|, 2, order), p.value);
    Join(payload, offset, Encode(p.id, 2, order), Encode(|p.value|, 2, order) + p.value);
  }

  lemma OneMoreListed<S, E>(payload: seq<byte>, start: nat, order: ByteOrder, ps: seq<Parameter>, s: S, t: S,
                        step: (S, nat, seq<byte>, ByteOrder) -> Progress<S, E>, p: Parameter)
    requires ListedFrom(payload, start, order, ps, s, t, step) && WellFormed(p)
    requires At(payload, start + |EncodeList(ps, order, |ps|)|, EncodeParameter(p, order))
    requires step(t, p.id, p.value, order).Go?
    ensures ListedFrom(payload, start, order, ps + [p], s, step(t, p.id, p.value, order).state, step)
    ensures |EncodeList(ps + [p], order, |ps| + 1)| == |EncodeList(ps, order, |ps|)| + 4 + |p.value|
  {
    hide At, EncodeParameter, WellFormed;
    ListSame(ps, [p], order, |ps|);
    FoldSame(s, ps, [p], order, |ps|, step);
    Join(payload, start, EncodeList(ps, order, |ps|), EncodeParameter(p, order));
  }

  lemma {:induction false} ListSame(ps: seq<Parameter>, more: seq<Parameter>, order: ByteOrder, n: nat)
    requires n <= |ps|
    ensures EncodeList(ps + more, order, n) == EncodeList(ps, order, n)
  {
    if n > 0 {
      ListSame(ps, more, order, n - 1);
    }
  }

  lemma {:induction false} FoldSame<S, E>(s: S, ps: seq<Parameter>, more: seq<Parameter>, order: ByteOrder, n: nat,
                                          step: (S, nat, seq<byte>, ByteOrder) -> Progress<S, E>)
    requires n <= |ps|
    ensures Fold(s, ps + more, order, n, step) == Fold(s, ps, order, n, step)
  {
    if n > 0 {
      FoldSame(s, ps, more, order, n - 1, step);
    }
  }

  /** What a scan accepts is a list of well-formed parameters up to a sentinel, and its result is theirs. */
  lemma {:induction false} ScannedIsList<S, E>(payload: seq<byte>, start: nat, order: ByteOrder, s: S, malformed: E,
                                               step: (S, nat, seq<byte>, ByteOrder) -> Progress<S, E>,
                                               before: seq<Parameter>, t: S) returns (ps: seq<Parameter>)
    requires ListedFrom(payload, start, order, before, s, t, step)
    requires start + |EncodeList(before, order, |before|)| <= |payload|
    requires Scan(payload, start + |EncodeList(before, order, |before|)|, order, t, malformed, step).Go?
    ensures var offset := start + |EncodeList(before, order, |before|)|;
            ListedFrom(payload, start, order, ps, s, Scan(payload, offset, order, t, malformed, step).state, step)
    ensures var end := start + |EncodeList(ps, order, |ps|)|;
            end + 4 <= |payload| && Load(payload, end, 2, order) == SENTINEL
    decreases |payload| - |EncodeList(before, order, |before|)|
  {
    hide Load, Scan, ListedFrom, EncodeList, EncodeParameter, At;
    var offset := start + |EncodeList(before, order, |before|)|;
    if offset + 4 > |payload| {
      ScanShort(payload, offset, order, t, malformed, step);
    }
    ScanOne(payload, offset, order, t, malformed, step);
    if Load(payload, offset, 2, order) == SENTINEL {
      ps := before;
    } else {
      var length := Load(payload, offset + 2, 2, order);
      var p := Parameter(Load(payload, offset, 2, order), payload[offset + 4..offset + 4 + length]);
      ParameterIs(payload, offset, order, p);
      OneMoreListed(payload, start, order, before, s, t, step, p);
      ps := ScannedIsList(payload, start, order, s, malformed, step, before + [p],
                          step(t, p.id, p.value, order).state);
    }
  }

  lemma NothingListed<S, E>(payload: seq<byte>, start: nat, order: ByteOrder, s: S,
                            step: (S, nat, seq<byte>, ByteOrder) -> Progress<S, E>)
    requires start <= |payload|
    ensures ListedFrom(payload, start, order, [], s, s, step) && EncodeList([], order, 0) == []
  {}

  /** Some parameter of the list has the identifier. */
  predicate Lists(ps: seq<Parameter>, id: nat)
  {
    exists i :: 0 <= i < |ps| && ps[i].id == id
  }
}
