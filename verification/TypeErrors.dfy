/** Which reason the type analysis gives for refusing a type. */
module TypeErrors {
  import opened XcdrTypes
  import opened TypeSupport

  /** Every descriptor on the path exists and stands there once. */
  ghost predicate OnePath(g: Graph, path: seq<nat>)
  {
    (forall i :: 0 <= i < |path| ==> path[i] in g) && forall i, j :: 0 <= i < j < |path| ==> path[i] != path[j]
  }

  /** A path that visits nothing twice is no longer than the graph is large. */
  lemma {:induction false} PathIsShort(g: Graph, path: seq<nat>)
    requires OnePath(g, path)
    ensures |path| <= |g|
  {
    var visited := set i | 0 <= i < |path| :: path[i];
    assert visited <= g.Keys;
    SubsetIsSmall(visited, g.Keys);
    DistinctSize(path, |path|);
    assert visited == set i | 0 <= i < |path| :: path[i];
    assert |g| == |g.Keys|;
  }

  lemma {:induction false} DistinctSize(path: seq<nat>, n: nat)
    requires n <= |path| && forall i, j :: 0 <= i < j < |path| ==> path[i] != path[j]
    ensures |set i | 0 <= i < n :: path[i]| == n
  {
    var all := set i | 0 <= i < n :: path[i];
    if n == 0 {
      assert all == {};
    } else {
      DistinctSize(path, n - 1);
      var rest := set i | 0 <= i < n - 1 :: path[i];
      assert all == rest + {path[n - 1]};
      assert path[n - 1] !in rest;
    }
  }

  lemma {:induction false} SubsetIsSmall(a: set<nat>, b: set<nat>)
    requires a <= b
    ensures |a| <= |b|
  {
    if a != {} {
      var x :| x in a;
      SubsetIsSmall(a - {x}, b - {x});
    }
  }

  ghost predicate NotTooDeep(r: Outcome)
  {
    r != Err(NestingLimitExceeded)
  }

  lemma {:induction false} DescriptorNotTooDeep(g: Graph, language: Language, id: nat, path: seq<nat>, t: Totals,
                                                limit: nat)
    requires |g| < MAXIMUM_DEPTH && OnePath(g, path)
    ensures NotTooDeep(DescriptorTotals(g, language, id, path, t, limit))
    decreases Below(path), 1
  {
    hide MembersTotals;
    PathIsShort(g, path);
    if WellFormed(g, id) && id !in path {
      MembersNotTooDeep(g, language, id, |g[id].members|, path, t.(depth := Max(t.depth, |path| + 1)), limit);
    }
  }

  lemma {:induction false} MembersNotTooDeep(g: Graph, language: Language, id: nat, n: nat, path: seq<nat>, t: Totals,
                                             limit: nat)
    requires |g| < MAXIMUM_DEPTH && OnePath(g, path + [id])
    requires id in g && n <= |g[id].members| && |path| < MAXIMUM_DEPTH
    ensures NotTooDeep(MembersTotals(g, language, id, n, path, t, limit))
    decreases Below(path), 0, n
  {
    hide MemberTotals, OnePath;
    if n > 0 {
      MembersNotTooDeep(g, language, id, n - 1, path, t, limit);
      var before := MembersTotals(g, language, id, n - 1, path, t, limit);
      if before.Ok? {
        MemberNotTooDeep(g, language, g[id].members[n - 1], path + [id], before.totals, limit);
      }
    }
  }

  lemma {:induction false} MemberNotTooDeep(g: Graph, language: Language, m: Member, path: seq<nat>, t: Totals,
                                            limit: nat)
    requires |g| < MAXIMUM_DEPTH && OnePath(g, path)
    ensures NotTooDeep(MemberTotals(g, language, m, path, t, limit))
    decreases Below(path), 4
  {
    hide RepeatTotals, OnePath, AlignUp;
    RepeatNotTooDeep(g, language, m, 1, path, t, limit);
    RepeatNotTooDeep(g, language, m, m.arraySize, path, t, limit);
    var length := AppendAligned(t, 4, 4, limit);
    if length.Ok? {
      RepeatNotTooDeep(g, language, m, m.arraySize, path, length.totals, limit);
    }
  }

  lemma {:induction false} RepeatNotTooDeep(g: Graph, language: Language, m: Member, n: nat, path: seq<nat>, t: Totals,
                                            limit: nat)
    requires |g| < MAXIMUM_DEPTH && OnePath(g, path)
    ensures NotTooDeep(RepeatTotals(g, language, m, n, path, t, limit))
    decreases Below(path), 3, n
  {
    hide ElementTotals, OnePath;
    if n > 0 {
      RepeatNotTooDeep(g, language, m, n - 1, path, t, limit);
      var before := RepeatTotals(g, language, m, n - 1, path, t, limit);
      if before.Ok? {
        ElementNotTooDeep(g, language, m, path, before.totals, limit);
      }
    }
  }

  lemma {:induction false} ElementNotTooDeep(g: Graph, language: Language, m: Member, path: seq<nat>, t: Totals,
                                             limit: nat)
    requires |g| < MAXIMUM_DEPTH && OnePath(g, path)
    ensures NotTooDeep(ElementTotals(g, language, m, path, t, limit))
    decreases Below(path), 2
  {
    hide DescriptorTotals, OnePath, AlignUp;
    if m.typeId == MessageType && m.nested.Some? && m.nested.value.descriptor.Some? {
      DescriptorNotTooDeep(g, language, m.nested.value.descriptor.value, path, t, limit);
    }
  }

  /**
   With fewer descriptors than the nesting limit, nesting is never the reason: a walk that would not end meets a
   descriptor it is inside of first, and the type is refused as recursive.
   */
  lemma CyclesAreNamed(g: Graph, language: Language, id: nat, maximum: nat)
    requires |g| < MAXIMUM_DEPTH
    ensures Analyze(g, language, id, maximum) != Err(NestingLimitExceeded)
  {
    if maximum >= ENCAPSULATION_SIZE {
      DescriptorNotTooDeep(g, language, id, [], NOTHING, maximum - ENCAPSULATION_SIZE);
    }
  }
}
