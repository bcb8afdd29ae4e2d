/**
 What acceptance by the type analysis means: the descriptor graph, cyclic or not,
 unfolds from its root to a finite tree of bounded depth whose largest encoding fits.
 */
module TypeUnfolding {
  import opened RtpsTypes
  import opened XcdrTypes
  import opened TypeSupport

  // ---------------------------------------------------------------- trees of descriptors

  /** The shape a member declares; none when it is unbounded or too large. */
  function ShapeOf(m: Member): (s: Option<Shape>)
  {
    if !m.isArray then Some(Single)
    else if m.arraySize == 0 then None
    else if !m.isUpperBound then Some(FixedArray(m.arraySize))
    else if m.arraySize > UINT32_MAX then None
    else Some(BoundedSequence(m.arraySize))
  }

  predicate PointsAt(language: Language, m: Member)
  {
    m.nested.Some? && m.nested.value.language == Some(language) && m.nested.value.descriptor.Some?
  }

  /** The tree `fields` is what the descriptor at `id` describes, followed all the way down. */
  ghost predicate Unfolds(g: Graph, language: Language, id: nat, fields: seq<Field>)
    decreases fields, 1
  {
    id in g && g[id].named && (g[id].members == [] || (g[id].sizeOf > 0 && g[id].listed)) &&
    |fields| == |g[id].members| &&
    forall i :: 0 <= i < |fields| ==> MemberUnfolds(g, language, g[id].sizeOf, g[id].members[i], fields[i])
  }

  ghost predicate MemberUnfolds(g: Graph, language: Language, sizeOf: nat, m: Member, f: Field)
    decreases f
  {
    m.named && m.offset < sizeOf && ShapeOf(m) == Some(f.shape) && m.callbacks == f.callbacks &&
    match f.element
    case Scalar(kind) => m.typeId == ScalarType(kind)
    case Text(bound) => m.typeId == StringType && m.stringBound == bound && 0 < bound < UINT32_MAX
    case Nested(inner) =>
      m.typeId == MessageType && PointsAt(language, m) && Unfolds(g, language, m.nested.value.descriptor.value, inner)
  }

  function ElementDepth(e: Element): (d: nat)
    decreases e, 0
  {
    if e.Nested? then Depth(e.fields, |e.fields|) else 0
  }

  /** The nesting depth of a tree, counting its first `n` fields. */
  function Depth(fields: seq<Field>, n: nat): (d: nat)
    requires n <= |fields|
    ensures d >= 1
    decreases fields, n
  {
    if n == 0 then 1 else Max(Depth(fields, n - 1), 1 + FieldDepth(fields[n - 1]))
  }

  function FieldDepth(f: Field): (d: nat)
    decreases f
  {
    ElementDepth(f.element)
  }

  function ElementAlignment(e: Element): (a: nat)
    decreases e, 0
  {
    match e
    case Scalar(kind) => Width(kind)
    case Text(_) => 4
    case Nested(fields) => LargestAlignment(fields, |fields|)
  }

  function LargestAlignment(fields: seq<Field>, n: nat): (a: nat)
    requires n <= |fields|
    decreases fields, n
  {
    if n == 0 then 1
    else Max(LargestAlignment(fields, n - 1), FieldAlignment(fields[n - 1]))
  }

  function FieldAlignment(f: Field): (a: nat)
    decreases f
  {
    Max(if f.shape.BoundedSequence? then 4 else 1, ElementAlignment(f.element))
  }

  // ---------------------------------------------------------------- unfolding with a depth allowance

  function Unfold(g: Graph, language: Language, id: nat, fuel: nat): (r: Option<seq<Field>>)
    decreases fuel, 3
  {
    if !WellFormed(g, id) || fuel == 0 then None
    else UnfoldMembers(g, language, id, |g[id].members|, fuel - 1)
  }

  function UnfoldMembers(g: Graph, language: Language, id: nat, n: nat, fuel: nat): (r: Option<seq<Field>>)
    requires id in g && n <= |g[id].members|
    ensures r.Some? ==> |r.value| == n
    decreases fuel, 6, n
  {
    if n == 0 then Some([])
    else
      var before := UnfoldMembers(g, language, id, n - 1, fuel);
      var m := g[id].members[n - 1];
      if before.None? || m.offset >= g[id].sizeOf then None
      else
        var f := UnfoldMember(g, language, m, fuel);
        if f.None? then None else Some(before.value + [f.value])
  }

  function UnfoldMember(g: Graph, language: Language, m: Member, fuel: nat): (r: Option<Field>)
    decreases fuel, 5
  {
    var e := UnfoldElement(g, language, m, fuel);
    if !m.named || ShapeOf(m).None? || e.None? then None
    else Some(Field(ShapeOf(m).value, e.value, m.callbacks))
  }

  function UnfoldElement(g: Graph, language: Language, m: Member, fuel: nat): (r: Option<Element>)
    decreases fuel, 4
  {
    match m.typeId
    case ScalarType(kind) => Some(Scalar(kind))
    case StringType => if 0 < m.stringBound < UINT32_MAX then Some(Text(m.stringBound)) else None
    case MessageType =>
      if !PointsAt(language, m) then None
      else
        var inner := Unfold(g, language, m.nested.value.descriptor.value, fuel);
        if inner.None? then None else Some(Nested(inner.value))
    case OtherType => None
  }

  // ---------------------------------------------------------------- acceptance gives a tree

  /** What a successful step adds to the totals, when it has walked `e` `n` times. */
  ghost predicate Adds(e: Element, n: nat, path: seq<nat>, t: Totals, r: Totals)
  {
    && r.offset == RepeatEnd(e, n, t.offset)
    && (n > 0 ==> r.alignment == Max(t.alignment, ElementAlignment(e)))
    && (n > 0 ==> r.depth == Max(t.depth, |path| + ElementDepth(e)))
    && (n == 0 ==> r == t)
  }

  lemma AppendedIs(t: Totals, a: nat, w: nat, limit: nat)
    requires Alignment(a) && AppendAligned(t, a, w, limit).Ok?
    ensures var r := AppendAligned(t, a, w, limit).totals;
            r.offset == AlignUp(t.offset, a) + w && r.alignment == Max(t.alignment, a) && r.depth == t.depth &&
            r.offset <= limit
  {}

  lemma {:induction false} ElementAccepted(g: Graph, language: Language, m: Member, path: seq<nat>, t: Totals,
                                           limit: nat)
    requires 0 < |path| <= MAXIMUM_DEPTH && t.depth >= |path| && t.alignment >= 1
    requires ElementTotals(g, language, m, path, t, limit).Ok?
    ensures UnfoldElement(g, language, m, MAXIMUM_DEPTH - |path|).Some?
    ensures Adds(UnfoldElement(g, language, m, MAXIMUM_DEPTH - |path|).value, 1, path, t,
                 ElementTotals(g, language, m, path, t, limit).totals)
    decreases Below(path), 2
  {
    hide MembersTotals, UnfoldMembers, FieldsEnd, RepeatEnd;
    match m.typeId {
    case ScalarType(kind) =>
      AppendedIs(t, Width(kind), Width(kind), limit);
    case StringType =>
      AppendedIs(t, 4, 4, limit);
      AppendedIs(AppendAligned(t, 4, 4, limit).totals, 1, m.stringBound + 1, limit);
    case MessageType =>
      DescriptorAccepted(g, language, m.nested.value.descriptor.value, path, t, limit);
    case OtherType =>
    }
    RepeatOnce(UnfoldElement(g, language, m, MAXIMUM_DEPTH - |path|).value, t.offset);
  }

  lemma {:induction false} RepeatAccepted(g: Graph, language: Language, m: Member, n: nat, path: seq<nat>,
                                          t: Totals, limit: nat)
    requires 0 < |path| <= MAXIMUM_DEPTH && t.depth >= |path| && t.alignment >= 1 && n > 0
    requires RepeatTotals(g, language, m, n, path, t, limit).Ok?
    ensures UnfoldElement(g, language, m, MAXIMUM_DEPTH - |path|).Some?
    ensures Adds(UnfoldElement(g, language, m, MAXIMUM_DEPTH - |path|).value, n, path, t,
                 RepeatTotals(g, language, m, n, path, t, limit).totals)
    decreases Below(path), 3, n
  {
    hide ElementTotals, UnfoldElement, ElementEnd, ElementAlignment, ElementDepth;
    if n == 1 {
      assert RepeatTotals(g, language, m, 0, path, t, limit) == Ok(t);
      ElementAccepted(g, language, m, path, t, limit);
    } else {
      var before := RepeatTotals(g, language, m, n - 1, path, t, limit).totals;
      RepeatAccepted(g, language, m, n - 1, path, t, limit);
      ElementAccepted(g, language, m, path, before, limit);
      RepeatOnce(UnfoldElement(g, language, m, MAXIMUM_DEPTH - |path|).value, before.offset);
    }
  }

  lemma RepeatOnce(e: Element, offset: nat)
    ensures RepeatEnd(e, 1, offset) == ElementEnd(e, offset)
  {
    hide ElementEnd;
    assert RepeatEnd(e, 0, offset) == offset;
  }

  lemma {:induction false} MemberAccepted(g: Graph, language: Language, m: Member, path: seq<nat>, t: Totals,
                                          limit: nat)
    requires 0 < |path| <= MAXIMUM_DEPTH && t.depth >= |path| && t.alignment >= 1
    requires MemberTotals(g, language, m, path, t, limit).Ok?
    ensures UnfoldMember(g, language, m, MAXIMUM_DEPTH - |path|).Some?
    ensures var f, r := UnfoldMember(g, language, m, MAXIMUM_DEPTH - |path|).value,
                        MemberTotals(g, language, m, path, t, limit).totals;
            && r.offset == FieldEnd(f, t.offset)
            && r.alignment == Max(t.alignment, FieldAlignment(f))
            && r.depth == Max(t.depth, |path| + FieldDepth(f))
    decreases Below(path), 4
  {
    hide RepeatTotals, UnfoldElement, RepeatEnd, ElementAlignment, ElementDepth;
    var n := if m.isArray then m.arraySize else 1;
    var t' := t;
    if m.isArray && m.isUpperBound {
      AppendedIs(t, 4, 4, limit);
      t' := AppendAligned(t, 4, 4, limit).totals;
    }
    RepeatAccepted(g, language, m, n, path, t', limit);
  }

  lemma {:induction false} MembersAccepted(g: Graph, language: Language, id: nat, n: nat, path: seq<nat>,
                                           t: Totals, limit: nat)
    requires id in g && n <= |g[id].members| && |path| < MAXIMUM_DEPTH && t.depth >= |path| + 1 && t.alignment >= 1
    requires MembersTotals(g, language, id, n, path, t, limit).Ok?
    ensures UnfoldMembers(g, language, id, n, MAXIMUM_DEPTH - |path| - 1).Some?
    ensures var fields, r := UnfoldMembers(g, language, id, n, MAXIMUM_DEPTH - |path| - 1).value,
                             MembersTotals(g, language, id, n, path, t, limit).totals;
            && r.offset == FieldsEnd(fields, n, t.offset)
            && r.alignment == Max(t.alignment, LargestAlignment(fields, n))
            && r.depth == Max(t.depth, |path| + Depth(fields, n))
    decreases Below(path), 0, n
  {
    hide MemberTotals, UnfoldMember, FieldEnd, FieldAlignment, FieldDepth;
    if n > 0 {
      MembersAccepted(g, language, id, n - 1, path, t, limit);
      var before := MembersTotals(g, language, id, n - 1, path, t, limit).totals;
      MemberAccepted(g, language, g[id].members[n - 1], path + [id], before, limit);
      var fields := UnfoldMembers(g, language, id, n, MAXIMUM_DEPTH - |path| - 1).value;
      var first := UnfoldMembers(g, language, id, n - 1, MAXIMUM_DEPTH - |path| - 1).value;
      assert fields == first + [fields[n - 1]];
      AppendFields(first, [fields[n - 1]], n - 1, t.offset);
    }
  }

  /** The measures of a prefix do not depend on what follows it. */
  lemma {:induction false} AppendFields(fields: seq<Field>, more: seq<Field>, n: nat, offset: nat)
    requires n <= |fields|
    ensures FieldsEnd(fields + more, n, offset) == FieldsEnd(fields, n, offset)
    ensures LargestAlignment(fields + more, n) == LargestAlignment(fields, n)
    ensures Depth(fields + more, n) == Depth(fields, n)
  {
    hide FieldEnd, FieldAlignment, FieldDepth;
    if n > 0 {
      AppendFields(fields, more, n - 1, offset);
    }
  }

  lemma {:induction false} DescriptorAccepted(g: Graph, language: Language, id: nat, path: seq<nat>, t: Totals,
                                              limit: nat)
    requires |path| <= MAXIMUM_DEPTH && t.depth >= |path| && t.alignment >= 1
    requires DescriptorTotals(g, language, id, path, t, limit).Ok?
    ensures Unfold(g, language, id, MAXIMUM_DEPTH - |path|).Some?
    ensures var fields, r := Unfold(g, language, id, MAXIMUM_DEPTH - |path|).value,
                             DescriptorTotals(g, language, id, path, t, limit).totals;
            && r.offset == FieldsEnd(fields, |fields|, t.offset)
            && r.alignment == Max(t.alignment, LargestAlignment(fields, |fields|))
            && r.depth == Max(t.depth, |path| + Depth(fields, |fields|))
    decreases Below(path), 1
  {
    hide MembersTotals, UnfoldMembers, FieldsEnd, LargestAlignment, Depth;
    MembersAccepted(g, language, id, |g[id].members|, path, t.(depth := Max(t.depth, |path| + 1)), limit);
  }

  // ---------------------------------------------------------------- the depth allowance and the trees agree

  lemma {:induction false} UnfoldIsTree(g: Graph, language: Language, id: nat, fuel: nat)
    requires Unfold(g, language, id, fuel).Some?
    ensures var fields := Unfold(g, language, id, fuel).value;
            Unfolds(g, language, id, fields) && Depth(fields, |fields|) <= fuel
    decreases fuel, 3
  {
    hide UnfoldMembers, MemberUnfolds, Depth;
    UnfoldMembersAreTrees(g, language, id, |g[id].members|, fuel - 1);
  }

  lemma {:induction false} UnfoldMembersAreTrees(g: Graph, language: Language, id: nat, n: nat, fuel: nat)
    requires id in g && n <= |g[id].members| && UnfoldMembers(g, language, id, n, fuel).Some?
    ensures var fields := UnfoldMembers(g, language, id, n, fuel).value;
            && (forall i :: 0 <= i < n ==> MemberUnfolds(g, language, g[id].sizeOf, g[id].members[i], fields[i]))
            && Depth(fields, n) <= fuel + 1
    decreases fuel, 6, n
  {
    hide UnfoldMember, MemberUnfolds, FieldDepth;
    if n > 0 {
      UnfoldMembersAreTrees(g, language, id, n - 1, fuel);
      UnfoldMemberIsTree(g, language, g[id].sizeOf, g[id].members[n - 1], fuel);
      var fields := UnfoldMembers(g, language, id, n, fuel).value;
      var first := UnfoldMembers(g, language, id, n - 1, fuel).value;
      assert fields == first + [fields[n - 1]];
      AppendFields(first, [fields[n - 1]], n - 1, 0);
    }
  }

  lemma {:induction false} UnfoldMemberIsTree(g: Graph, language: Language, sizeOf: nat, m: Member, fuel: nat)
    requires m.offset < sizeOf && UnfoldMember(g, language, m, fuel).Some?
    ensures var f := UnfoldMember(g, language, m, fuel).value;
            MemberUnfolds(g, language, sizeOf, m, f) && FieldDepth(f) <= fuel
    decreases fuel, 5
  {
    hide Unfold, Unfolds, Depth;
    if m.typeId == MessageType {
      UnfoldIsTree(g, language, m.nested.value.descriptor.value, fuel);
    }
  }

  lemma {:induction false} TreeIsUnfold(g: Graph, language: Language, id: nat, fields: seq<Field>, fuel: nat)
    requires Unfolds(g, language, id, fields) && Depth(fields, |fields|) <= fuel
    ensures Unfold(g, language, id, fuel) == Some(fields)
    decreases fuel, 3
  {
    hide UnfoldMembers, MemberUnfolds, Depth;
    TreesAreUnfoldMembers(g, language, id, fields, |fields|, fuel - 1);
    assert fields[..|fields|] == fields;
  }

  lemma {:induction false} TreesAreUnfoldMembers(g: Graph, language: Language, id: nat, fields: seq<Field>, n: nat,
                                                 fuel: nat)
    requires id in g && n <= |fields| == |g[id].members| && Depth(fields, |fields|) <= fuel + 1
    requires forall i :: 0 <= i < |fields| ==> MemberUnfolds(g, language, g[id].sizeOf, g[id].members[i], fields[i])
    ensures UnfoldMembers(g, language, id, n, fuel) == Some(fields[..n])
    decreases fuel, 6, n
  {
    hide UnfoldMember, FieldDepth, Unfolds, Depth;
    if n > 0 {
      TreesAreUnfoldMembers(g, language, id, fields, n - 1, fuel);
      FieldIsShallower(fields, n - 1, |fields|);
      assert MemberUnfolds(g, language, g[id].sizeOf, g[id].members[n - 1], fields[n - 1]);
      TreeIsUnfoldMember(g, language, g[id].sizeOf, g[id].members[n - 1], fields[n - 1], fuel);
      assert fields[..n] == fields[..n - 1] + [fields[n - 1]];
    }
  }

  lemma {:induction false} TreeIsUnfoldMember(g: Graph, language: Language, sizeOf: nat, m: Member, f: Field, fuel: nat)
    requires MemberUnfolds(g, language, sizeOf, m, f) && FieldDepth(f) <= fuel
    ensures m.offset < sizeOf && UnfoldMember(g, language, m, fuel) == Some(f)
    decreases fuel, 5
  {
    hide Unfold, Unfolds, Depth;
    if f.element.Nested? {
      TreeIsUnfold(g, language, m.nested.value.descriptor.value, f.element.fields, fuel);
    }
  }

  lemma {:induction false} FieldIsShallower(fields: seq<Field>, i: nat, n: nat)
    requires i < n <= |fields|
    ensures FieldDepth(fields[i]) + 1 <= Depth(fields, n)
    decreases n
  {
    hide FieldDepth;
    if i < n - 1 {
      FieldIsShallower(fields, i, n - 1);
    }
  }

  /** A descriptor unfolds to at most one tree. */
  lemma TreeIsUnique(g: Graph, language: Language, id: nat, f1: seq<Field>, f2: seq<Field>)
    requires Unfolds(g, language, id, f1) && Unfolds(g, language, id, f2)
    ensures f1 == f2
  {
    hide Unfold, Unfolds, Depth;
    var fuel := Max(Depth(f1, |f1|), Depth(f2, |f2|));
    TreeIsUnfold(g, language, id, f1, fuel);
    TreeIsUnfold(g, language, id, f2, fuel);
  }

  // ---------------------------------------------------------------- a tree gives acceptance

  /** Every ancestor's tree is deeper than `d`. */
  ghost predicate Deeper(g: Graph, language: Language, path: seq<nat>, d: nat)
  {
    forall a :: a in path ==> exists fa :: Unfolds(g, language, a, fa) && Depth(fa, |fa|) > d
  }

  lemma AppendFits(t: Totals, a: nat, w: nat, limit: nat)
    requires Alignment(a) && AlignUp(t.offset, a) + w <= limit <= SIZE_MAX
    ensures AppendAligned(t, a, w, limit).Ok?
    ensures AppendAligned(t, a, w, limit).totals.offset == AlignUp(t.offset, a) + w
  {}

  lemma {:induction false} ElementComplete(g: Graph, language: Language, sizeOf: nat, m: Member, f: Field,
                                           path: seq<nat>, t: Totals, limit: nat)
    requires MemberUnfolds(g, language, sizeOf, m, f)
    requires |path| + FieldDepth(f) <= MAXIMUM_DEPTH && Deeper(g, language, path, FieldDepth(f))
    requires ElementEnd(f.element, t.offset) <= limit <= SIZE_MAX
    ensures ElementTotals(g, language, m, path, t, limit).Ok?
    ensures ElementTotals(g, language, m, path, t, limit).totals.offset == ElementEnd(f.element, t.offset)
    decreases f, 0
  {
    hide MembersTotals, FieldsEnd, Deeper, Unfolds, Depth;
    match f.element
    case Scalar(kind) => AppendFits(t, Width(kind), Width(kind), limit);
    case Text(bound) =>
      AppendFits(t, 4, 4, limit);
      AppendFits(AppendAligned(t, 4, 4, limit).totals, 1, bound + 1, limit);
    case Nested(inner) =>
      DescriptorComplete(g, language, m.nested.value.descriptor.value, inner, path, t, limit);
  }

  lemma {:induction false} RepeatComplete(g: Graph, language: Language, sizeOf: nat, m: Member, f: Field, n: nat,
                                          path: seq<nat>, t: Totals, limit: nat)
    requires MemberUnfolds(g, language, sizeOf, m, f)
    requires |path| + FieldDepth(f) <= MAXIMUM_DEPTH && Deeper(g, language, path, FieldDepth(f))
    requires RepeatEnd(f.element, n, t.offset) <= limit <= SIZE_MAX
    ensures RepeatTotals(g, language, m, n, path, t, limit).Ok?
    ensures RepeatTotals(g, language, m, n, path, t, limit).totals.offset == RepeatEnd(f.element, n, t.offset)
    decreases f, 1, n
  {
    hide ElementTotals, ElementEnd, Deeper, MemberUnfolds, FieldDepth;
    if n > 0 {
      var e := RepeatEnd(f.element, n - 1, t.offset);
      ElementEndMonotone(f.element, e, e);
      RepeatComplete(g, language, sizeOf, m, f, n - 1, path, t, limit);
      ElementComplete(g, language, sizeOf, m, f, path,
                      RepeatTotals(g, language, m, n - 1, path, t, limit).totals, limit);
    }
  }

  lemma {:induction false} MemberComplete(g: Graph, language: Language, sizeOf: nat, m: Member, f: Field,
                                          path: seq<nat>, t: Totals, limit: nat)
    requires MemberUnfolds(g, language, sizeOf, m, f)
    requires |path| + FieldDepth(f) <= MAXIMUM_DEPTH && Deeper(g, language, path, FieldDepth(f))
    requires FieldEnd(f, t.offset) <= limit <= SIZE_MAX
    ensures MemberTotals(g, language, m, path, t, limit).Ok?
    ensures MemberTotals(g, language, m, path, t, limit).totals.offset == FieldEnd(f, t.offset)
    decreases f, 2
  {
    hide RepeatTotals, RepeatEnd, Deeper, FieldDepth;
    var t' := t;
    if f.shape.BoundedSequence? {
      var start := AlignUp(t.offset, 4) + 4;
      RepeatEndMonotone(f.element, Most(f.shape), Most(f.shape), start, start);
      AppendFits(t, 4, 4, limit);
      t' := AppendAligned(t, 4, 4, limit).totals;
    }
    RepeatComplete(g, language, sizeOf, m, f, Most(f.shape), path, t', limit);
  }

  lemma {:induction false} MembersComplete(g: Graph, language: Language, id: nat, fields: seq<Field>, n: nat,
                                           path: seq<nat>, t: Totals, limit: nat)
    requires Unfolds(g, language, id, fields) && n <= |fields| && |path| < MAXIMUM_DEPTH
    requires |path| + Depth(fields, |fields|) <= MAXIMUM_DEPTH
    requires Deeper(g, language, path, Depth(fields, |fields|))
    requires FieldsEnd(fields, n, t.offset) <= limit <= SIZE_MAX
    ensures MembersTotals(g, language, id, n, path, t, limit).Ok?
    ensures MembersTotals(g, language, id, n, path, t, limit).totals.offset == FieldsEnd(fields, n, t.offset)
    decreases fields, n
  {
    hide MemberTotals, FieldEnd, Deeper, FieldDepth, Depth;
    if n > 0 {
      var e, m, f := FieldsEnd(fields, n - 1, t.offset), g[id].members[n - 1], fields[n - 1];
      FieldEndMonotone(f, e, e);
      MembersComplete(g, language, id, fields, n - 1, path, t, limit);
      FieldIsShallower(fields, n - 1, |fields|);
      StillDeeper(g, language, id, fields, path, FieldDepth(f));
      assert MemberUnfolds(g, language, g[id].sizeOf, m, f);
      MemberComplete(g, language, g[id].sizeOf, m, f, path + [id],
                     MembersTotals(g, language, id, n - 1, path, t, limit).totals, limit);
    }
  }

  lemma StillDeeper(g: Graph, language: Language, id: nat, fields: seq<Field>, path: seq<nat>, d: nat)
    requires Unfolds(g, language, id, fields) && Deeper(g, language, path, Depth(fields, |fields|))
    requires d < Depth(fields, |fields|)
    ensures Deeper(g, language, path + [id], d)
  {
    hide Unfolds, Depth;
    forall a | a in path + [id] ensures exists fa :: Unfolds(g, language, a, fa) && Depth(fa, |fa|) > d {
      if a in path {
        var fa :| Unfolds(g, language, a, fa) && Depth(fa, |fa|) > Depth(fields, |fields|);
        assert Unfolds(g, language, a, fa) && Depth(fa, |fa|) > d;
      } else {
        assert Unfolds(g, language, a, fields) && Depth(fields, |fields|) > d;
      }
    }
  }

  /** A descriptor with a finite tree is not among its own ancestors. */
  lemma NotItsOwnAncestor(g: Graph, language: Language, id: nat, fields: seq<Field>, path: seq<nat>)
    requires Unfolds(g, language, id, fields) && Deeper(g, language, path, Depth(fields, |fields|))
    ensures id !in path
  {
    hide Unfolds, Depth;
    if id in path {
      var fa :| Unfolds(g, language, id, fa) && Depth(fa, |fa|) > Depth(fields, |fields|);
      TreeIsUnique(g, language, id, fa, fields);
      assert false;
    }
  }

  lemma {:induction false} DescriptorComplete(g: Graph, language: Language, id: nat, fields: seq<Field>,
                                              path: seq<nat>, t: Totals, limit: nat)
    requires Unfolds(g, language, id, fields) && |path| + Depth(fields, |fields|) <= MAXIMUM_DEPTH
    requires Deeper(g, language, path, Depth(fields, |fields|))
    requires FieldsEnd(fields, |fields|, t.offset) <= limit <= SIZE_MAX
    ensures DescriptorTotals(g, language, id, path, t, limit).Ok?
    ensures DescriptorTotals(g, language, id, path, t, limit).totals.offset == FieldsEnd(fields, |fields|, t.offset)
    decreases fields, |fields| + 1
  {
    hide MembersTotals, FieldsEnd, Deeper, Depth;
    NotItsOwnAncestor(g, language, id, fields, path);
    MembersComplete(g, language, id, fields, |fields|, path, t.(depth := Max(t.depth, |path| + 1)), limit);
  }

  // ---------------------------------------------------------------- the theorem

  /**
   The analysis accepts a type exactly when the reachable descriptor graph unfolds to a
   finite tree of depth at most 16 whose largest encoding fits the sample limit, and it
   then reports that encoding's size, the tree's largest alignment and its depth.
   */
  lemma AnalysisIsExact(g: Graph, language: Language, id: nat, maximum: nat)
    requires maximum <= SIZE_MAX
    ensures Analyze(g, language, id, maximum).Ok? <==>
            exists fields :: Unfolds(g, language, id, fields) && Depth(fields, |fields|) <= MAXIMUM_DEPTH &&
                             FieldsEnd(fields, |fields|, 0) + ENCAPSULATION_SIZE <= maximum
    ensures Analyze(g, language, id, maximum).Ok? ==>
            forall fields :: Unfolds(g, language, id, fields) ==>
              var t := Analyze(g, language, id, maximum).totals;
              && t.offset == FieldsEnd(fields, |fields|, 0) && t.depth == Depth(fields, |fields|)
              && t.alignment == LargestAlignment(fields, |fields|)
  {
    hide Unfolds, Depth, FieldsEnd, DescriptorTotals, Unfold, LargestAlignment;
    var limit := if maximum < ENCAPSULATION_SIZE then 0 else maximum - ENCAPSULATION_SIZE;
    if Analyze(g, language, id, maximum).Ok? {
      DescriptorAccepted(g, language, id, [], NOTHING, limit);
      WithinLimit(g, language, id, [], NOTHING, limit);
      UnfoldIsTree(g, language, id, MAXIMUM_DEPTH);
      var tree := Unfold(g, language, id, MAXIMUM_DEPTH).value;
      AlignmentPositive(tree, |tree|);
      forall fields | Unfolds(g, language, id, fields) ensures fields == tree {
        TreeIsUnique(g, language, id, fields, tree);
      }
    }
    if fields :| Unfolds(g, language, id, fields) && Depth(fields, |fields|) <= MAXIMUM_DEPTH &&
                 FieldsEnd(fields, |fields|, 0) + ENCAPSULATION_SIZE <= maximum
    {
      DescriptorComplete(g, language, id, fields, [], NOTHING, limit);
    }
  }

  lemma {:induction false} AlignmentPositive(fields: seq<Field>, n: nat)
    requires n <= |fields|
    ensures LargestAlignment(fields, n) >= 1
  {
    if n > 0 {
      AlignmentPositive(fields, n - 1);
    }
  }

  // ---------------------------------------------------------------- accepted totals stay inside the limit

  lemma {:induction false} WithinLimit(g: Graph, language: Language, id: nat, path: seq<nat>, t: Totals, limit: nat)
    requires DescriptorTotals(g, language, id, path, t, limit).Ok? && t.offset <= limit
    ensures DescriptorTotals(g, language, id, path, t, limit).totals.offset <= limit
    decreases Below(path), 1
  {
    hide MembersTotals;
    MembersWithin(g, language, id, |g[id].members|, path, t.(depth := Max(t.depth, |path| + 1)), limit);
  }

  lemma {:induction false} MembersWithin(g: Graph, language: Language, id: nat, n: nat, path: seq<nat>, t: Totals,
                                         limit: nat)
    requires id in g && n <= |g[id].members| && |path| < MAXIMUM_DEPTH && t.offset <= limit
    requires MembersTotals(g, language, id, n, path, t, limit).Ok?
    ensures MembersTotals(g, language, id, n, path, t, limit).totals.offset <= limit
    decreases Below(path), 0, n
  {
    hide RepeatTotals;
    if n > 0 {
      MembersWithin(g, language, id, n - 1, path, t, limit);
      var m, t' := g[id].members[n - 1], MembersTotals(g, language, id, n - 1, path, t, limit).totals;
      var length := if m.isArray && m.isUpperBound then AppendAligned(t', 4, 4, limit).totals else t';
      RepeatWithin(g, language, m, if m.isArray then m.arraySize else 1, path + [id], length, limit);
    }
  }

  lemma {:induction false} RepeatWithin(g: Graph, language: Language, m: Member, n: nat, path: seq<nat>, t: Totals,
                                        limit: nat)
    requires RepeatTotals(g, language, m, n, path, t, limit).Ok? && t.offset <= limit
    ensures RepeatTotals(g, language, m, n, path, t, limit).totals.offset <= limit
    decreases Below(path), 3, n
  {
    hide MembersTotals;
    if n > 0 {
      RepeatWithin(g, language, m, n - 1, path, t, limit);
      if m.typeId == MessageType {
        WithinLimit(g, language, m.nested.value.descriptor.value, path,
                    RepeatTotals(g, language, m, n - 1, path, t, limit).totals, limit);
      }
    }
  }
}
