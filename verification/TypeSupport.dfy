/**
 The static analysis of a message type. A type is a graph of descriptors that point
 at each other and may be cyclic; the analysis walks it, refuses what it cannot
 bound, and returns the largest encoding of what is left.
 */
module TypeSupport {
  import opened RtpsTypes
  import opened XcdrTypes

  const MAXIMUM_DEPTH := 16
  const SIZE_MAX := 0xFFFF_FFFF_FFFF_FFFF

  datatype Language = IntrospectionC | IntrospectionCpp

  datatype TypeId = ScalarType(kind: ScalarKind) | StringType | MessageType | OtherType

  /** A type-support handle: its language, when recognised, and its descriptor. */
  datatype Handle = Handle(language: Option<Language>, descriptor: Option<nat>)

  datatype Member = Member(
    named: bool, typeId: TypeId, isArray: bool, isUpperBound: bool, arraySize: nat, stringBound: nat,
    offset: nat, nested: Option<Handle>, callbacks: Callbacks)

  /** `named` and `listed` say that the name pointers and the member pointer are not null. */
  datatype Descriptor = Descriptor(named: bool, sizeOf: nat, listed: bool, members: seq<Member>)

  /** Descriptors by address. */
  type Graph = map<nat, Descriptor>

  datatype Error =
    | InvalidArgument | UnsupportedIdentifier | InvalidMembers | UnsupportedField | UnboundedType
    | RecursiveType | NestingLimitExceeded | ArithmeticOverflow | SampleLimitExceeded

  datatype Totals = Totals(offset: nat, alignment: nat, depth: nat)

  datatype Outcome = Ok(totals: Totals) | Err(error: Error)

  function Max(a: nat, b: nat): (m: nat)
  {
    if a < b then b else a
  }

  // ---------------------------------------------------------------- what the analysis computes

  function AppendAligned(t: Totals, alignment: nat, width: nat, limit: nat): (r: Outcome)
    requires Alignment(alignment)
  {
    var padding := AlignUp(t.offset, alignment) - t.offset;
    if padding > SIZE_MAX - t.offset || width > SIZE_MAX - (t.offset + padding) then Err(ArithmeticOverflow)
    else
      var next := t.offset + padding + width;
      if next > limit then Err(SampleLimitExceeded)
      else Ok(t.(offset := next, alignment := Max(t.alignment, alignment)))
  }

  /** A rank for the walk at a path of descriptors: it never goes deeper than the depth limit. */
  function Below(path: seq<nat>): (n: nat)
  {
    if |path| > MAXIMUM_DEPTH then 0 else MAXIMUM_DEPTH + 1 - |path|
  }

  function ElementTotals(g: Graph, language: Language, m: Member, path: seq<nat>, t: Totals, limit: nat): (r: Outcome)
    decreases Below(path), 2
  {
    match m.typeId
    case ScalarType(kind) => AppendAligned(t, Width(kind), Width(kind), limit)
    case StringType =>
      if m.stringBound == 0 then Err(UnboundedType)
      else if m.stringBound >= UINT32_MAX then Err(ArithmeticOverflow)
      else
        var length := AppendAligned(t, 4, 4, limit);
        if length.Err? then length else AppendAligned(length.totals, 1, m.stringBound + 1, limit)
    case MessageType =>
      if m.nested.None? then Err(InvalidMembers)
      else if m.nested.value.language != Some(language) || m.nested.value.descriptor.None?
      then Err(UnsupportedIdentifier)
      else DescriptorTotals(g, language, m.nested.value.descriptor.value, path, t, limit)
    case OtherType => Err(UnsupportedField)
  }

  function RepeatTotals(g: Graph, language: Language, m: Member, n: nat, path: seq<nat>, t: Totals, limit: nat)
    : (r: Outcome)
    decreases Below(path), 3, n
  {
    if n == 0 then Ok(t)
    else
      var before := RepeatTotals(g, language, m, n - 1, path, t, limit);
      if before.Err? then before else ElementTotals(g, language, m, path, before.totals, limit)
  }

  function MemberTotals(g: Graph, language: Language, m: Member, path: seq<nat>, t: Totals, limit: nat): (r: Outcome)
    decreases Below(path), 4
  {
    if !m.named then Err(InvalidMembers)
    else if !m.isArray then RepeatTotals(g, language, m, 1, path, t, limit)
    else if m.isUpperBound then
      if m.arraySize == 0 then Err(InvalidMembers)
      else if m.arraySize > UINT32_MAX then Err(ArithmeticOverflow)
      else
        var length := AppendAligned(t, 4, 4, limit);
        if length.Err? then length else RepeatTotals(g, language, m, m.arraySize, path, length.totals, limit)
    else if m.arraySize == 0 then Err(UnboundedType)
    else RepeatTotals(g, language, m, m.arraySize, path, t, limit)
  }

  /** The first `n` members of descriptor `id`, whose ancestors are `path`. */
  function MembersTotals(g: Graph, language: Language, id: nat, n: nat, path: seq<nat>, t: Totals, limit: nat)
    : (r: Outcome)
    requires id in g && n <= |g[id].members| && |path| < MAXIMUM_DEPTH
    decreases Below(path), 0, n
  {
    if n == 0 then Ok(t)
    else
      var before := MembersTotals(g, language, id, n - 1, path, t, limit);
      if before.Err? then before
      else if g[id].members[n - 1].offset >= g[id].sizeOf then Err(InvalidMembers)
      else MemberTotals(g, language, g[id].members[n - 1], path + [id], before.totals, limit)
  }

  predicate WellFormed(g: Graph, id: nat)
  {
    id in g && g[id].named && (g[id].members != [] ==> g[id].sizeOf != 0 && g[id].listed)
  }

  function DescriptorTotals(g: Graph, language: Language, id: nat, path: seq<nat>, t: Totals, limit: nat): (r: Outcome)
    decreases Below(path), 1
  {
    if !WellFormed(g, id) then Err(InvalidMembers)
    else if |path| + 1 > MAXIMUM_DEPTH then Err(NestingLimitExceeded)
    else if id in path then Err(RecursiveType)
    else MembersTotals(g, language, id, |g[id].members|, path, t.(depth := Max(t.depth, |path| + 1)), limit)
  }

  const NOTHING := Totals(0, 1, 0)

  /** The analysis of the type rooted at `id` for samples of at most `maximum` bytes. */
  function Analyze(g: Graph, language: Language, id: nat, maximum: nat): (r: Outcome)
  {
    if maximum < ENCAPSULATION_SIZE then Err(InvalidArgument)
    else DescriptorTotals(g, language, id, [], NOTHING, maximum - ENCAPSULATION_SIZE)
  }

  /** A handle whose identifier is known and whose descriptor is not null. */
  predicate Recognised(handle: Handle)
  {
    handle.language.Some? && handle.descriptor.Some?
  }

  /** The analysis of a caller's handle, which may be null. */
  function AnalyzeHandle(g: Graph, handle: Option<Handle>, maximum: nat): (r: Outcome)
  {
    if handle.None? || handle.value.descriptor.None? || maximum < ENCAPSULATION_SIZE then Err(InvalidArgument)
    else if handle.value.language.None? then Err(UnsupportedIdentifier)
    else Analyze(g, handle.value.language.value, handle.value.descriptor.value, maximum)
  }

  lemma RecognisedIsAnalyzed(g: Graph, language: Language, id: nat, maximum: nat)
    ensures AnalyzeHandle(g, Some(Handle(Some(language), Some(id))), maximum) == Analyze(g, language, id, maximum)
  {}

  // ---------------------------------------------------------------- the analysis as it runs

  class AnalysisState {
    var offset: nat
    var maximumAlignment: nat
    var maximumDepth: nat
    const bodyLimit: nat
    const stack: array<Option<nat>>
    var error: Option<Error>

    ghost predicate Valid()
      reads this
    {
      stack.Length == MAXIMUM_DEPTH
    }

    ghost function View(): (t: Totals)
      reads this
    {
      Totals(offset, maximumAlignment, maximumDepth)
    }

    /** The ancestors are on the stack. */
    ghost predicate OnStack(path: seq<nat>)
      reads this, stack
    {
      && Valid() && |path| <= MAXIMUM_DEPTH
      && forall i :: 0 <= i < |path| ==> stack[i] == Some(path[i])
    }

    /** What a step of the analysis leaves behind: totals when it succeeded, an error when it did not. */
    ghost predicate Left(ok: bool, r: Outcome)
      reads this
    {
      ok == r.Ok? && (ok ==> View() == r.totals) && (!ok ==> error == Some(r.error))
    }

    constructor (bodyLimit: nat)
      ensures Valid() && fresh(stack) && this.bodyLimit == bodyLimit
      ensures View() == NOTHING
    {
      offset, maximumAlignment, maximumDepth, error := 0, 1, 0, None;
      this.bodyLimit := bodyLimit;
      stack := new Option<nat>[MAXIMUM_DEPTH](_ => None);
    }

    method Fail(e: Error) returns (ok: bool)
      modifies this`error
      ensures !ok && error == Some(e)
    {
      error := Some(e);
      ok := false;
    }

    method Append(alignment: nat, width: nat) returns (ok: bool)
      requires Valid() && Alignment(alignment)
      modifies this`offset, this`maximumAlignment, this`error
      ensures Left(ok, AppendAligned(old(View()), alignment, width, bodyLimit))
    {
      var remainder := offset % alignment;
      var padding := if remainder == 0 then 0 else alignment - remainder;
      if padding > SIZE_MAX - offset || width > SIZE_MAX - (offset + padding) {
        ok := Fail(ArithmeticOverflow);
        return;
      }
      var next := offset + padding + width;
      if next > bodyLimit {
        ok := Fail(SampleLimitExceeded);
        return;
      }
      offset := next;
      if alignment > maximumAlignment {
        maximumAlignment := alignment;
      }
      ok := true;
    }

    method AnalyzeElement(g: Graph, language: Language, m: Member, depth: nat, ghost path: seq<nat>) returns (ok: bool)
      requires OnStack(path) && |path| == depth
      modifies this, stack
      ensures Left(ok, ElementTotals(g, language, m, path, old(View()), bodyLimit))
      ensures OnStack(path)
      decreases Below(path), 2
    {
      match m.typeId
      case ScalarType(kind) =>
        ok := Append(Width(kind), Width(kind));
      case StringType =>
        if m.stringBound == 0 {
          ok := Fail(UnboundedType);
        } else if m.stringBound >= UINT32_MAX {
          ok := Fail(ArithmeticOverflow);
        } else {
          ok := Append(4, 4);
          if ok {
            ok := Append(1, m.stringBound + 1);
          }
        }
      case MessageType =>
        if m.nested.None? {
          ok := Fail(InvalidMembers);
        } else if m.nested.value.language != Some(language) || m.nested.value.descriptor.None? {
          ok := Fail(UnsupportedIdentifier);
        } else {
          ok := AnalyzeMembers(g, language, m.nested.value.descriptor.value, depth + 1, path);
        }
      case OtherType =>
        ok := Fail(UnsupportedField);
    }

    method AnalyzeMember(g: Graph, language: Language, m: Member, depth: nat, ghost path: seq<nat>) returns (ok: bool)
      requires OnStack(path) && |path| == depth
      modifies this, stack
      ensures Left(ok, MemberTotals(g, language, m, path, old(View()), bodyLimit))
      ensures OnStack(path)
      decreases Below(path), 4
    {
      if !m.named {
        ok := Fail(InvalidMembers);
        return;
      }
      var count := 1;
      if m.isArray {
        if m.isUpperBound {
          if m.arraySize == 0 {
            ok := Fail(InvalidMembers);
            return;
          }
          if m.arraySize > UINT32_MAX {
            ok := Fail(ArithmeticOverflow);
            return;
          }
          ok := Append(4, 4);
          if !ok {
            return;
          }
          count := m.arraySize;
        } else if m.arraySize == 0 {
          ok := Fail(UnboundedType);
          return;
        } else {
          count := m.arraySize;
        }
      }
      ok := AnalyzeElements(g, language, m, count, depth, path);
    }

    /** One analysis per element. */
    method AnalyzeElements(g: Graph, language: Language, m: Member, count: nat, depth: nat, ghost path: seq<nat>)
      returns (ok: bool)
      requires OnStack(path) && |path| == depth
      modifies this, stack
      ensures Left(ok, RepeatTotals(g, language, m, count, path, old(View()), bodyLimit))
      ensures OnStack(path)
      decreases Below(path), 3
    {
      hide ElementTotals;
      ghost var t := View();
      for index := 0 to count
        invariant OnStack(path)
        invariant RepeatTotals(g, language, m, index, path, t, bodyLimit) == Ok(View())
      {
        ok := AnalyzeElement(g, language, m, depth, path);
        if !ok {
          RepeatStops(g, language, m, index + 1, count, path, t, bodyLimit);
          return;
        }
      }
      ok := true;
    }

    /** The ancestor check: a descriptor already on the stack. */
    method Ancestor(id: nat, depth: nat, ghost path: seq<nat>) returns (found: bool)
      requires OnStack(path) && |path| + 1 == depth <= MAXIMUM_DEPTH
      ensures found <==> id in path
    {
      found := false;
      var index := 0;
      while index + 1 < depth
        invariant index <= |path|
        invariant id !in path[..index]
      {
        if stack[index] == Some(id) {
          assert path[index] == id;
          return true;
        }
        index := index + 1;
      }
      assert path[..index] == path;
    }

    method AnalyzeMembers(g: Graph, language: Language, id: nat, depth: nat, ghost path: seq<nat>) returns (ok: bool)
      requires OnStack(path) && |path| + 1 == depth
      modifies this, stack
      ensures Left(ok, DescriptorTotals(g, language, id, path, old(View()), bodyLimit))
      ensures OnStack(path)
      decreases Below(path), 1
    {
      if id !in g || !g[id].named || (|g[id].members| != 0 && g[id].sizeOf == 0) ||
         (|g[id].members| != 0 && !g[id].listed)
      {
        ok := Fail(InvalidMembers);
        return;
      }
      if depth > MAXIMUM_DEPTH {
        ok := Fail(NestingLimitExceeded);
        return;
      }
      var recursive := Ancestor(id, depth, path);
      if recursive {
        ok := Fail(RecursiveType);
        return;
      }
      stack[depth - 1] := Some(id);
      if depth > maximumDepth {
        maximumDepth := depth;
      }
      ok := AnalyzeEach(g, language, id, depth, path);
      if ok {
        stack[depth - 1] := None;
      }
    }

    method AnalyzeEach(g: Graph, language: Language, id: nat, depth: nat, ghost path: seq<nat>) returns (ok: bool)
      requires id in g && OnStack(path + [id]) && |path| + 1 == depth
      modifies this, stack
      ensures Left(ok, MembersTotals(g, language, id, |g[id].members|, path, old(View()), bodyLimit))
      ensures OnStack(path + [id])
      decreases Below(path), 0
    {
      hide MemberTotals;
      ghost var t := View();
      for index := 0 to |g[id].members|
        invariant OnStack(path + [id])
        invariant MembersTotals(g, language, id, index, path, t, bodyLimit) == Ok(View())
      {
        if g[id].members[index].offset >= g[id].sizeOf {
          ok := Fail(InvalidMembers);
          MembersStop(g, language, id, index + 1, |g[id].members|, path, t, bodyLimit);
          return;
        }
        ok := AnalyzeMember(g, language, g[id].members[index], depth, path + [id]);
        if !ok {
          MembersStop(g, language, id, index + 1, |g[id].members|, path, t, bodyLimit);
          return;
        }
      }
      ok := true;
    }
  }

  /** The first error ends a run of elements. */
  lemma {:induction false} RepeatStops(g: Graph, language: Language, m: Member, k: nat, n: nat, path: seq<nat>,
                                       t: Totals, limit: nat)
    requires k <= n && RepeatTotals(g, language, m, k, path, t, limit).Err?
    ensures RepeatTotals(g, language, m, n, path, t, limit) == RepeatTotals(g, language, m, k, path, t, limit)
    decreases n
  {
    if k < n {
      RepeatStops(g, language, m, k, n - 1, path, t, limit);
    }
  }

  lemma {:induction false} MembersStop(g: Graph, language: Language, id: nat, k: nat, n: nat, path: seq<nat>,
                                       t: Totals, limit: nat)
    requires id in g && k <= n <= |g[id].members| && |path| < MAXIMUM_DEPTH
    requires MembersTotals(g, language, id, k, path, t, limit).Err?
    ensures MembersTotals(g, language, id, n, path, t, limit) == MembersTotals(g, language, id, k, path, t, limit)
    decreases n
  {
    if k < n {
      MembersStop(g, language, id, k, n - 1, path, t, limit);
    }
  }

  method AnalyzeTypeSupport(g: Graph, handle: Option<Handle>, maximum: nat) returns (r: Outcome)
    ensures r == AnalyzeHandle(g, handle, maximum)
  {
    if handle.None? || handle.value.descriptor.None? || maximum < ENCAPSULATION_SIZE {
      return Err(InvalidArgument);
    }
    if handle.value.language.None? {
      return Err(UnsupportedIdentifier);
    }
    var state := new AnalysisState(maximum - ENCAPSULATION_SIZE);
    var ok := state.AnalyzeMembers(g, handle.value.language.value, handle.value.descriptor.value, 1, []);
    if ok {
      r := Ok(Totals(state.offset, state.maximumAlignment, state.maximumDepth));
    } else {
      r := Err(state.error.value);
    }
  }
}
