/**
 Serialising a message by walking its type. The walk has no capacity checks of its
 own worth the name: the analysis has already bounded everything it writes.
 */
module XcdrSerializer {
  import opened Bytes
  import opened RtpsTypes
  import opened XcdrTypes
  import opened TypeSupport
  import opened TypeUnfolding
  import opened XcdrMessages
  import opened Cdr

  /** The writer is open, has not failed, and holds exactly `bytes` after its header. */
  ghost predicate Holding(writer: CdrWriter, order: ByteOrder, bytes: seq<byte>)
    reads writer, writer.buffer
  {
    writer.Valid() && writer.View() == Out(HeaderBytes(order) + bytes, order, None, true)
  }

  lemma RoomForBlock(e: Element, position: nat, assumed: nat)
    requires position <= assumed
    ensures match e
            case Scalar(k) => AlignUp(position, Width(k)) + Width(k) <= ElementEnd(e, assumed)
            case Text(bound) => AlignUp(position, 4) + 4 + bound + 1 <= ElementEnd(e, assumed)
            case Nested(_) => true
  {
    match e
    case Scalar(k) => AlignUpMonotone(position, assumed, Width(k));
    case Text(_) => AlignUpMonotone(position, assumed, 4);
    case Nested(_) =>
  }

  method SerializeElement(language: Language, e: Element, v: Value, writer: CdrWriter,
                          order: ByteOrder, ghost bytes: seq<byte>, ghost assumed: nat)
    returns (problem: Option<CodecError>)
    requires Holding(writer, order, bytes) && Holds(language, e, v) && |bytes| <= assumed
    requires ElementEnd(e, assumed) + ENCAPSULATION_SIZE <= writer.buffer.Length
    requires e.Text? ==> e.bound < UINT32_MAX
    requires e.Nested? ==> BoundedText(e.fields)
    modifies writer`error, writer`offset, writer.buffer
    ensures writer.Valid() && problem == ElementProblem(e, v)
    ensures problem.None? ==> Holding(writer, order, bytes + EncodeElement(e, v, |bytes|, order))
    decreases e, 0
  {
    hide FieldsProblem, EncodeFields, FieldsEnd, Encode, AlignUp, HoldsField, BoundedText;
    problem := None;
    RoomForBlock(e, |bytes|, assumed);
    match e {
      case Scalar(k) =>
        var ok := writer.WriteIntegral(v.bits, Width(k));
        assert ok;
        AppendBlock(order, bytes, Width(k), Encode(v.bits, Width(k), order));
      case Text(bound) =>
        if v.store.CString? && ((v.store.buffer.None? && v.store.size != 0) ||
                                (v.store.buffer.Some? && (|v.store.buffer.value| <= v.store.size ||
                                                          v.store.buffer.value[v.store.size] != 0)))
        {
          return Some(InvalidMessageStorage);
        }
        if |v.store.Chars()| > bound {
          return Some(FieldBoundExceeded);
        }
        var ok := writer.WriteText(v.store.Chars(), bound);
        assert ok;
        AppendBlock(order, bytes, 4, TextBlock(v.store.Chars(), order));
      case Nested(fields) =>
        problem := SerializeMembers(language, fields, v.cells, writer, order, bytes, assumed);
    }
  }

  lemma AppendBlock(order: ByteOrder, bytes: seq<byte>, a: nat, block: seq<byte>)
    requires Alignment(a)
    ensures HeaderBytes(order) + bytes + Gap(|bytes|, a) + block == HeaderBytes(order) +
        (bytes + Aligned(|bytes|, a, block))
  {}

  method SerializeElements(language: Language, f: Field, values: seq<Value>, writer: CdrWriter,
                           order: ByteOrder, ghost bytes: seq<byte>, ghost assumed: nat)
    returns (problem: Option<CodecError>)
    requires Holding(writer, order, bytes) && |bytes| <= assumed
    requires forall i :: 0 <= i < |values| ==> Holds(language, f.element, values[i])
    requires RepeatEnd(f.element, |values|, assumed) + ENCAPSULATION_SIZE <= writer.buffer.Length
    requires FieldTextBounded(f)
    modifies writer`error, writer`offset, writer.buffer
    ensures writer.Valid() && problem == ElementsProblem(f.element, values, |values|)
    ensures problem.None? ==>
              Holding(writer, order, bytes + EncodeElements(f.element, values, |values|, |bytes|, order))
    decreases f, 0
  {
    hide ElementProblem, EncodeElement, ElementEnd, Holds;
    ghost var e, n := f.element, |values|;
    assert bytes + [] == bytes;
    for index := 0 to |values|
      invariant writer.Valid()
      invariant ElementsProblem(e, values, index).None?
      invariant Holding(writer, order, bytes + EncodeElements(e, values, index, |bytes|, order))
    {
      ghost var before := EncodeElements(e, values, index, |bytes|, order);
      ElementsFit(language, e, values, index, |bytes|, assumed, order);
      RepeatEndMonotone(e, index + 1, n, assumed, assumed);
      problem := SerializeElement(language, f.element, values[index], writer, order, bytes + before,
                                  RepeatEnd(e, index, assumed));
      if problem.Some? {
        ElementsProblemStays(e, values, index + 1, n);
        return;
      }
      assert bytes + before + EncodeElement(e, values[index], |bytes + before|, order)
          == bytes + EncodeElements(e, values, index + 1, |bytes|, order);
    }
    problem := None;
  }

  method SerializeMembers(language: Language, fields: seq<Field>, cells: seq<Cell>, writer: CdrWriter,
                          order: ByteOrder, ghost bytes: seq<byte>, ghost assumed: nat)
    returns (problem: Option<CodecError>)
    requires Holding(writer, order, bytes) && HoldsFields(language, fields, cells) && |bytes| <= assumed
    requires FieldsEnd(fields, |fields|, assumed) + ENCAPSULATION_SIZE <= writer.buffer.Length
    requires BoundedText(fields)
    modifies writer`error, writer`offset, writer.buffer
    ensures writer.Valid() && problem == FieldsProblem(fields, cells, |fields|)
    ensures problem.None? ==> Holding(writer, order, bytes + EncodeFields(fields, cells, |fields|, |bytes|, order))
    decreases fields, 2
  {
    hide FieldProblem, EncodeField, FieldEnd, HoldsField;
    assert bytes + [] == bytes;
    for index := 0 to |fields|
      invariant writer.Valid()
      invariant FieldsProblem(fields, cells, index).None?
      invariant Holding(writer, order, bytes + EncodeFields(fields, cells, index, |bytes|, order))
    {
      ghost var before := EncodeFields(fields, cells, index, |bytes|, order);
      FieldsFit(language, fields, cells, index, |bytes|, assumed, order);
      FieldsEndGrows(fields, index + 1, |fields|, assumed);
      assert HoldsField(language, fields[index], cells[index]);
      problem := SerializeMember(language, fields[index], cells[index], writer, order, bytes + before,
                                 FieldsEnd(fields, index, assumed));
      if problem.Some? {
        FieldsProblemStays(fields, cells, index + 1, |fields|);
        return;
      }
      assert bytes + before + EncodeField(fields[index], cells[index], |bytes + before|, order)
          == bytes + EncodeFields(fields, cells, index + 1, |bytes|, order);
    }
    problem := None;
  }

  method SerializeMember(language: Language, f: Field, c: Cell, writer: CdrWriter,
                         order: ByteOrder, ghost bytes: seq<byte>, ghost assumed: nat)
    returns (problem: Option<CodecError>)
    requires Holding(writer, order, bytes) && HoldsField(language, f, c) && |bytes| <= assumed
    requires FieldEnd(f, assumed) + ENCAPSULATION_SIZE <= writer.buffer.Length
    requires FieldTextBounded(f)
    modifies writer`error, writer`offset, writer.buffer
    ensures writer.Valid() && problem == FieldProblem(f, c)
    ensures problem.None? ==> Holding(writer, order, bytes + EncodeField(f, c, |bytes|, order))
    decreases f, 1
  {
    hide ElementsProblem, EncodeElements, RepeatEnd, Encode, AlignUp, Holds;
    ghost var count := CountBytes(f, |c.values|, |bytes|, order);
    ghost var start := if f.shape.BoundedSequence? then AlignUp(assumed, 4) + 4 else assumed;
    if !f.shape.Single? {
      if !Readable(f) {
        return Some(CallbackMissing);
      }
      if !CountAllowed(f.shape, |c.values|) {
        return Some(FieldBoundExceeded);
      }
      if f.shape.BoundedSequence? {
        CountFits(f, |bytes|, assumed);
        var ok := writer.WriteIntegral(|c.values|, 4);
        assert ok;
        AppendBlock(order, bytes, 4, Encode(|c.values|, 4, order));
      }
    }
    CountFits(f, |bytes|, assumed);
    RepeatEndMonotone(f.element, |c.values|, Most(f.shape), start, start);
    assert bytes + [] == bytes;
    problem := SerializeElements(language, f, c.values, writer, order, bytes + count, start);
    assert bytes + count + EncodeElements(f.element, c.values, |c.values|, |bytes + count|, order)
        == bytes + EncodeField(f, c, |bytes|, order);
  }

  lemma CountFits(f: Field, position: nat, assumed: nat)
    requires position <= assumed
    ensures f.shape.BoundedSequence? ==> AlignUp(position, 4) + 4 <= AlignUp(assumed, 4) + 4 <= FieldEnd(f, assumed)
  {
    AlignUpMonotone(position, assumed, 4);
    var start := if f.shape.BoundedSequence? then AlignUp(assumed, 4) + 4 else assumed;
    RepeatEndMonotone(f.element, Most(f.shape), Most(f.shape), start, start);
  }

  lemma {:induction false} ElementsProblemStays(e: Element, values: seq<Value>, k: nat, n: nat)
    requires k <= n <= |values| && ElementsProblem(e, values, k).Some?
    ensures ElementsProblem(e, values, n) == ElementsProblem(e, values, k)
    decreases n
  {
    if k < n {
      ElementsProblemStays(e, values, k, n - 1);
    }
  }

  lemma {:induction false} FieldsProblemStays(fields: seq<Field>, cells: seq<Cell>, k: nat, n: nat)
    requires k <= n <= |fields| == |cells| && FieldsProblem(fields, cells, k).Some?
    ensures FieldsProblem(fields, cells, n) == FieldsProblem(fields, cells, k)
    decreases n
  {
    if k < n {
      FieldsProblemStays(fields, cells, k, n - 1);
    }
  }

  /** Every string bound fits a 32-bit length with its terminator, as the analysis demands. */
  predicate FieldTextBounded(f: Field)
    decreases f
  {
    match f.element
    case Scalar(_) => true
    case Text(bound) => bound < UINT32_MAX
    case Nested(fields) => BoundedText(fields)
  }

  predicate BoundedText(fields: seq<Field>)
    decreases fields, 1
  {
    forall i :: 0 <= i < |fields| ==> FieldTextBounded(fields[i])
  }

  lemma {:induction false} TreesAreTextBounded(g: Graph, language: Language, id: nat, fields: seq<Field>)
    requires Unfolds(g, language, id, fields)
    ensures BoundedText(fields)
    decreases fields, 1
  {
    forall i | 0 <= i < |fields| ensures FieldTextBounded(fields[i]) {
      FieldIsTextBounded(g, language, g[id].sizeOf, g[id].members[i], fields[i]);
    }
  }

  lemma {:induction false} FieldIsTextBounded(g: Graph, language: Language, sizeOf: nat, m: Member, f: Field)
    requires MemberUnfolds(g, language, sizeOf, m, f)
    ensures FieldTextBounded(f)
    decreases f
  {
    if f.element.Nested? {
      TreesAreTextBounded(g, language, m.nested.value.descriptor.value, f.element.fields);
    }
  }

  /** The result of a serialisation: an error, or the number of bytes at the front of the buffer. */
  datatype Serialized = Failed(error: CodecError) | Written(size: nat)

  /**
   What serialising a message into a buffer of this capacity gives: the type's own error, the message's first
   problem, or the complete encoding at the front of the buffer.
   */
  ghost predicate Serializes(g: Graph, language: Language, id: nat, message: seq<Cell>, order: ByteOrder,
                             buffer: seq<byte>, r: Serialized)
  {
    var analysis := Analyze(g, language, id, |buffer|);
    if analysis.Err? then r == Failed(TypeSupportRejected(analysis.error))
    else
      Unfold(g, language, id, MAXIMUM_DEPTH).Some? &&
      var fields := Unfold(g, language, id, MAXIMUM_DEPTH).value;
      Unfolds(g, language, id, fields) && |message| == |fields| &&
      var problem := FieldsProblem(fields, message, |fields|);
      var encoding := EncodeFields(fields, message, |fields|, 0, order);
      if problem.Some? then r == Failed(problem.value)
      else r == Written(4 + |encoding|) && r.size <= |buffer| && buffer[..r.size] == HeaderBytes(order) + encoding
  }

  method SerializeMessage(g: Graph, language: Language, id: nat, message: seq<Cell>, buffer: array<byte>,
                          order: ByteOrder)
    returns (r: Serialized)
    requires buffer.Length <= SIZE_MAX
    requires forall fields :: Unfolds(g, language, id, fields) ==> HoldsFields(language, fields, message)
    modifies buffer
    ensures Serializes(g, language, id, message, order, buffer[..], r) && r != Failed(OutputTooSmall)
  {
    hide FieldsProblem, EncodeFields, HoldsField, Unfolds, Analyze, Unfold, Depth, FieldsEnd, LargestAlignment;
    RecognisedIsAnalyzed(g, language, id, buffer.Length);
    var info := AnalyzeTypeSupport(g, Some(Handle(Some(language), Some(id))), buffer.Length);
    if info.Err? {
      return Failed(TypeSupportRejected(info.error));
    }
    AnalyzedTree(g, language, id, buffer.Length);
    var fields := Unfold(g, language, id, MAXIMUM_DEPTH).value;
    var writer := new CdrWriter(buffer);
    var ok := writer.Begin(order);
    assert ok;
    assert HeaderBytes(order) + [] == HeaderBytes(order);
    var problem := SerializeMembers(language, fields, message, writer, order, [], 0);
    FieldsProblemKinds(fields, message, |fields|);
    if problem.Some? {
      r := Failed(problem.value);
    } else {
      r := Written(writer.offset);
      assert [] + EncodeFields(fields, message, |fields|, 0, order) ==
          EncodeFields(fields, message, |fields|, 0, order);
      assert buffer[..][..r.size] == buffer[..r.size];
    }
  }

  /** The storage a caller hands over has the shape of its type. */
  ghost predicate HoldsType(g: Graph, handle: Handle, cells: seq<Cell>)
  {
    Recognised(handle) ==>
      forall fields :: Unfolds(g, handle.language.value, handle.descriptor.value, fields) ==>
        HoldsFields(handle.language.value, fields, cells)
  }

  /**
   Null arguments and an unknown byte order are refused; an unusable handle is the analysis's error. Otherwise a
   type accepted for this buffer never runs out of it: the outcome is never a lack of room.
   */
  method SerializeXcdr1(g: Graph, handle: Option<Handle>, message: Option<seq<Cell>>, buffer: array?<byte>,
                        order: Option<ByteOrder>) returns (r: Serialized)
    requires buffer != null ==> buffer.Length <= SIZE_MAX
    requires handle.Some? && message.Some? ==> HoldsType(g, handle.value, message.value)
    modifies buffer
    ensures handle.None? || message.None? || buffer == null || order.None? ==> r == Failed(CodecError.InvalidArgument)
    ensures handle.Some? && message.Some? && buffer != null && order.Some? ==>
              if Recognised(handle.value) then
                Serializes(g, handle.value.language.value, handle.value.descriptor.value, message.value, order.value,
                           buffer[..], r)
              else
                AnalyzeHandle(g, handle, buffer.Length).Err? &&
                r == Failed(TypeSupportRejected(AnalyzeHandle(g, handle, buffer.Length).error))
    ensures r != Failed(OutputTooSmall)
  {
    hide Serializes, HoldsFields, Unfolds, Analyze;
    if handle.None? || message.None? || buffer == null || order.None? {
      return Failed(CodecError.InvalidArgument);
    }
    if !Recognised(handle.value) {
      return Failed(TypeSupportRejected(AnalyzeHandle(g, handle, buffer.Length).error));
    }
    var h := handle.value;
    r := SerializeMessage(g, h.language.value, h.descriptor.value, message.value, buffer, order.value);
  }

  lemma AnalyzedTree(g: Graph, language: Language, id: nat, maximum: nat)
    requires maximum <= SIZE_MAX && Analyze(g, language, id, maximum).Ok?
    ensures maximum >= 4 && Unfold(g, language, id, MAXIMUM_DEPTH).Some?
    ensures var fields := Unfold(g, language, id, MAXIMUM_DEPTH).value;
            && Unfolds(g, language, id, fields) && BoundedText(fields) && FieldsEnd(fields, |fields|, 0) + 4 <= maximum
  {
    hide Unfolds, Depth, FieldsEnd, DescriptorTotals, Unfold, LargestAlignment;
    DescriptorAccepted(g, language, id, [], NOTHING, maximum - 4);
    WithinLimit(g, language, id, [], NOTHING, maximum - 4);
    UnfoldIsTree(g, language, id, MAXIMUM_DEPTH);
    TreesAreTextBounded(g, language, id, Unfold(g, language, id, MAXIMUM_DEPTH).value);
  }

  /** The analysed maximum bounds the encoding of every message of the type, in either byte order. */
  lemma SizeIsSound(g: Graph, language: Language, id: nat, maximum: nat, fields: seq<Field>, message: seq<Cell>,
                    order: ByteOrder)
    requires maximum <= SIZE_MAX && Analyze(g, language, id, maximum).Ok?
    requires Unfolds(g, language, id, fields) && HoldsFields(language, fields, message)
    requires FieldsProblem(fields, message, |fields|).None?
    ensures |EncodeFields(fields, message, |fields|, 0, order)| <= Analyze(g, language, id, maximum).totals.offset
            <= maximum - ENCAPSULATION_SIZE
  {
    hide Unfolds, Depth, FieldsEnd, DescriptorTotals, Unfold, LargestAlignment, FieldsProblem, EncodeFields,
         HoldsFields;
    AnalysisIsExact(g, language, id, maximum);
    WithinLimit(g, language, id, [], NOTHING, maximum - 4);
    FieldsFit(language, fields, message, |fields|, 0, 0, order);
  }

  /** A message's problems are about its storage, never about the buffer. */
  lemma {:induction false} FieldsProblemKinds(fields: seq<Field>, cells: seq<Cell>, n: nat)
    requires n <= |fields| == |cells|
    ensures FieldsProblem(fields, cells, n) in {None, Some(InvalidMessageStorage), Some(CallbackMissing),
                                                Some(FieldBoundExceeded)}
    decreases fields, n
  {
    if n > 0 {
      FieldsProblemKinds(fields, cells, n - 1);
      FieldProblemKinds(fields[n - 1], cells[n - 1]);
    }
  }

  lemma {:induction false} FieldProblemKinds(f: Field, c: Cell)
    ensures FieldProblem(f, c) in {None, Some(InvalidMessageStorage), Some(CallbackMissing), Some(FieldBoundExceeded)}
    decreases f
  {
    ElementsProblemKinds(f.element, c.values, |c.values|);
  }

  lemma {:induction false} ElementsProblemKinds(e: Element, values: seq<Value>, n: nat)
    requires n <= |values|
    ensures ElementsProblem(e, values, n) in {None, Some(InvalidMessageStorage), Some(CallbackMissing),
                                              Some(FieldBoundExceeded)}
    decreases e, n
  {
    if n > 0 {
      ElementsProblemKinds(e, values, n - 1);
      var v := values[n - 1];
      if e.Nested? && v.Record? && |v.cells| == |e.fields| {
        FieldsProblemKinds(e.fields, v.cells, |e.fields|);
      }
    }
  }
}
