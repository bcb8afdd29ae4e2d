/** Message storage, its XCDR1 encoding, and what the serialiser finds wrong with it. */
module XcdrMessages {
  import opened Bytes
  import opened RtpsTypes
  import opened XcdrTypes
  import opened TypeSupport
  import Cdr

  datatype CodecError =
    | InvalidArgument | TypeSupportRejected(reason: TypeSupport.Error) | InvalidMessageStorage | CallbackMissing
    | FieldBoundExceeded | DestinationSizeMismatch | OutputTooSmall | InputTruncated | UnsupportedEncoding
    | InvalidWireData | TrailingData | CdrFailure

  function MapError(e: Cdr.Error): (r: CodecError)
  {
    match e
    case Overflow => OutputTooSmall
    case Underflow => InputTruncated
    case UnsupportedEncoding => UnsupportedEncoding
    case InvalidData => InvalidWireData
    case BoundExceeded => FieldBoundExceeded
    case NotInitialized => CdrFailure
  }

  /**
   A string in memory. A C string is a buffer, possibly null, whose length is its
   capacity, and a size; a C++ string is its characters and what it can hold
   without reallocating.
   */
  datatype StringStore = CString(buffer: Option<seq<byte>>, size: nat) | CppString(chars: seq<byte>, capacity: nat)
  {
    function Chars(): seq<byte>
    {
      match this
      case CString(buffer, size) => if buffer.Some? && size <= |buffer.value| then buffer.value[..size] else []
      case CppString(chars, _) => chars
    }
  }

  /** Memory laid out as a type says; scalars are bit patterns. */
  datatype Value = Number(bits: nat) | String(store: StringStore) | Record(cells: seq<Cell>)

  /** The values of one field: exactly one unless the field is an array or sequence. */
  datatype Cell = Cell(values: seq<Value>)

  predicate Holds(language: Language, e: Element, v: Value)
    decreases e, 0
  {
    match e
    case Scalar(k) => v.Number? && v.bits < Pow256(Width(k)) && (k == Boolean ==> v.bits <= 1)
    case Text(_) => v.String? && (language == IntrospectionC <==> v.store.CString?)
    case Nested(fields) => v.Record? && HoldsFields(language, fields, v.cells)
  }

  predicate HoldsField(language: Language, f: Field, c: Cell)
    decreases f
  {
    (f.shape.Single? ==> |c.values| == 1) && forall i :: 0 <= i < |c.values| ==> Holds(language, f.element, c.values[i])
  }

  predicate HoldsFields(language: Language, fields: seq<Field>, cells: seq<Cell>)
    decreases fields, 1
  {
    |cells| == |fields| && forall i :: 0 <= i < |fields| ==> HoldsField(language, fields[i], cells[i])
  }

  // ---------------------------------------------------------------- what the serialiser objects to

  /** The serialiser can count the elements and reach each of them. */
  predicate Readable(f: Field)
  {
    f.callbacks.size && (f.callbacks.getConst || (f.element == Scalar(Boolean) && f.callbacks.fetch))
  }

  predicate CountAllowed(shape: Shape, count: nat)
  {
    (if shape.BoundedSequence? then count <= shape.bound else count == Most(shape)) && count <= UINT32_MAX
  }

  function TextProblem(s: StringStore, bound: nat): (p: Option<CodecError>)
  {
    if s.CString? && ((s.buffer.None? && s.size != 0) ||
                      (s.buffer.Some? && (|s.buffer.value| <= s.size || s.buffer.value[s.size] != 0)))
    then Some(InvalidMessageStorage)
    else if |s.Chars()| > bound then Some(FieldBoundExceeded)
    else None
  }

  function ElementProblem(e: Element, v: Value): (p: Option<CodecError>)
    decreases e, 0
  {
    match e
    case Scalar(_) => None
    case Text(bound) => if v.String? then TextProblem(v.store, bound) else None
    case Nested(fields) =>
      if v.Record? && |v.cells| == |fields| then FieldsProblem(fields, v.cells, |fields|) else None
  }

  /** The first problem among the first `n` values. */
  function ElementsProblem(e: Element, values: seq<Value>, n: nat): (p: Option<CodecError>)
    requires n <= |values|
    decreases e, 1, n
  {
    if n == 0 then None
    else
      var before := ElementsProblem(e, values, n - 1);
      if before.Some? then before else ElementProblem(e, values[n - 1])
  }

  function FieldProblem(f: Field, c: Cell): (p: Option<CodecError>)
    decreases f
  {
    if !f.shape.Single? && !Readable(f) then Some(CallbackMissing)
    else if !f.shape.Single? && !CountAllowed(f.shape, |c.values|) then Some(FieldBoundExceeded)
    else ElementsProblem(f.element, c.values, |c.values|)
  }

  function FieldsProblem(fields: seq<Field>, cells: seq<Cell>, n: nat): (p: Option<CodecError>)
    requires n <= |fields| == |cells|
    decreases fields, n
  {
    if n == 0 then None
    else
      var before := FieldsProblem(fields, cells, n - 1);
      if before.Some? then before else FieldProblem(fields[n - 1], cells[n - 1])
  }

  // ---------------------------------------------------------------- the encoding

  function Aligned(position: nat, a: nat, block: seq<byte>): (b: seq<byte>)
    requires Alignment(a)
    ensures |b| == AlignUp(position, a) - position + |block|
  {
    Cdr.Gap(position, a) + block
  }

  /** The bytes of a value that starts at `position`, padding included. */
  function EncodeElement(e: Element, v: Value, position: nat, order: ByteOrder): (b: seq<byte>)
    decreases e, 0
  {
    match e
    case Scalar(k) => if v.Number? then Aligned(position, Width(k), Encode(v.bits, Width(k), order)) else []
    case Text(_) => if v.String? then Aligned(position, 4, Cdr.TextBlock(v.store.Chars(), order)) else []
    case Nested(fields) =>
      if v.Record? && |v.cells| == |fields| then EncodeFields(fields, v.cells, |fields|, position, order) else []
  }

  function EncodeElements(e: Element, values: seq<Value>, n: nat, position: nat, order: ByteOrder): (b: seq<byte>)
    requires n <= |values|
    decreases e, 1, n
  {
    if n == 0 then []
    else
      var before := EncodeElements(e, values, n - 1, position, order);
      before + EncodeElement(e, values[n - 1], position + |before|, order)
  }

  /** A bounded sequence starts with its count. */
  function CountBytes(f: Field, count: nat, position: nat, order: ByteOrder): (b: seq<byte>)
  {
    if f.shape.BoundedSequence? then Aligned(position, 4, Encode(count, 4, order)) else []
  }

  function EncodeField(f: Field, c: Cell, position: nat, order: ByteOrder): (b: seq<byte>)
    decreases f
  {
    var count := CountBytes(f, |c.values|, position, order);
    count + EncodeElements(f.element, c.values, |c.values|, position + |count|, order)
  }

  function EncodeFields(fields: seq<Field>, cells: seq<Cell>, n: nat, position: nat, order: ByteOrder): (b: seq<byte>)
    requires n <= |fields| == |cells|
    decreases fields, n
  {
    if n == 0 then []
    else
      var before := EncodeFields(fields, cells, n - 1, position, order);
      before + EncodeField(fields[n - 1], cells[n - 1], position + |before|, order)
  }

  // ---------------------------------------------------------------- size soundness

  /** An encoding that starts no later than the analysis assumed ends no later than it promised. */
  lemma {:induction false} ElementFits(language: Language, e: Element, v: Value, position: nat, assumed: nat,
                                       order: ByteOrder)
    requires Holds(language, e, v) && ElementProblem(e, v).None? && position <= assumed
    ensures position + |EncodeElement(e, v, position, order)| <= ElementEnd(e, assumed)
    decreases e, 0
  {
    hide FieldsProblem, EncodeFields, FieldsEnd, Encode, AlignUp;
    ElementEndMonotone(e, assumed, assumed);
    match e
    case Scalar(k) => AlignUpMonotone(position, assumed, Width(k));
    case Text(_) => AlignUpMonotone(position, assumed, 4);
    case Nested(fields) =>
      FieldsFit(language, fields, v.cells, |fields|, position, assumed, order);
  }

  lemma {:induction false} ElementsFit(language: Language, e: Element, values: seq<Value>, n: nat, position: nat,
                                       assumed: nat, order: ByteOrder)
    requires n <= |values| && (forall i :: 0 <= i < n ==> Holds(language, e, values[i]))
    requires ElementsProblem(e, values, n).None? && position <= assumed
    ensures position + |EncodeElements(e, values, n, position, order)| <= RepeatEnd(e, n, assumed)
    decreases e, 1, n
  {
    hide ElementProblem, EncodeElement, ElementEnd, Holds;
    if n > 0 {
      ElementsFit(language, e, values, n - 1, position, assumed, order);
      var before := EncodeElements(e, values, n - 1, position, order);
      ElementFits(language, e, values[n - 1], position + |before|, RepeatEnd(e, n - 1, assumed), order);
    }
  }

  lemma {:induction false} FieldFits(language: Language, f: Field, c: Cell, position: nat, assumed: nat,
                                     order: ByteOrder)
    requires HoldsField(language, f, c) && FieldProblem(f, c).None? && position <= assumed
    ensures position + |EncodeField(f, c, position, order)| <= FieldEnd(f, assumed)
    decreases f
  {
    hide Holds, ElementsProblem, EncodeElements, RepeatEnd, Encode, AlignUp;
    AlignUpMonotone(position, assumed, 4);
    var start := position + |CountBytes(f, |c.values|, position, order)|;
    var assumedStart := if f.shape.BoundedSequence? then AlignUp(assumed, 4) + 4 else assumed;
    ElementsFit(language, f.element, c.values, |c.values|, start, assumedStart, order);
    RepeatEndMonotone(f.element, |c.values|, Most(f.shape), assumedStart, assumedStart);
  }

  lemma {:induction false} FieldsFit(language: Language, fields: seq<Field>, cells: seq<Cell>, n: nat, position: nat,
                                     assumed: nat, order: ByteOrder)
    requires HoldsFields(language, fields, cells) && n <= |fields|
    requires FieldsProblem(fields, cells, n).None? && position <= assumed
    ensures position + |EncodeFields(fields, cells, n, position, order)| <= FieldsEnd(fields, n, assumed)
    decreases fields, n
  {
    hide FieldProblem, EncodeField, FieldEnd, HoldsField;
    if n > 0 {
      FieldsFit(language, fields, cells, n - 1, position, assumed, order);
      var before := EncodeFields(fields, cells, n - 1, position, order);
      FieldFits(language, fields[n - 1], cells[n - 1], position + |before|, FieldsEnd(fields, n - 1, assumed), order);
    }
  }
}
