/** The deserialiser as it runs: one recursive walk, used to validate and then to store. */
module XcdrDecoder {
  import opened Bytes
  import opened RtpsTypes
  import opened XcdrTypes
  import opened TypeSupport
  import opened TypeUnfolding
  import opened XcdrMessages
  import opened XcdrSerializer
  import opened XcdrDeserializer
  import opened Cdr

  method DecodeElement(e: Element, v: Value, reader: CdrReader, apply: bool)
    returns (store: Value, error: Option<CodecError>)
    requires reader.Valid()
    modifies reader`error, reader`offset
    ensures reader.Valid()
    ensures Step(store, reader.View(), error) == ProcessElement(e, v, reader.data, old(reader.View()), apply)
    decreases e, 0
  {
    hide ProcessFields, GetBoolean, GetIntegral, GetText;
    store, error := v, None;
    match e {
      case Scalar(k) =>
        var ok, bits;
        if k == Boolean {
          ok, bits := reader.ReadBoolean();
        } else {
          ok, bits := reader.ReadIntegral(Width(k));
        }
        if !ok {
          error := Some(MapError(reader.error.value));
        } else if apply {
          store := Number(bits);
        }
      case Text(bound) =>
        var ok, text := reader.ReadText(bound);
        if !ok {
          error := Some(MapError(reader.error.value));
        } else if !v.String? || !CanStore(v.store, |text|) {
          error := Some(InvalidMessageStorage);
        } else if apply {
          store := String(StoreText(v.store, text));
        }
      case Nested(fields) =>
        if v.Record? && |v.cells| == |fields| {
          var cells;
          cells, error := DecodeMembers(fields, v.cells, reader, apply);
          store := Record(cells);
        } else {
          error := Some(InvalidMessageStorage);
        }
    }
  }

  method DecodeElements(f: Field, values: seq<Value>, reader: CdrReader, apply: bool)
    returns (store: seq<Value>, error: Option<CodecError>)
    requires reader.Valid()
    modifies reader`error, reader`offset
    ensures reader.Valid()
    ensures Step(store, reader.View(), error)
            == ProcessElements(f.element, values, |values|, reader.data, old(reader.View()), apply)
    decreases f, 0
  {
    hide ProcessElement;
    ghost var start := reader.View();
    store := values;
    for index := 0 to |values|
      invariant reader.Valid() && |store| == |values|
      invariant ProcessElements(f.element, values, index, reader.data, start, apply) == Step(store, reader.View(), None)
    {
      var value;
      value, error := DecodeElement(f.element, values[index], reader, apply);
      store := store[index := value];
      if error.Some? {
        ElementsStop(f.element, values, index + 1, |values|, reader.data, start, apply);
        return;
      }
    }
    error := None;
  }

  method DecodeMember(f: Field, c: Cell, reader: CdrReader, apply: bool)
    returns (store: Cell, error: Option<CodecError>)
    requires reader.Valid()
    modifies reader`error, reader`offset
    ensures reader.Valid()
    ensures Step(store, reader.View(), error) == ProcessField(f, c, reader.data, old(reader.View()), apply)
    decreases f, 1
  {
    hide ProcessElements, GetIntegral;
    store, error := c, None;
    if !f.shape.Single? {
      if !f.callbacks.size {
        return c, Some(CallbackMissing);
      }
      var count := Most(f.shape);
      if f.shape.BoundedSequence? {
        var ok;
        ok, count := reader.ReadIntegral(4);
        if !ok {
          return c, Some(MapError(reader.error.value));
        }
        if count > f.shape.bound {
          return c, Some(FieldBoundExceeded);
        }
      }
      if |c.values| != count {
        return c, Some(DestinationSizeMismatch);
      }
      if !Usable(f, apply) {
        return c, Some(CallbackMissing);
      }
    }
    var values;
    values, error := DecodeElements(f, c.values, reader, apply);
    store := Cell(values);
  }

  method DecodeMembers(fields: seq<Field>, cells: seq<Cell>, reader: CdrReader, apply: bool)
    returns (store: seq<Cell>, error: Option<CodecError>)
    requires reader.Valid() && |fields| == |cells|
    modifies reader`error, reader`offset
    ensures reader.Valid()
    ensures Step(store, reader.View(), error)
            == ProcessFields(fields, cells, |fields|, reader.data, old(reader.View()), apply)
    decreases fields, 2
  {
    hide ProcessField;
    ghost var start := reader.View();
    store := cells;
    for index := 0 to |fields|
      invariant reader.Valid() && |store| == |cells|
      invariant ProcessFields(fields, cells, index, reader.data, start, apply) == Step(store, reader.View(), None)
    {
      var cell;
      cell, error := DecodeMember(fields[index], cells[index], reader, apply);
      store := store[index := cell];
      if error.Some? {
        FieldsStop(fields, cells, index + 1, |fields|, reader.data, start, apply);
        return;
      }
    }
    error := None;
  }

  lemma {:induction false} ElementsStop(e: Element, values: seq<Value>, k: nat, n: nat, data: seq<byte>, in_: In,
                                        apply: bool)
    requires k <= n <= |values| && Inside(data, in_) && ProcessElements(e, values, k, data, in_, apply).error.Some?
    ensures ProcessElements(e, values, n, data, in_, apply) == ProcessElements(e, values, k, data, in_, apply)
    decreases n
  {
    hide ProcessElement;
    if k < n {
      ElementsStop(e, values, k, n - 1, data, in_, apply);
    }
  }

  lemma {:induction false} FieldsStop(fields: seq<Field>, cells: seq<Cell>, k: nat, n: nat, data: seq<byte>, in_: In,
                                      apply: bool)
    requires k <= n <= |fields| == |cells| && Inside(data, in_)
    requires ProcessFields(fields, cells, k, data, in_, apply).error.Some?
    ensures ProcessFields(fields, cells, n, data, in_, apply) == ProcessFields(fields, cells, k, data, in_, apply)
    decreases n
  {
    hide ProcessField;
    if k < n {
      FieldsStop(fields, cells, k, n - 1, data, in_, apply);
    }
  }

  /** The caller's message storage. */
  class RosMessage {
    var cells: seq<Cell>

    constructor (cells: seq<Cell>)
      ensures this.cells == cells
    {
      this.cells := cells;
    }
  }

  /** Both passes over a type already unfolded. */
  method DecodeMessage(fields: seq<Field>, data: seq<byte>, message: RosMessage)
    returns (error: Option<CodecError>, size: nat)
    requires |fields| == |message.cells|
    modifies message
    ensures Outcome(message.cells, error, size) == Deserialize(fields, old(message.cells), data)
  {
    hide ProcessFields;
    var validator := new CdrReader(data);
    var ok := validator.Begin();
    if !ok {
      return Some(MapError(validator.error.value)), 0;
    }
    var kept;
    kept, error := DecodeMembers(fields, message.cells, validator, false);
    ValidationStoresNothing(fields, message.cells, |fields|, data, Begun(data, LittleEndian));
    if error.Some? {
      return error, validator.offset;
    }
    if validator.offset != |data| {
      return Some(TrailingData), validator.offset;
    }
    var reader := new CdrReader(data);
    ok := reader.Begin();
    var cells;
    cells, error := DecodeMembers(fields, message.cells, reader, true);
    message.cells := cells;
    size := reader.offset;
  }

  /** What deserialising into a message storage gives: the type's own error, or the outcome of the two passes. */
  ghost predicate Deserializes(g: Graph, language: Language, id: nat, data: seq<byte>, maximum: nat, before: seq<Cell>,
                               after: seq<Cell>, error: Option<CodecError>, size: nat)
  {
    var analysis := Analyze(g, language, id, maximum);
    if analysis.Err? then error == Some(TypeSupportRejected(analysis.error)) && after == before
    else
      Unfold(g, language, id, MAXIMUM_DEPTH).Some? &&
      var fields := Unfold(g, language, id, MAXIMUM_DEPTH).value;
      && |fields| == |before|
      && Outcome(after, error, size) == Deserialize(fields, before, data)
      && (AllPaired(fields) && error.Some? ==> after == before)
  }

  method DeserializeMessage(g: Graph, language: Language, id: nat, data: seq<byte>, maximum: nat, message: RosMessage)
    returns (error: Option<CodecError>, size: nat)
    requires maximum <= SIZE_MAX
    requires forall fields :: Unfolds(g, language, id, fields) ==> HoldsFields(language, fields, message.cells)
    modifies message
    ensures Deserializes(g, language, id, data, maximum, old(message.cells), message.cells, error, size)
  {
    hide Unfolds, Analyze, Unfold, Depth, FieldsEnd, Deserialize, HoldsField, AllPaired;
    size := 0;
    RecognisedIsAnalyzed(g, language, id, maximum);
    var info := AnalyzeTypeSupport(g, Some(Handle(Some(language), Some(id))), maximum);
    if info.Err? {
      return Some(TypeSupportRejected(info.error)), 0;
    }
    AnalyzedTree(g, language, id, maximum);
    var fields := Unfold(g, language, id, MAXIMUM_DEPTH).value;
    ghost var before := message.cells;
    error, size := DecodeMessage(fields, data, message);
    if AllPaired(fields) {
      DeserializeIsAtomic(fields, before, data);
    }
  }

  /** Null arguments and inputs beyond the limit are refused, with the message untouched. */
  method DeserializeXcdr1(g: Graph, handle: Option<Handle>, data: Option<seq<byte>>, maximum: nat, message: RosMessage?)
    returns (error: Option<CodecError>, size: nat)
    requires maximum <= SIZE_MAX && (handle.Some? && message != null ==> HoldsType(g, handle.value, message.cells))
    modifies message
    ensures handle.None? || data.None? || message == null || |data.value| > maximum ==>
              error == Some(CodecError.InvalidArgument) && (message != null ==> message.cells == old(message.cells))
    ensures handle.Some? && data.Some? && message != null && |data.value| <= maximum ==>
              if Recognised(handle.value) then
                Deserializes(g, handle.value.language.value, handle.value.descriptor.value, data.value, maximum,
                             old(message.cells), message.cells, error, size)
              else
                AnalyzeHandle(g, handle, maximum).Err? && message.cells == old(message.cells) &&
                error == Some(TypeSupportRejected(AnalyzeHandle(g, handle, maximum).error))
  {
    hide Deserializes, HoldsFields, Unfolds, Analyze;
    if handle.None? || data.None? || message == null || |data.value| > maximum {
      return Some(CodecError.InvalidArgument), 0;
    }
    if !Recognised(handle.value) {
      return Some(TypeSupportRejected(AnalyzeHandle(g, handle, maximum).error)), 0;
    }
    var h := handle.value;
    error, size := DeserializeMessage(g, h.language.value, h.descriptor.value, data.value, maximum, message);
  }
}
