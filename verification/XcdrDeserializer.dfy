/**
 Deserialising in two passes over one walk: the first pass only validates, the second
 also stores. Storage is threaded as a value, so a pass that stops half way shows
 exactly what it had already written.
 */
module XcdrDeserializer {
  import opened Bytes
  import opened Layout
  import opened RtpsTypes
  import opened XcdrTypes
  import opened TypeSupport
  import opened XcdrMessages
  import opened XcdrSerializer
  import opened Cdr

  /** The walk can address the elements of a field in this pass. */
  predicate Usable(f: Field, apply: bool)
  {
    (if apply then f.callbacks.get else f.callbacks.getConst) ||
    (f.element == Scalar(Boolean) && f.callbacks.assign)
  }

  /** What a step leaves: the storage, the cursor, and the first error. */
  datatype Step<T> = Step(store: T, in_: In, error: Option<CodecError>)

  function ErrorOf(in_: In): (e: Option<CodecError>)
  {
    if in_.error.Some? then Some(MapError(in_.error.value)) else None
  }

  /** Whether a string of this length can be stored without growing. */
  predicate CanStore(s: StringStore, length: nat)
  {
    match s
    case CString(buffer, _) => buffer.Some? && length < |buffer.value|
    case CppString(_, capacity) => length <= capacity
  }

  function StoreText(s: StringStore, text: seq<byte>): (r: StringStore)
    requires CanStore(s, |text|)
    ensures r.Chars() == text
  {
    match s
    case CString(buffer, _) => CString(Some(text + [0] + buffer.value[|text| + 1..]), |text|)
    case CppString(_, capacity) => CppString(text, capacity)
  }

  function ProcessElement(e: Element, v: Value, data: seq<byte>, in_: In, apply: bool): (r: Step<Value>)
    requires Inside(data, in_)
    ensures Inside(data, r.in_)
    decreases e, 0
  {
    match e
    case Scalar(k) =>
      var (after, bits) := if k == Boolean then GetBoolean(data, in_) else GetIntegral(data, in_, Width(k));
      Step(if after.error.None? && apply then Number(bits) else v, after, ErrorOf(after))
    case Text(bound) =>
      var (after, text) := GetText(data, in_, bound);
      if after.error.Some? then Step(v, after, ErrorOf(after))
      else if !v.String? || !CanStore(v.store, |text|) then Step(v, after, Some(InvalidMessageStorage))
      else Step(if apply then String(StoreText(v.store, text)) else v, after, None)
    case Nested(fields) =>
      if v.Record? && |v.cells| == |fields| then
        var r := ProcessFields(fields, v.cells, |fields|, data, in_, apply);
        Step(Record(r.store), r.in_, r.error)
      else Step(v, in_, Some(InvalidMessageStorage))
  }

  /** The first `n` values in place; the rest as they were. */
  function ProcessElements(e: Element, values: seq<Value>, n: nat, data: seq<byte>, in_: In, apply: bool)
    : (r: Step<seq<Value>>)
    requires n <= |values| && Inside(data, in_)
    ensures |r.store| == |values| && Inside(data, r.in_)
    ensures forall i :: n <= i < |values| ==> r.store[i] == values[i]
    decreases e, 1, n
  {
    if n == 0 then Step(values, in_, None)
    else
      var before := ProcessElements(e, values, n - 1, data, in_, apply);
      if before.error.Some? then before
      else
        var r := ProcessElement(e, values[n - 1], data, before.in_, apply);
        Step(before.store[n - 1 := r.store], r.in_, r.error)
  }

  /** The element count on the wire, or the declared one. */
  function ProcessCount(f: Field, data: seq<byte>, in_: In): (r: Step<nat>)
    requires Inside(data, in_)
    ensures Inside(data, r.in_)
  {
    if !f.shape.BoundedSequence? then Step(Most(f.shape), in_, None)
    else
      var (after, count) := GetIntegral(data, in_, 4);
      if after.error.Some? then Step(0, after, ErrorOf(after))
      else if count > f.shape.bound then Step(0, after, Some(FieldBoundExceeded))
      else Step(count, after, None)
  }

  function ProcessField(f: Field, c: Cell, data: seq<byte>, in_: In, apply: bool): (r: Step<Cell>)
    requires Inside(data, in_)
    ensures Inside(data, r.in_)
    decreases f
  {
    if f.shape.Single? then
      var r := ProcessElements(f.element, c.values, |c.values|, data, in_, apply);
      Step(Cell(r.store), r.in_, r.error)
    else if !f.callbacks.size then Step(c, in_, Some(CallbackMissing))
    else
      var count := ProcessCount(f, data, in_);
      if count.error.Some? then Step(c, count.in_, count.error)
      else if |c.values| != count.store then Step(c, count.in_, Some(DestinationSizeMismatch))
      else if !Usable(f, apply) then Step(c, count.in_, Some(CallbackMissing))
      else
        var r := ProcessElements(f.element, c.values, |c.values|, data, count.in_, apply);
        Step(Cell(r.store), r.in_, r.error)
  }

  function ProcessFields(fields: seq<Field>, cells: seq<Cell>, n: nat, data: seq<byte>, in_: In, apply: bool)
    : (r: Step<seq<Cell>>)
    requires n <= |fields| == |cells| && Inside(data, in_)
    ensures |r.store| == |cells| && Inside(data, r.in_)
    ensures forall i :: n <= i < |cells| ==> r.store[i] == cells[i]
    decreases fields, n
  {
    if n == 0 then Step(cells, in_, None)
    else
      var before := ProcessFields(fields, cells, n - 1, data, in_, apply);
      if before.error.Some? then before
      else
        var r := ProcessField(fields[n - 1], cells[n - 1], data, before.in_, apply);
        Step(before.store[n - 1 := r.store], r.in_, r.error)
  }

  // ---------------------------------------------------------------- the two passes agree

  /** Every array with a constant accessor has another to store through: a plain one, or an assigner of booleans. */
  predicate Paired(f: Field)
    decreases f
  {
    (f.shape.Single? || (f.callbacks.getConst ==>
       f.callbacks.get || (f.element == Scalar(Boolean) && f.callbacks.assign))) &&
    (f.element.Nested? ==> AllPaired(f.element.fields))
  }

  predicate AllPaired(fields: seq<Field>)
    decreases fields, 1
  {
    forall i :: 0 <= i < |fields| ==> Paired(fields[i])
  }

  /** The passes stay in step: validation stores nothing, and where it succeeds so does application. */
  ghost predicate InStep<T(!new)>(before: T, validated: Step<T>, applied: Step<T>)
  {
    validated.store == before &&
    (validated.error.None? ==> applied.error.None? && applied.in_ == validated.in_)
  }

  lemma {:induction false} ElementInStep(e: Element, v: Value, data: seq<byte>, in_: In)
    requires Inside(data, in_) && (e.Nested? ==> AllPaired(e.fields))
    ensures InStep(v, ProcessElement(e, v, data, in_, false), ProcessElement(e, v, data, in_, true))
    decreases e, 0
  {
    hide ProcessFields, AllPaired, GetBoolean, GetIntegral, GetText, Inside;
    if e.Nested? && v.Record? && |v.cells| == |e.fields| {
      FieldsInStep(e.fields, v.cells, |e.fields|, data, in_);
    }
  }

  lemma {:induction false} ElementsInStep(e: Element, values: seq<Value>, n: nat, data: seq<byte>, in_: In)
    requires n <= |values| && Inside(data, in_) && (e.Nested? ==> AllPaired(e.fields))
    ensures InStep(values, ProcessElements(e, values, n, data, in_, false),
                   ProcessElements(e, values, n, data, in_, true))
    decreases e, 1, n
  {
    hide ProcessElement, AllPaired, Inside;
    if n > 0 {
      ElementsInStep(e, values, n - 1, data, in_);
      var before := ProcessElements(e, values, n - 1, data, in_, false);
      if before.error.None? {
        ElementInStep(e, values[n - 1], data, before.in_);
        assert values[n - 1 := values[n - 1]] == values;
      }
    }
  }

  lemma {:induction false} FieldInStep(f: Field, c: Cell, data: seq<byte>, in_: In)
    requires Inside(data, in_) && Paired(f)
    ensures InStep(c, ProcessField(f, c, data, in_, false), ProcessField(f, c, data, in_, true))
    decreases f
  {
    hide ProcessElements, AllPaired, ProcessCount, Inside;
    ElementsInStep(f.element, c.values, |c.values|, data, in_);
    ElementsInStep(f.element, c.values, |c.values|, data, ProcessCount(f, data, in_).in_);
  }

  lemma {:induction false} FieldsInStep(fields: seq<Field>, cells: seq<Cell>, n: nat, data: seq<byte>, in_: In)
    requires n <= |fields| == |cells| && Inside(data, in_) && AllPaired(fields)
    ensures InStep(cells, ProcessFields(fields, cells, n, data, in_, false),
                   ProcessFields(fields, cells, n, data, in_, true))
    decreases fields, n
  {
    hide ProcessField, Inside, Paired;
    if n > 0 {
      FieldsInStep(fields, cells, n - 1, data, in_);
      var before := ProcessFields(fields, cells, n - 1, data, in_, false);
      if before.error.None? {
        assert Paired(fields[n - 1]);
        FieldInStep(fields[n - 1], cells[n - 1], data, before.in_);
        assert cells[n - 1 := cells[n - 1]] == cells;
      }
    }
  }

  // ---------------------------------------------------------------- round trip

  /** Two values a reader of the message cannot tell apart. */
  predicate Same(e: Element, v: Value, w: Value)
    decreases e, 0
  {
    match e
    case Scalar(_) => v == w
    case Text(_) => v.String? && w.String? && v.store.Chars() == w.store.Chars()
    case Nested(fields) => v.Record? && w.Record? && SameFields(fields, v.cells, w.cells)
  }

  predicate SameField(f: Field, c: Cell, d: Cell)
    decreases f
  {
    |c.values| == |d.values| && forall i :: 0 <= i < |c.values| ==> Same(f.element, c.values[i], d.values[i])
  }

  predicate SameFields(fields: seq<Field>, cells: seq<Cell>, others: seq<Cell>)
    decreases fields, 1
  {
    |cells| == |others| == |fields| && forall i :: 0 <= i < |fields| ==> SameField(fields[i], cells[i], others[i])
  }

  /** Destination storage sized for a message: same counts, strings long enough, elements addressable in this pass. */
  predicate Matches(e: Element, v: Value, w: Value, apply: bool)
    decreases e, 0
  {
    match e
    case Scalar(_) => true
    case Text(_) => v.String? && w.String? && CanStore(w.store, |v.store.Chars()|)
    case Nested(fields) => v.Record? && w.Record? && MatchesFields(fields, v.cells, w.cells, apply)
  }

  predicate MatchesField(f: Field, c: Cell, d: Cell, apply: bool)
    decreases f
  {
    && (f.shape.Single? || (f.callbacks.size && Usable(f, apply)))
    && |c.values| == |d.values| && forall i :: 0 <= i < |c.values| ==>
        Matches(f.element, c.values[i], d.values[i], apply)
  }

  predicate MatchesFields(fields: seq<Field>, cells: seq<Cell>, others: seq<Cell>, apply: bool)
    decreases fields, 1
  {
    |cells| == |others| == |fields| && forall i :: 0 <= i < |fields| ==>
        MatchesField(fields[i], cells[i], others[i], apply)
  }

  /** The cursor is open at `offset` and the next bytes are `bytes`. */
  ghost predicate Upcoming(data: seq<byte>, in_: In, bytes: seq<byte>)
  {
    Inside(data, in_) && in_.ready && in_.error.None? && At(data, in_.offset, bytes)
  }

  function Moved(in_: In, n: nat): (r: In)
  {
    in_.(offset := in_.offset + n)
  }

  lemma UpcomingIsOpen(data: seq<byte>, in_: In, bytes: seq<byte>)
    requires Upcoming(data, in_, bytes)
    ensures Inside(data, in_) && in_.error.None?
  {}

  lemma UpcomingSplit(data: seq<byte>, in_: In, first: seq<byte>, second: seq<byte>)
    requires Upcoming(data, in_, first + second)
    ensures Upcoming(data, in_, first) && Upcoming(data, Moved(in_, |first|), second)
  {
    Split(data, in_.offset, first, second);
  }

  lemma IntegralRoundTrip(data: seq<byte>, in_: In, value: nat, width: nat)
    requires Alignment(width) && value < Pow256(width) && in_.offset >= 4
    requires Upcoming(data, in_, Aligned(in_.offset - 4, width, Encode(value, width, in_.order)))
    ensures GetIntegral(data, in_, width)
            == (Moved(in_, |Aligned(in_.offset - 4, width, Encode(value, width, in_.order))|), value)
  {
    hide Encode, Decode, AlignUp;
    var block := Encode(value, width, in_.order);
    UpcomingSplit(data, in_, Gap(in_.offset - 4, width), block);
    DecodeEncode(value, width, in_.order);
  }

  lemma TextRoundTrip(data: seq<byte>, in_: In, text: seq<byte>, most: nat)
    requires |text| <= most < UINT32_MAX && in_.offset >= 4
    requires Upcoming(data, in_, Aligned(in_.offset - 4, 4, TextBlock(text, in_.order)))
    ensures GetText(data, in_, most) == (Moved(in_, |Aligned(in_.offset - 4, 4, TextBlock(text, in_.order))|), text)
  {
    hide Encode, Decode, AlignUp;
    var size := Encode(|text| + 1, 4, in_.order);
    var gap := Gap(in_.offset - 4, 4);
    assert TextBlock(text, in_.order) == size + (text + [0]);
    UpcomingSplit(data, in_, gap, size + (text + [0]));
    var start := Moved(in_, |gap|);
    UpcomingSplit(data, start, size, text + [0]);
    UpcomingSplit(data, Moved(start, 4), text, [0]);
    Pow256Values();
    DecodeEncode(|text| + 1, 4, in_.order);
    var end := Moved(Moved(start, 4), |text|);
    assert data[end.offset] == data[end.offset..end.offset + 1][0] == 0;
  }

  predicate TextBounded(e: Element)
  {
    (e.Text? ==> e.bound < UINT32_MAX) && (e.Nested? ==> BoundedText(e.fields))
  }

  lemma {:induction false} ElementRoundTrip(language: Language, e: Element, v: Value, w: Value,
                                            data: seq<byte>, in_: In, apply: bool)
    requires Holds(language, e, v) && ElementProblem(e, v).None? && Matches(e, v, w, apply) && TextBounded(e)
    requires in_.offset >= 4 && Upcoming(data, in_, EncodeElement(e, v, in_.offset - 4, in_.order))
    ensures var r := ProcessElement(e, w, data, in_, apply);
            && r.error.None? && r.in_ == Moved(in_, |EncodeElement(e, v, in_.offset - 4, in_.order)|)
            && (apply ==> Same(e, v, r.store))
    decreases e, 0
  {
    hide ProcessFields, EncodeFields, FieldsProblem, BoundedText, SameField, MatchesField, HoldsField, Encode, AlignUp,
         Upcoming,
         GetIntegral, GetText, TextBlock;
    UpcomingIsOpen(data, in_, EncodeElement(e, v, in_.offset - 4, in_.order));
    match e
    case Scalar(k) =>
      IntegralRoundTrip(data, in_, v.bits, Width(k));
    case Text(bound) =>
      TextRoundTrip(data, in_, v.store.Chars(), bound);
    case Nested(fields) =>
      FieldsRoundTrip(language, fields, v.cells, w.cells, |fields|, data, in_, apply);
  }

  lemma {:induction false} ElementsRoundTrip(language: Language, e: Element, vs: seq<Value>, ws: seq<Value>, n: nat,
                                             data: seq<byte>, in_: In, apply: bool)
    requires n <= |vs| == |ws| && TextBounded(e)
    requires forall i :: 0 <= i < |vs| ==> Holds(language, e, vs[i]) && Matches(e, vs[i], ws[i], apply)
    requires ElementsProblem(e, vs, n).None?
    requires in_.offset >= 4 && Upcoming(data, in_, EncodeElements(e, vs, n, in_.offset - 4, in_.order))
    ensures var r := ProcessElements(e, ws, n, data, in_, apply);
            && r.error.None? && r.in_ == Moved(in_, |EncodeElements(e, vs, n, in_.offset - 4, in_.order)|)
            && (apply ==> forall i :: 0 <= i < n ==> Same(e, vs[i], r.store[i]))
    decreases e, 1, n
  {
    hide ProcessElement, EncodeElement, ElementProblem, Same, Matches, Holds, Upcoming, TextBounded;
    if n > 0 {
      var before := EncodeElements(e, vs, n - 1, in_.offset - 4, in_.order);
      UpcomingSplit(data, in_, before, EncodeElement(e, vs[n - 1], in_.offset - 4 + |before|, in_.order));
      ElementsRoundTrip(language, e, vs, ws, n - 1, data, in_, apply);
      ElementRoundTrip(language, e, vs[n - 1], ws[n - 1], data, Moved(in_, |before|), apply);
    }
  }

  lemma CountRoundTrip(f: Field, count: nat, data: seq<byte>, in_: In)
    requires f.shape.Single? || CountAllowed(f.shape, count)
    requires in_.offset >= 4 && Upcoming(data, in_, CountBytes(f, count, in_.offset - 4, in_.order))
    ensures !f.shape.Single? ==>
              ProcessCount(f, data, in_) ==
                  Step(count, Moved(in_, |CountBytes(f, count, in_.offset - 4, in_.order)|), None)
  {
    hide Encode, AlignUp, Upcoming, GetIntegral;
    UpcomingIsOpen(data, in_, CountBytes(f, count, in_.offset - 4, in_.order));
    if f.shape.BoundedSequence? {
      Pow256Values();
      IntegralRoundTrip(data, in_, count, 4);
    }
  }

  lemma {:induction false} FieldRoundTrip(language: Language, f: Field, c: Cell, d: Cell,
                                          data: seq<byte>, in_: In, apply: bool)
    requires HoldsField(language, f, c) && FieldProblem(f, c).None? && MatchesField(f, c, d, apply) &&
        FieldTextBounded(f)
    requires in_.offset >= 4 && Upcoming(data, in_, EncodeField(f, c, in_.offset - 4, in_.order))
    ensures var r := ProcessField(f, d, data, in_, apply);
            && r.error.None? && r.in_ == Moved(in_, |EncodeField(f, c, in_.offset - 4, in_.order)|)
            && (apply ==> SameField(f, c, r.store))
    decreases f
  {
    hide ProcessElements, EncodeElements, ElementsProblem, Same, Matches, Holds, Upcoming, CountBytes, BoundedText,
         ProcessCount;
    var count := CountBytes(f, |c.values|, in_.offset - 4, in_.order);
    var elements := EncodeElements(f.element, c.values, |c.values|, in_.offset - 4 + |count|, in_.order);
    UpcomingSplit(data, in_, count, elements);
    CountRoundTrip(f, |c.values|, data, in_);
    NoCountForSingle(f, |c.values|, in_.offset - 4, in_.order);
    ElementsRoundTrip(language, f.element, c.values, d.values, |c.values|, data, Moved(in_, |count|), apply);
  }

  lemma NoCountForSingle(f: Field, count: nat, position: nat, order: ByteOrder)
    ensures f.shape.Single? ==> CountBytes(f, count, position, order) == []
  {}

  lemma {:induction false} FieldsRoundTrip(language: Language, fields: seq<Field>, cells: seq<Cell>, dest: seq<Cell>,
                                           n: nat,
                                           data: seq<byte>, in_: In, apply: bool)
    requires HoldsFields(language, fields, cells) && n <= |fields| && FieldsProblem(fields, cells, n).None?
    requires MatchesFields(fields, cells, dest, apply) && BoundedText(fields)
    requires in_.offset >= 4 && Upcoming(data, in_, EncodeFields(fields, cells, n, in_.offset - 4, in_.order))
    ensures var r := ProcessFields(fields, dest, n, data, in_, apply);
            && r.error.None? && r.in_ == Moved(in_, |EncodeFields(fields, cells, n, in_.offset - 4, in_.order)|)
            && (apply ==> forall i :: 0 <= i < n ==> SameField(fields[i], cells[i], r.store[i]))
    decreases fields, n
  {
    hide ProcessField, EncodeField, FieldProblem, SameField, MatchesField, HoldsField, Upcoming, FieldTextBounded;
    if n > 0 {
      var before := EncodeFields(fields, cells, n - 1, in_.offset - 4, in_.order);
      UpcomingSplit(data, in_, before, EncodeField(fields[n - 1], cells[n - 1], in_.offset - 4 + |before|, in_.order));
      FieldsRoundTrip(language, fields, cells, dest, n - 1, data, in_, apply);
      FieldRoundTrip(language, fields[n - 1], cells[n - 1], dest[n - 1], data, Moved(in_, |before|), apply);
    }
  }

  // ---------------------------------------------------------------- whole messages

  /** What a deserialisation leaves in the destination, its error, and how far it read. */
  datatype Outcome = Outcome(cells: seq<Cell>, error: Option<CodecError>, size: nat)

  function Deserialize(fields: seq<Field>, cells: seq<Cell>, data: seq<byte>): (o: Outcome)
    requires |fields| == |cells|
  {
    var start := Begun(data, LittleEndian);
    if start.error.Some? then Outcome(cells, ErrorOf(start), 0)
    else
      var validated := ProcessFields(fields, cells, |fields|, data, start, false);
      if validated.error.Some? then Outcome(validated.store, validated.error, validated.in_.offset)
      else if validated.in_.offset != |data| then Outcome(validated.store, Some(TrailingData), validated.in_.offset)
      else
        var applied := ProcessFields(fields, validated.store, |fields|, data, start, true);
        Outcome(applied.store, applied.error, applied.in_.offset)
  }

  /** A failed deserialisation leaves the destination as it was, and a successful one has read every byte. */
  lemma DeserializeIsAtomic(fields: seq<Field>, cells: seq<Cell>, data: seq<byte>)
    requires |fields| == |cells| && AllPaired(fields)
    ensures var o := Deserialize(fields, cells, data);
            (o.error.Some? ==> o.cells == cells) && (o.error.None? ==> o.size == |data|)
  {
    hide ProcessFields, AllPaired;
    var start := Begun(data, LittleEndian);
    if start.error.None? {
      FieldsInStep(fields, cells, |fields|, data, start);
    }
  }

  /**
   Deserialising a serialised message into storage sized for it succeeds, in either byte
   order, consumes every byte and gives back the message.
   */
  lemma MessageRoundTrip(language: Language, fields: seq<Field>, message: seq<Cell>, dest: seq<Cell>, order: ByteOrder)
    requires HoldsFields(language, fields, message) && FieldsProblem(fields, message, |fields|).None?
    requires MatchesFields(fields, message, dest, false) && MatchesFields(fields, message, dest, true)
    requires BoundedText(fields)
    ensures var data := HeaderBytes(order) + EncodeFields(fields, message, |fields|, 0, order);
            var o := Deserialize(fields, dest, data);
            o.error.None? && o.size == |data| && SameFields(fields, message, o.cells)
  {
    hide ProcessFields, EncodeFields, FieldsProblem, SameField, MatchesField, HoldsField, BoundedText;
    var encoding := EncodeFields(fields, message, |fields|, 0, order);
    var data := HeaderBytes(order) + encoding;
    var start := Begun(data, LittleEndian);
    assert start == In(4, order, None, true);
    assert data[4..4 + |encoding|] == encoding;
    FieldsRoundTrip(language, fields, message, dest, |fields|, data, start, false);
    FieldsRoundTrip(language, fields, message, dest, |fields|, data, start, true);
    ValidationStoresNothing(fields, dest, |fields|, data, start);
  }

  lemma {:induction false} ValidationStoresNothing(fields: seq<Field>, cells: seq<Cell>, n: nat, data: seq<byte>,
                                                   in_: In)
    requires n <= |fields| == |cells| && Inside(data, in_)
    ensures ProcessFields(fields, cells, n, data, in_, false).store == cells
    decreases fields, n
  {
    hide ProcessField, Inside;
    if n > 0 {
      ValidationStoresNothing(fields, cells, n - 1, data, in_);
      var before := ProcessFields(fields, cells, n - 1, data, in_, false);
      FieldValidationStoresNothing(fields[n - 1], cells[n - 1], data, before.in_);
      assert cells[n - 1 := cells[n - 1]] == cells;
    }
  }

  lemma {:induction false} FieldValidationStoresNothing(f: Field, c: Cell, data: seq<byte>, in_: In)
    requires Inside(data, in_)
    ensures ProcessField(f, c, data, in_, false).store == c
    decreases f
  {
    hide ProcessElements, ProcessCount, Inside;
    ElementsValidationStoresNothing(f.element, c.values, |c.values|, data, in_);
    ElementsValidationStoresNothing(f.element, c.values, |c.values|, data, ProcessCount(f, data, in_).in_);
  }

  lemma {:induction false} ElementsValidationStoresNothing(e: Element, values: seq<Value>, n: nat, data: seq<byte>,
                                                           in_: In)
    requires n <= |values| && Inside(data, in_)
    ensures ProcessElements(e, values, n, data, in_, false).store == values
    decreases e, n
  {
    hide Inside, ProcessFields, GetBoolean, GetIntegral, GetText;
    if n > 0 {
      ElementsValidationStoresNothing(e, values, n - 1, data, in_);
      var before, v := ProcessElements(e, values, n - 1, data, in_, false), values[n - 1];
      if before.error.None? {
        if e.Nested? && v.Record? && |v.cells| == |e.fields| {
          ValidationStoresNothing(e.fields, v.cells, |e.fields|, data, before.in_);
        }
        assert values[n - 1 := v] == values;
      }
    }
  }

  // ---------------------------------------------------------------- when the passes can part

  /** The type can be serialised and validated, and every field can hold something. */
  predicate Complete(f: Field)
    decreases f
  {
    && Most(f.shape) >= 1
    && (f.shape.Single? || (f.callbacks.size && (f.callbacks.getConst ||
          (f.element == Scalar(Boolean) && f.callbacks.fetch && f.callbacks.assign))))
    && Most(f.shape) <= UINT32_MAX && FieldTextBounded(f)
    && (f.element.Nested? ==> AllComplete(f.element.fields))
  }

  predicate AllComplete(fields: seq<Field>)
    decreases fields, 1
  {
    forall i :: 0 <= i < |fields| ==> Complete(fields[i])
  }

  /** Zeros and empty strings, with every array and sequence at its largest. */
  function DefaultElement(language: Language, e: Element): (v: Value)
    decreases e, 0
  {
    match e
    case Scalar(_) => Number(0)
    case Text(_) => String(if language == IntrospectionC then CString(Some([0]), 0) else CppString([], 0))
    case Nested(fields) => Record(DefaultFields(language, fields, |fields|))
  }

  function DefaultField(language: Language, f: Field): (c: Cell)
    decreases f
  {
    var v := DefaultElement(language, f.element);
    Cell(seq(Most(f.shape), _ => v))
  }

  function DefaultFields(language: Language, fields: seq<Field>, n: nat): (cells: seq<Cell>)
    requires n <= |fields|
    ensures |cells| == n
    decreases fields, n
  {
    if n == 0 then [] else DefaultFields(language, fields, n - 1) + [DefaultField(language, fields[n - 1])]
  }

  lemma {:induction false} DefaultFieldsAt(language: Language, fields: seq<Field>, n: nat, i: nat)
    requires i < n <= |fields|
    ensures DefaultFields(language, fields, n)[i] == DefaultField(language, fields[i])
    decreases n
  {
    hide DefaultField;
    if i < n - 1 {
      DefaultFieldsAt(language, fields, n - 1, i);
    }
  }

  /** Default storage is well formed, has nothing wrong with it and can receive itself. */
  lemma {:induction false} DefaultIsGood(language: Language, fields: seq<Field>)
    requires AllComplete(fields)
    ensures var cells := DefaultFields(language, fields, |fields|);
            && HoldsFields(language, fields, cells) && FieldsProblem(fields, cells, |fields|).None?
            && MatchesFields(fields, cells, cells, false)
    decreases fields, 2
  {
    hide DefaultField, HoldsField, FieldProblem, MatchesField, Complete;
    var cells := DefaultFields(language, fields, |fields|);
    forall i | 0 <= i < |fields|
      ensures HoldsField(language, fields[i], cells[i]) && FieldProblem(fields[i], cells[i]).None? &&
              MatchesField(fields[i], cells[i], cells[i], false)
    {
      DefaultFieldsAt(language, fields, |fields|, i);
      DefaultFieldIsGood(language, fields[i]);
    }
    NoProblemAnywhere(fields, cells, |fields|);
  }

  lemma {:induction false} NoProblemAnywhere(fields: seq<Field>, cells: seq<Cell>, n: nat)
    requires n <= |fields| == |cells| && forall i :: 0 <= i < |fields| ==> FieldProblem(fields[i], cells[i]).None?
    ensures FieldsProblem(fields, cells, n).None?
    decreases n
  {
    hide FieldProblem;
    if n > 0 {
      NoProblemAnywhere(fields, cells, n - 1);
    }
  }

  lemma {:induction false} NoElementProblem(e: Element, values: seq<Value>, n: nat)
    requires n <= |values| && forall i :: 0 <= i < |values| ==> ElementProblem(e, values[i]).None?
    ensures ElementsProblem(e, values, n).None?
    decreases n
  {
    hide ElementProblem;
    if n > 0 {
      NoElementProblem(e, values, n - 1);
    }
  }

  lemma {:induction false} DefaultFieldIsGood(language: Language, f: Field)
    requires Complete(f)
    ensures var c := DefaultField(language, f);
            HoldsField(language, f, c) && FieldProblem(f, c).None? && MatchesField(f, c, c, false)
    decreases f, 0
  {
    hide HoldsFields, FieldsProblem, MatchesFields, AllComplete, DefaultFields;
    var v, c := DefaultElement(language, f.element), DefaultField(language, f);
    match f.element {
      case Scalar(k) => Pow256Positive(Width(k));
      case Text(_) =>
      case Nested(inner) => DefaultIsGood(language, inner);
    }
    assert Holds(language, f.element, v) && ElementProblem(f.element, v).None? && Matches(f.element, v, v, false);
    NoElementProblem(f.element, c.values, |c.values|);
  }

  lemma Pow256Positive(n: nat)
    ensures 0 < Pow256(n)
  {}

  /** Application that succeeds on default storage has been through every array of the type. */
  lemma {:induction false} AppliedMeansPaired(language: Language, fields: seq<Field>, n: nat, cells: seq<Cell>,
                                              data: seq<byte>, in_: In)
    requires AllComplete(fields) && n <= |fields| == |cells| && Inside(data, in_)
    requires forall i :: 0 <= i < |fields| ==> cells[i] == DefaultField(language, fields[i])
    requires ProcessFields(fields, cells, n, data, in_, true).error.None?
    ensures forall i :: 0 <= i < n ==> Paired(fields[i])
    decreases fields, n
  {
    hide ProcessField, DefaultField, Complete, Paired, Inside;
    if n > 0 {
      AppliedMeansPaired(language, fields, n - 1, cells, data, in_);
      FieldAppliedMeansPaired(language, fields[n - 1], data, ProcessFields(fields, cells, n - 1, data, in_, true).in_);
    }
  }

  lemma {:induction false} FieldAppliedMeansPaired(language: Language, f: Field, data: seq<byte>, in_: In)
    requires Complete(f) && Inside(data, in_)
    requires ProcessField(f, DefaultField(language, f), data, in_, true).error.None?
    ensures Paired(f)
    decreases f, 0
  {
    hide ProcessElements, ProcessCount, ProcessFields, AllPaired, AllComplete, DefaultFields, Inside, DefaultElement;
    var c := DefaultField(language, f);
    var start := if f.shape.Single? then in_ else ProcessCount(f, data, in_).in_;
    assert ProcessElements(f.element, c.values, |c.values|, data, start, true).error.None?;
    if f.element.Nested? {
      FirstApplied(f.element, c.values, |c.values|, data, start);
      NestedApplied(language, f.element, data, start);
    }
  }

  lemma NestedApplied(language: Language, e: Element, data: seq<byte>, in_: In)
    requires e.Nested? && AllComplete(e.fields) && Inside(data, in_)
    requires ProcessElement(e, DefaultElement(language, e), data, in_, true).error.None?
    ensures AllPaired(e.fields)
    decreases e, 0
  {
    hide ProcessFields, Complete, Paired, Inside, DefaultField, DefaultFields;
    var cells := DefaultFields(language, e.fields, |e.fields|);
    forall i | 0 <= i < |e.fields| ensures cells[i] == DefaultField(language, e.fields[i]) {
      DefaultFieldsAt(language, e.fields, |e.fields|, i);
    }
    AppliedMeansPaired(language, e.fields, |e.fields|, cells, data, in_);
  }

  lemma {:induction false} FirstApplied(e: Element, values: seq<Value>, n: nat, data: seq<byte>, in_: In)
    requires 0 < n <= |values| && Inside(data, in_) && ProcessElements(e, values, n, data, in_, true).error.None?
    ensures ProcessElement(e, values[0], data, in_, true).error.None?
    decreases n
  {
    hide ProcessElement, Inside;
    if n > 1 {
      FirstApplied(e, values, n - 1, data, in_);
    }
  }

  /**
   Validation guarantees application, for every destination and every input, exactly when
   each array the first pass reads through its constant accessor also has an accessor the
   second pass can store through.
   */
  lemma ValidationGuaranteesApplication(language: Language, fields: seq<Field>)
    requires AllComplete(fields)
    ensures AllPaired(fields) <==>
            forall cells: seq<Cell>, data: seq<byte>, in_: In | |cells| == |fields| && Inside(data, in_) ::
              ProcessFields(fields, cells, |fields|, data, in_, false).error.None? ==>
              ProcessFields(fields, cells, |fields|, data, in_, true).error.None?
  {
    hide ProcessFields, AllPaired, AllComplete, DefaultFields, DefaultField, EncodeFields, FieldsProblem, HoldsFields,
         MatchesFields;
    if AllPaired(fields) {
      forall cells: seq<Cell>, data: seq<byte>, in_: In | |cells| == |fields| && Inside(data, in_)
        ensures ProcessFields(fields, cells, |fields|, data, in_, false).error.None? ==>
                ProcessFields(fields, cells, |fields|, data, in_, true).error.None?
      {
        FieldsInStep(fields, cells, |fields|, data, in_);
      }
    } else {
      var cells := DefaultFields(language, fields, |fields|);
      var encoding := EncodeFields(fields, cells, |fields|, 0, LittleEndian);
      var data, in_ := [0, 1, 0, 0] + encoding, In(4, LittleEndian, None, true);
      DefaultIsGood(language, fields);
      CompleteIsBounded(fields);
      assert data[4..4 + |encoding|] == encoding;
      FieldsRoundTrip(language, fields, cells, cells, |fields|, data, in_, false);
      if ProcessFields(fields, cells, |fields|, data, in_, true).error.None? {
        NestedApplied(language, Nested(fields), data, in_);
        assert false;
      }
    }
  }

  lemma CompleteIsBounded(fields: seq<Field>)
    requires AllComplete(fields)
    ensures BoundedText(fields)
  {}
}
