/** Which messages can be serialised, and what a deserialised one is known to be. */
module XcdrStorage {
  import opened Bytes
  import opened Layout
  import opened XcdrTypes
  import opened TypeSupport
  import opened XcdrMessages
  import opened XcdrDeserializer
  import opened Cdr

  // ---------------------------------------------------------------- sound storage

  /** A string no longer than its bound, with a terminator where C storage needs one; a null one is empty. */
  predicate SoundText(s: StringStore, bound: nat)
  {
    match s
    case CString(Some(buffer), size) => size < |buffer| && buffer[size] == 0 && size <= bound
    case CString(None, size) => size == 0
    case CppString(chars, _) => |chars| <= bound
  }

  /** An array is full and a sequence within its bound, and either can be counted in 32 bits. */
  predicate SoundCount(shape: Shape, count: nat)
  {
    match shape
    case Single => true
    case FixedArray(n) => count == n <= 0xFFFF_FFFF
    case BoundedSequence(n) => count <= n && count <= 0xFFFF_FFFF
  }

  /** The serialiser can count the elements of the array and read each of them. */
  predicate SoundAccess(f: Field)
  {
    f.callbacks.size && (f.callbacks.getConst || (f.element == Scalar(Boolean) && f.callbacks.fetch))
  }

  predicate Sound(e: Element, v: Value)
    decreases e, 0
  {
    match e
    case Scalar(_) => true
    case Text(bound) => v.String? && SoundText(v.store, bound)
    case Nested(fields) => v.Record? && SoundFields(fields, v.cells)
  }

  predicate SoundField(f: Field, c: Cell)
    decreases f
  {
    && (f.shape.Single? || SoundAccess(f)) && SoundCount(f.shape, |c.values|)
    && forall i :: 0 <= i < |c.values| ==> Sound(f.element, c.values[i])
  }

  predicate SoundFields(fields: seq<Field>, cells: seq<Cell>)
    decreases fields, 1
  {
    |cells| == |fields| && forall i :: 0 <= i < |fields| ==> SoundField(fields[i], cells[i])
  }

  lemma {:induction false} ElementIsSound(language: Language, e: Element, v: Value)
    requires Holds(language, e, v)
    ensures ElementProblem(e, v).None? <==> Sound(e, v)
    decreases e, 0
  {
    hide FieldsProblem, SoundField, HoldsField;
    match e
    case Scalar(_) =>
    case Text(_) =>
    case Nested(fields) => FieldsAreSound(language, fields, v.cells, |fields|);
  }

  lemma {:induction false} ElementsAreSound(language: Language, e: Element, values: seq<Value>, n: nat)
    requires n <= |values| && forall i :: 0 <= i < n ==> Holds(language, e, values[i])
    ensures ElementsProblem(e, values, n).None? <==> forall i :: 0 <= i < n ==> Sound(e, values[i])
    decreases e, 1, n
  {
    hide ElementProblem, Sound, Holds;
    if n > 0 {
      ElementsAreSound(language, e, values, n - 1);
      ElementIsSound(language, e, values[n - 1]);
    }
  }

  lemma {:induction false} FieldIsSound(language: Language, f: Field, c: Cell)
    requires HoldsField(language, f, c)
    ensures FieldProblem(f, c).None? <==> SoundField(f, c)
    decreases f
  {
    hide ElementsProblem, Sound, Holds;
    ElementsAreSound(language, f.element, c.values, |c.values|);
  }

  /**
   A message is serialised exactly when its storage is sound: every array can be read and is full or within its
   bound, every string is terminated and within its bound, all the way down.
   */
  lemma {:induction false} FieldsAreSound(language: Language, fields: seq<Field>, cells: seq<Cell>, n: nat)
    requires HoldsFields(language, fields, cells) && n <= |fields|
    ensures FieldsProblem(fields, cells, n).None? <==> forall i :: 0 <= i < n ==> SoundField(fields[i], cells[i])
    decreases fields, n
  {
    hide FieldProblem, SoundField, HoldsField;
    if n > 0 {
      FieldsAreSound(language, fields, cells, n - 1);
      FieldIsSound(language, fields[n - 1], cells[n - 1]);
    }
  }

  // ---------------------------------------------------------------- what decoding leaves

  lemma IntegralIsBounded(data: seq<byte>, in_: In, width: nat)
    requires Alignment(width) && Inside(data, in_)
    ensures GetIntegral(data, in_, width).0.error.None? ==> GetIntegral(data, in_, width).1 < Pow256(width)
  {
    hide Decode, Pow256;
    if Locate(data, in_, width, width).error.None? {
      var start := StartOf(in_, width);
      DecodeBound(data[start..start + width], in_.order);
    }
  }

  lemma {:induction false} ElementStaysTyped(language: Language, e: Element, v: Value, data: seq<byte>, in_: In,
                                             apply: bool)
    requires Holds(language, e, v) && Inside(data, in_)
    ensures Holds(language, e, ProcessElement(e, v, data, in_, apply).store)
    decreases e, 0
  {
    hide ProcessFields, HoldsField, GetIntegral, GetText, Inside;
    match e
    case Scalar(k) =>
      hide Pow256;
      IntegralIsBounded(data, in_, Width(k));
    case Text(_) =>
    case Nested(fields) => FieldsStayTyped(language, fields, v.cells, |fields|, data, in_, apply);
  }

  predicate AllHold(language: Language, e: Element, values: seq<Value>)
  {
    forall i :: 0 <= i < |values| ==> Holds(language, e, values[i])
  }

  lemma {:induction false} ElementsStayTyped(language: Language, e: Element, values: seq<Value>, n: nat,
                                             data: seq<byte>, in_: In, apply: bool)
    requires n <= |values| && Inside(data, in_) && AllHold(language, e, values)
    ensures AllHold(language, e, ProcessElements(e, values, n, data, in_, apply).store)
    decreases e, 1, n
  {
    hide ProcessElement, Holds, Inside;
    if n > 0 {
      ElementsStayTyped(language, e, values, n - 1, data, in_, apply);
      var before := ProcessElements(e, values, n - 1, data, in_, apply);
      if before.error.None? {
        ElementStaysTyped(language, e, values[n - 1], data, before.in_, apply);
        var r := ProcessElement(e, values[n - 1], data, before.in_, apply);
        assert ProcessElements(e, values, n, data, in_, apply).store == before.store[n - 1 := r.store];
      }
    }
  }

  lemma {:induction false} FieldStaysTyped(language: Language, f: Field, c: Cell, data: seq<byte>, in_: In, apply: bool)
    requires HoldsField(language, f, c) && Inside(data, in_)
    ensures HoldsField(language, f, ProcessField(f, c, data, in_, apply).store)
    decreases f
  {
    hide ProcessElements, ProcessCount, Holds, Inside;
    ElementsStayTyped(language, f.element, c.values, |c.values|, data, in_, apply);
    ElementsStayTyped(language, f.element, c.values, |c.values|, data, ProcessCount(f, data, in_).in_, apply);
  }

  /** Whatever the input, and even where a pass stops half way, storage keeps the shape of its type. */
  lemma {:induction false} FieldsStayTyped(language: Language, fields: seq<Field>, cells: seq<Cell>, n: nat,
                                           data: seq<byte>, in_: In, apply: bool)
    requires HoldsFields(language, fields, cells) && n <= |fields| && Inside(data, in_)
    ensures HoldsFields(language, fields, ProcessFields(fields, cells, n, data, in_, apply).store)
    decreases fields, n
  {
    hide ProcessField, HoldsField, Inside;
    if n > 0 {
      FieldsStayTyped(language, fields, cells, n - 1, data, in_, apply);
      var before := ProcessFields(fields, cells, n - 1, data, in_, apply);
      if before.error.None? {
        assert HoldsField(language, fields[n - 1], cells[n - 1]);
        FieldStaysTyped(language, fields[n - 1], cells[n - 1], data, before.in_, apply);
      }
    }
  }

  lemma DeserializedStaysTyped(language: Language, fields: seq<Field>, cells: seq<Cell>, data: seq<byte>)
    requires HoldsFields(language, fields, cells)
    ensures HoldsFields(language, fields, Deserialize(fields, cells, data).cells)
  {
    hide ProcessFields, HoldsFields;
    CellCount(language, fields, cells);
    var start := Begun(data, LittleEndian);
    if start.error.None? {
      FieldsStayTyped(language, fields, cells, |fields|, data, start, false);
      var validated := ProcessFields(fields, cells, |fields|, data, start, false);
      FieldsStayTyped(language, fields, validated.store, |fields|, data, start, true);
    }
  }

  lemma CellCount(language: Language, fields: seq<Field>, cells: seq<Cell>)
    requires HoldsFields(language, fields, cells)
    ensures |cells| == |fields|
  {}

  // ---------------------------------------------------------------- what decoding accepts

  predicate Within(e: Element, v: Value)
    decreases e, 0
  {
    match e
    case Scalar(_) => v.Number?
    case Text(bound) => v.String? && SoundText(v.store, bound)
    case Nested(fields) => v.Record? && WithinFields(fields, v.cells)
  }

  predicate WithinField(f: Field, c: Cell)
    decreases f
  {
    && (f.shape.Single? ||
          (f.callbacks.size && (f.callbacks.get || (f.element == Scalar(Boolean) && f.callbacks.assign))))
    && (f.shape.FixedArray? ==> |c.values| == f.shape.count)
    && (f.shape.BoundedSequence? ==> |c.values| <= f.shape.bound)
    && forall i :: 0 <= i < |c.values| ==> Within(f.element, c.values[i])
  }

  /** Every array full and stored through an accessor, every sequence and string within its bound, all the way down. */
  predicate WithinFields(fields: seq<Field>, cells: seq<Cell>)
    decreases fields, 1
  {
    |cells| == |fields| && forall i :: 0 <= i < |fields| ==> WithinField(fields[i], cells[i])
  }

  /** From `offset` on stand the bytes of the value, whatever the padding before each of its parts. */
  ghost predicate OnWire(e: Element, v: Value, data: seq<byte>, offset: nat, order: ByteOrder)
    requires offset >= 4
    decreases e, 0
  {
    match e
    case Scalar(k) => v.Number? && At(data, offset + |Gap(offset - 4, Width(k))|, Encode(v.bits, Width(k), order))
    case Text(_) => v.String? && At(data, offset + |Gap(offset - 4, 4)|, TextBlock(v.store.Chars(), order))
    case Nested(fields) =>
      v.Record? && |v.cells| == |fields| && FieldsOnWire(fields, v.cells, |fields|, data, offset, order)
  }

  ghost predicate ElementsOnWire(e: Element, values: seq<Value>, n: nat, data: seq<byte>, offset: nat,
                                 order: ByteOrder)
    requires n <= |values| && offset >= 4
    decreases e, 1, n
  {
    n == 0 ||
    (ElementsOnWire(e, values, n - 1, data, offset, order) &&
     OnWire(e, values[n - 1], data, offset + |EncodeElements(e, values, n - 1, offset - 4, order)|, order))
  }

  ghost predicate CountOnWire(f: Field, count: nat, data: seq<byte>, offset: nat, order: ByteOrder)
    requires offset >= 4
  {
    f.shape.BoundedSequence? ==> At(data, offset + |Gap(offset - 4, 4)|, Encode(count, 4, order))
  }

  ghost predicate FieldOnWire(f: Field, c: Cell, data: seq<byte>, offset: nat, order: ByteOrder)
    requires offset >= 4
    decreases f
  {
    && CountOnWire(f, |c.values|, data, offset, order)
    && ElementsOnWire(f.element, c.values, |c.values|, data,
                      offset + |CountBytes(f, |c.values|, offset - 4, order)|, order)
  }

  ghost predicate FieldsOnWire(fields: seq<Field>, cells: seq<Cell>, n: nat, data: seq<byte>, offset: nat,
                               order: ByteOrder)
    requires n <= |fields| == |cells| && offset >= 4
    decreases fields, n
  {
    n == 0 ||
    (FieldsOnWire(fields, cells, n - 1, data, offset, order) &&
     FieldOnWire(fields[n - 1], cells[n - 1], data, offset + |EncodeFields(fields, cells, n - 1, offset - 4, order)|,
                 order))
  }

  /** The cursor is where it was, moved on by the length of `bytes`. */
  predicate HasRead(before: In, after: In, bytes: seq<byte>)
  {
    after == Moved(before, |bytes|)
  }

  predicate Open(data: seq<byte>, in_: In)
  {
    Inside(data, in_) && in_.ready && in_.error.None?
  }

  lemma IntegralOnWire(data: seq<byte>, in_: In, width: nat)
    requires Open(data, in_) && Alignment(width)
    ensures var (after, bits) := GetIntegral(data, in_, width);
            after.error.None? ==>
              && At(data, in_.offset + |Gap(in_.offset - 4, width)|, Encode(bits, width, in_.order))
              && HasRead(in_, after, Aligned(in_.offset - 4, width, Encode(bits, width, in_.order)))
  {
    hide Decode, Encode;
    if GetIntegral(data, in_, width).0.error.None? {
      var start := StartOf(in_, width);
      EncodeDecode(data[start..start + width], in_.order);
    }
  }

  lemma ScalarIsRead(k: ScalarKind, v: Value, data: seq<byte>, in_: In)
    requires Open(data, in_)
    ensures var r := ProcessElement(Scalar(k), v, data, in_, true);
            r.error.None? ==>
              && Within(Scalar(k), r.store) && OnWire(Scalar(k), r.store, data, in_.offset, in_.order)
              && HasRead(in_, r.in_, EncodeElement(Scalar(k), r.store, in_.offset - 4, in_.order))
  {
    hide GetIntegral, Encode, AlignUp;
    IntegralOnWire(data, in_, Width(k));
  }

  lemma TextIsRead(bound: nat, v: Value, data: seq<byte>, in_: In)
    requires Open(data, in_)
    ensures var r := ProcessElement(Text(bound), v, data, in_, true);
            r.error.None? ==>
              && Within(Text(bound), r.store) && OnWire(Text(bound), r.store, data, in_.offset, in_.order)
              && HasRead(in_, r.in_, EncodeElement(Text(bound), r.store, in_.offset - 4, in_.order))
  {
    hide GetText, AlignUp, TextBlock;
    TextOnWire(bound, data, in_);
  }

  lemma TextOnWire(bound: nat, data: seq<byte>, in_: In)
    requires Open(data, in_)
    ensures var (after, text) := GetText(data, in_, bound);
            after.error.None? ==>
              && |text| <= bound && At(data, in_.offset + |Gap(in_.offset - 4, 4)|, TextBlock(text, in_.order))
              && HasRead(in_, after, Aligned(in_.offset - 4, 4, TextBlock(text, in_.order)))
  {
    hide Decode, Encode;
    var (after, text) := GetText(data, in_, bound);
    if after.error.None? {
      var start := StartOf(in_, 4);
      EncodeDecode(data[start..start + 4], in_.order);
      var end := start + 4 + |text|;
      assert data[start..end + 1] == data[start..start + 4] + data[start + 4..end] + [data[end]];
    }
  }

  lemma {:induction false} ElementIsRead(e: Element, v: Value, data: seq<byte>, in_: In)
    requires Open(data, in_)
    ensures var r := ProcessElement(e, v, data, in_, true);
            r.error.None? ==>
              && Within(e, r.store) && OnWire(e, r.store, data, in_.offset, in_.order)
              && HasRead(in_, r.in_, EncodeElement(e, r.store, in_.offset - 4, in_.order))
    decreases e, 0
  {
    match e {
      case Scalar(k) => ScalarIsRead(k, v, data, in_);
      case Text(bound) => TextIsRead(bound, v, data, in_);
      case Nested(fields) =>
        hide ProcessFields, EncodeFields, WithinField, FieldsOnWire;
        if v.Record? && |v.cells| == |fields| {
          FieldsAreRead(fields, v.cells, |fields|, data, in_);
        }
    }
  }

  lemma {:induction false} ElementsAreRead(e: Element, values: seq<Value>, n: nat, data: seq<byte>, in_: In)
    requires n <= |values| && Open(data, in_)
    ensures var r := ProcessElements(e, values, n, data, in_, true);
            r.error.None? ==>
              && (forall i :: 0 <= i < n ==> Within(e, r.store[i]))
              && ElementsOnWire(e, r.store, n, data, in_.offset, in_.order)
              && HasRead(in_, r.in_, EncodeElements(e, r.store, n, in_.offset - 4, in_.order))
    decreases e, 1, n
  {
    hide ProcessElement, EncodeElement, Within, OnWire;
    if n > 0 {
      ElementsAreRead(e, values, n - 1, data, in_);
      var before := ProcessElements(e, values, n - 1, data, in_, true);
      if before.error.None? {
        var r := ProcessElement(e, values[n - 1], data, before.in_, true);
        var store := ProcessElements(e, values, n, data, in_, true).store;
        assert store == before.store[n - 1 := r.store];
        ElementIsRead(e, values[n - 1], data, before.in_);
        ElementsSame(e, before.store, store, n - 1, data, in_.offset, in_.order);
      }
    }
  }

  /** Only the first `n` values count. */
  lemma {:induction false} ElementsSame(e: Element, a: seq<Value>, b: seq<Value>, n: nat, data: seq<byte>, offset: nat,
                                        order: ByteOrder)
    requires n <= |a| && n <= |b| && offset >= 4 && forall i :: 0 <= i < n ==> a[i] == b[i]
    ensures EncodeElements(e, a, n, offset - 4, order) == EncodeElements(e, b, n, offset - 4, order)
    ensures ElementsOnWire(e, a, n, data, offset, order) == ElementsOnWire(e, b, n, data, offset, order)
  {
    hide EncodeElement, OnWire;
    if n > 0 {
      ElementsSame(e, a, b, n - 1, data, offset, order);
    }
  }

  lemma CountIsRead(f: Field, data: seq<byte>, in_: In)
    requires Open(data, in_) && !f.shape.Single? && ProcessCount(f, data, in_).error.None?
    ensures var r := ProcessCount(f, data, in_);
            && (f.shape.FixedArray? ==> r.store == f.shape.count)
            && (f.shape.BoundedSequence? ==> r.store <= f.shape.bound)
            && CountOnWire(f, r.store, data, in_.offset, in_.order)
            && HasRead(in_, r.in_, CountBytes(f, r.store, in_.offset - 4, in_.order))
  {
    hide GetIntegral, Encode, AlignUp;
    IntegralOnWire(data, in_, 4);
  }

  lemma {:induction false} FieldIsRead(f: Field, c: Cell, data: seq<byte>, in_: In)
    requires Open(data, in_)
    ensures var r := ProcessField(f, c, data, in_, true);
            r.error.None? ==>
              && WithinField(f, r.store) && FieldOnWire(f, r.store, data, in_.offset, in_.order)
              && HasRead(in_, r.in_, EncodeField(f, r.store, in_.offset - 4, in_.order))
    decreases f
  {
    hide ProcessElements, ProcessCount, EncodeElements, CountBytes, Within, CountOnWire, ElementsOnWire;
    if f.shape.Single? {
      ElementsAreRead(f.element, c.values, |c.values|, data, in_);
      NoCountForSingle(f, |c.values|, in_.offset - 4, in_.order);
      NoCountOnWire(f, |c.values|, data, in_.offset, in_.order);
    } else if ProcessCount(f, data, in_).error.None? {
      CountIsRead(f, data, in_);
      ElementsAreRead(f.element, c.values, |c.values|, data, ProcessCount(f, data, in_).in_);
    }
  }

  lemma NoCountOnWire(f: Field, count: nat, data: seq<byte>, offset: nat, order: ByteOrder)
    requires f.shape.Single? && offset >= 4
    ensures CountOnWire(f, count, data, offset, order)
  {}

  lemma {:induction false} FieldsAreRead(fields: seq<Field>, cells: seq<Cell>, n: nat, data: seq<byte>, in_: In)
    requires n <= |fields| == |cells| && Open(data, in_)
    ensures var r := ProcessFields(fields, cells, n, data, in_, true);
            r.error.None? ==>
              && (forall i :: 0 <= i < n ==> WithinField(fields[i], r.store[i]))
              && FieldsOnWire(fields, r.store, n, data, in_.offset, in_.order)
              && HasRead(in_, r.in_, EncodeFields(fields, r.store, n, in_.offset - 4, in_.order))
    decreases fields, n
  {
    hide ProcessField, EncodeField, WithinField, FieldOnWire;
    if n > 0 {
      FieldsAreRead(fields, cells, n - 1, data, in_);
      var before := ProcessFields(fields, cells, n - 1, data, in_, true);
      if before.error.None? {
        var r := ProcessField(fields[n - 1], cells[n - 1], data, before.in_, true);
        var store := ProcessFields(fields, cells, n, data, in_, true).store;
        assert store == before.store[n - 1 := r.store];
        FieldIsRead(fields[n - 1], cells[n - 1], data, before.in_);
        FieldsSame(fields, before.store, store, n - 1, data, in_.offset, in_.order);
      }
    }
  }

  lemma {:induction false} FieldsSame(fields: seq<Field>, a: seq<Cell>, b: seq<Cell>, n: nat, data: seq<byte>,
                                      offset: nat, order: ByteOrder)
    requires n <= |fields| == |a| == |b| && offset >= 4 && forall i :: 0 <= i < n ==> a[i] == b[i]
    ensures EncodeFields(fields, a, n, offset - 4, order) == EncodeFields(fields, b, n, offset - 4, order)
    ensures FieldsOnWire(fields, a, n, data, offset, order) == FieldsOnWire(fields, b, n, data, offset, order)
  {
    hide EncodeField, FieldOnWire;
    if n > 0 {
      FieldsSame(fields, a, b, n - 1, data, offset, order);
    }
  }

  /**
   Whatever was sent: input that is accepted starts with the identifier of plain CDR, and the message it leaves is
   within all its bounds and stands in the input byte for byte, padding aside; with paired accessors what was read
   is the whole input.
   */
  lemma AcceptedIsMessage(fields: seq<Field>, cells: seq<Cell>, data: seq<byte>)
    requires |fields| == |cells| && Deserialize(fields, cells, data).error.None?
    ensures |data| >= 4 && data[0] == 0 && (data[1] == 0 || data[1] == 1)
    ensures var o, order := Deserialize(fields, cells, data), if data[1] == 1 then LittleEndian else BigEndian;
            && |o.cells| == |fields| && WithinFields(fields, o.cells)
            && FieldsOnWire(fields, o.cells, |fields|, data, 4, order)
            && o.size == 4 + |EncodeFields(fields, o.cells, |fields|, 0, order)|
            && (AllPaired(fields) ==> o.size == |data|)
  {
    hide ProcessFields, EncodeFields, WithinField, AllPaired, FieldsOnWire;
    var start := Begun(data, LittleEndian);
    ValidationStoresNothing(fields, cells, |fields|, data, start);
    FieldsAreRead(fields, cells, |fields|, data, start);
    if AllPaired(fields) {
      DeserializeIsAtomic(fields, cells, data);
    }
  }
}
