/** The bytes of each scalar kind on the wire, and a message that is as large as the analysis says one can be. */
module XcdrWire {
  import opened Bytes
  import opened RtpsTypes
  import opened XcdrTypes
  import opened TypeSupport
  import opened TypeUnfolding
  import opened XcdrMessages
  import opened XcdrSerializer
  import Cdr

  // ---------------------------------------------------------------- scalars

  /** Zero bytes up to the next multiple of the width. */
  function Padding(position: nat, width: nat): (b: seq<byte>)
    requires width > 0
  {
    seq((width - position % width) % width, _ => 0)
  }

  lemma GapIsPadding(position: nat, a: nat)
    requires Alignment(a)
    ensures Cdr.Gap(position, a) == Padding(position, a)
  {
    match a
    case 1 =>
    case 2 =>
    case 4 =>
    case 8 =>
    case _ =>
  }

  /** The low `n` bytes of a bit pattern, least significant first. */
  function LowBytes(v: nat, n: nat): (b: seq<byte>)
    ensures |b| == n
  {
    seq(n, i requires 0 <= i < n => (v / Pow256(i)) % 256)
  }

  function Backwards(b: seq<byte>): (r: seq<byte>)
    ensures |r| == |b|
  {
    seq(|b|, i requires 0 <= i < |b| => b[|b| - 1 - i])
  }

  lemma EncodeIsLowBytes(v: nat, n: nat, order: ByteOrder)
    ensures Encode(v, n, order) == if order == LittleEndian then LowBytes(v, n) else Backwards(LowBytes(v, n))
  {
    forall i: nat | i < n
      ensures Encode(v, n, order)[i] == (v / Pow256(if order == LittleEndian then i else n - 1 - i)) % 256
    {
      EncodeAt(v, n, order, i);
    }
  }

  /**
   Every scalar on the wire, in either order: one byte for booleans, characters and octets, two, four or eight for
   the integers and floats of 16, 32 and 64 bits, after zeros up to a multiple of that size.
   */
  lemma ScalarOnWire(k: ScalarKind, v: nat, position: nat, order: ByteOrder)
    ensures var n := match k
              case Boolean => 1 case Char => 1 case Octet => 1 case Int8 => 1 case UInt8 => 1
              case Int16 => 2 case UInt16 => 2 case Int32 => 4 case UInt32 => 4 case Int64 => 8 case UInt64 => 8
              case Float => 4 case Double => 8;
            EncodeElement(Scalar(k), Number(v), position, order)
            == Padding(position, n) + if order == LittleEndian then LowBytes(v, n) else Backwards(LowBytes(v, n))
  {
    hide Encode, LowBytes, Backwards, Padding;
    GapIsPadding(position, Width(k));
    EncodeIsLowBytes(v, Width(k), order);
  }

  /** Every serialised message starts with the identifier of plain CDR in its byte order and two zero bytes. */
  lemma HeaderOnWire(g: Graph, language: Language, id: nat, message: seq<Cell>, order: ByteOrder, buffer: seq<byte>,
                     r: Serialized)
    requires Serializes(g, language, id, message, order, buffer, r) && r.Written?
    ensures 4 <= r.size <= |buffer| && buffer[..4] == [0, if order == LittleEndian then 1 else 0, 0, 0]
  {
    hide Unfold, Unfolds, Analyze, FieldsProblem, EncodeFields;
    assert buffer[..4] == buffer[..r.size][..4];
  }

  // ---------------------------------------------------------------- the largest message

  /** Every array and sequence in the tree can be read by the serialiser and counted in 32 bits. */
  predicate Fillable(f: Field)
    decreases f
  {
    && (!f.shape.Single? ==> Readable(f) && Most(f.shape) <= UINT32_MAX)
    && (f.element.Nested? ==> AllFillable(f.element.fields))
  }

  predicate AllFillable(fields: seq<Field>)
    decreases fields, 1
  {
    forall i :: 0 <= i < |fields| ==> Fillable(fields[i])
  }

  /** A string of `bound` characters. */
  function FullString(language: Language, bound: nat): (s: StringStore)
  {
    var chars: seq<byte> := seq(bound, _ => 'x' as int);
    if language == IntrospectionC then CString(Some(chars + [0]), bound) else CppString(chars, bound)
  }

  /** The longest value of an element: every string and every sequence full. */
  function Fullest(language: Language, e: Element): (v: Value)
    decreases e, 0
  {
    match e
    case Scalar(_) => Number(0)
    case Text(bound) => String(FullString(language, bound))
    case Nested(fields) => Record(FullestCells(language, fields, |fields|))
  }

  function FullestCell(language: Language, f: Field): (c: Cell)
    decreases f
  {
    var v := Fullest(language, f.element);
    Cell(seq(Most(f.shape), _ => v))
  }

  function FullestCells(language: Language, fields: seq<Field>, n: nat): (c: seq<Cell>)
    requires n <= |fields|
    ensures |c| == n
    decreases fields, n
  {
    if n == 0 then [] else FullestCells(language, fields, n - 1) + [FullestCell(language, fields[n - 1])]
  }

  lemma {:induction false} FullestCellAt(language: Language, fields: seq<Field>, n: nat, i: nat)
    requires i < n <= |fields|
    ensures FullestCells(language, fields, n)[i] == FullestCell(language, fields[i])
  {
    hide FullestCell;
    if i < n - 1 {
      FullestCellAt(language, fields, n - 1, i);
    }
  }

  lemma {:induction false} FullestHolds(language: Language, e: Element)
    ensures Holds(language, e, Fullest(language, e))
    decreases e, 0
  {
    match e
    case Scalar(k) => Pow256Values();
    case Text(_) =>
    case Nested(fields) => FullestFieldsHold(language, fields);
  }

  lemma {:induction false} FullestFieldHolds(language: Language, f: Field)
    ensures HoldsField(language, f, FullestCell(language, f))
    decreases f
  {
    FullestHolds(language, f.element);
  }

  lemma {:induction false} FullestFieldsHold(language: Language, fields: seq<Field>)
    ensures HoldsFields(language, fields, FullestCells(language, fields, |fields|))
    decreases fields, 1
  {
    hide FullestCell, HoldsField;
    forall i | 0 <= i < |fields|
      ensures HoldsField(language, fields[i], FullestCells(language, fields, |fields|)[i])
    {
      FullestCellAt(language, fields, |fields|, i);
      FullestFieldHolds(language, fields[i]);
    }
  }

  lemma {:induction false} FullestIsSound(language: Language, e: Element)
    requires e.Nested? ==> AllFillable(e.fields)
    ensures ElementProblem(e, Fullest(language, e)).None?
    decreases e, 0
  {
    match e
    case Scalar(_) =>
    case Text(_) =>
    case Nested(fields) => FullestFieldsAreSound(language, fields, |fields|, FullestCells(language, fields, |fields|));
  }

  lemma {:induction false} CopiesAreSound(e: Element, values: seq<Value>, n: nat)
    requires n <= |values| && forall i :: 0 <= i < n ==> ElementProblem(e, values[i]).None?
    ensures ElementsProblem(e, values, n).None?
  {
    hide ElementProblem;
    if n > 0 {
      CopiesAreSound(e, values, n - 1);
    }
  }

  lemma {:induction false} FullestFieldIsSound(language: Language, f: Field)
    requires Fillable(f)
    ensures FieldProblem(f, FullestCell(language, f)).None?
    decreases f
  {
    FullestIsSound(language, f.element);
    hide ElementProblem, ElementsProblem;
    CopiesAreSound(f.element, FullestCell(language, f).values, Most(f.shape));
  }

  lemma {:induction false} FullestFieldsAreSound(language: Language, fields: seq<Field>, n: nat, cells: seq<Cell>)
    requires n <= |fields| && AllFillable(fields) && cells == FullestCells(language, fields, |fields|)
    ensures FieldsProblem(fields, cells, n).None?
    decreases fields, n
  {
    hide FieldProblem, FullestCell, FullestCells, Fillable;
    if n > 0 {
      FullestFieldsAreSound(language, fields, n - 1, cells);
      FullestCellAt(language, fields, |fields|, n - 1);
      FullestFieldIsSound(language, fields[n - 1]);
    }
  }

  // ---------------------------------------------------------------- and its size

  lemma {:induction false} FullestEnds(language: Language, e: Element, position: nat, order: ByteOrder)
    ensures position + |EncodeElement(e, Fullest(language, e), position, order)| == ElementEnd(e, position)
    decreases e, 0
  {
    match e
    case Scalar(_) =>
    case Text(_) =>
    case Nested(fields) =>
      FullestFieldsEnd(language, fields, |fields|, FullestCells(language, fields, |fields|), position, order);
  }

  lemma {:induction false} CopiesEnd(language: Language, e: Element, values: seq<Value>, n: nat, position: nat,
                                     order: ByteOrder)
    requires n <= |values| && forall i :: 0 <= i < n ==> values[i] == Fullest(language, e)
    ensures position + |EncodeElements(e, values, n, position, order)| == RepeatEnd(e, n, position)
    decreases e, 1, n
  {
    hide Fullest, EncodeElement, ElementEnd;
    if n > 0 {
      CopiesEnd(language, e, values, n - 1, position, order);
      FullestEnds(language, e, position + |EncodeElements(e, values, n - 1, position, order)|, order);
    }
  }

  lemma {:induction false} FullestFieldEnds(language: Language, f: Field, position: nat, order: ByteOrder)
    ensures position + |EncodeField(f, FullestCell(language, f), position, order)| == FieldEnd(f, position)
    decreases f
  {
    hide Fullest, EncodeElements, RepeatEnd, Encode;
    var c := FullestCell(language, f);
    CopiesEnd(language, f.element, c.values, |c.values|, position + |CountBytes(f, |c.values|, position, order)|,
              order);
  }

  lemma {:induction false} FullestFieldsEnd(language: Language, fields: seq<Field>, n: nat, cells: seq<Cell>,
                                            position: nat, order: ByteOrder)
    requires n <= |fields| && cells == FullestCells(language, fields, |fields|)
    ensures position + |EncodeFields(fields, cells, n, position, order)| == FieldsEnd(fields, n, position)
    decreases fields, n
  {
    hide FullestCell, FullestCells, EncodeField, FieldEnd;
    if n > 0 {
      FullestFieldsEnd(language, fields, n - 1, cells, position, order);
      FullestCellAt(language, fields, |fields|, n - 1);
      FullestFieldEnds(language, fields[n - 1],
                       position + |EncodeFields(fields, cells, n - 1, position, order)|, order);
    }
  }

  /**
   The analysed maximum is no larger than it has to be: where the arrays can be read at all, some message of the type
   serialises to exactly that many bytes. With `SizeIsSound` it is the largest size of any message.
   */
  lemma MaximumIsAttained(g: Graph, language: Language, id: nat, maximum: nat, fields: seq<Field>, order: ByteOrder)
    requires maximum <= SIZE_MAX && Analyze(g, language, id, maximum).Ok?
    requires Unfolds(g, language, id, fields) && AllFillable(fields)
    ensures var message := FullestCells(language, fields, |fields|);
            && HoldsFields(language, fields, message) && FieldsProblem(fields, message, |fields|).None?
            && |EncodeFields(fields, message, |fields|, 0, order)| == Analyze(g, language, id, maximum).totals.offset
  {
    hide Unfolds, Depth, FieldsEnd, DescriptorTotals, Unfold, LargestAlignment, FieldsProblem, EncodeFields,
         HoldsFields, FullestCells, AllFillable;
    var message := FullestCells(language, fields, |fields|);
    AnalysisIsExact(g, language, id, maximum);
    FullestFieldsHold(language, fields);
    FullestFieldsAreSound(language, fields, |fields|, message);
    FullestFieldsEnd(language, fields, |fields|, message, 0, order);
  }
}
