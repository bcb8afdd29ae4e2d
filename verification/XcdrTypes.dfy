/** Message types as finite trees, and the largest XCDR1 encoding of each. */
module XcdrTypes {

  /** Bytes before the body: representation identifier and options. */
  const ENCAPSULATION_SIZE := 4
  const UINT32_MAX := 0xFFFF_FFFF

  datatype ScalarKind =
    | Boolean | Char | Octet | UInt8 | Int8 | UInt16 | Int16 | Float | UInt32 | Int32 | Double | UInt64 | Int64

  /** The encoded width of a scalar, which is also its alignment. */
  function Width(k: ScalarKind): (w: nat)
    ensures w == 1 || w == 2 || w == 4 || w == 8
  {
    match k
    case Boolean => 1 case Char => 1 case Octet => 1 case UInt8 => 1 case Int8 => 1
    case UInt16 => 2 case Int16 => 2
    case Float => 4 case UInt32 => 4 case Int32 => 4
    case Double => 8 case UInt64 => 8 case Int64 => 8
  }

  /** Which element accessors a member's descriptor supplies. */
  datatype Callbacks = Callbacks(size: bool, get: bool, getConst: bool, fetch: bool, assign: bool)

  datatype Shape = Single | FixedArray(count: nat) | BoundedSequence(bound: nat)

  datatype Element = Scalar(kind: ScalarKind) | Text(bound: nat) | Nested(fields: seq<Field>)

  datatype Field = Field(shape: Shape, element: Element, callbacks: Callbacks)

  /** The most elements a field can hold. */
  function Most(shape: Shape): (n: nat)
  {
    match shape
    case Single => 1
    case FixedArray(n) => n
    case BoundedSequence(n) => n
  }

  predicate Alignment(a: nat)
  {
    a == 1 || a == 2 || a == 4 || a == 8
  }

  /** The next multiple of the alignment. */
  function AlignUp(offset: nat, a: nat): (r: nat)
    requires Alignment(a)
    ensures offset <= r < offset + a && r % a == 0
  {
    var remainder := offset % a;
    NextMultiple(offset, a);
    if remainder == 0 then offset else offset + (a - remainder)
  }

  lemma NextMultiple(offset: nat, a: nat)
    requires Alignment(a)
    ensures 0 <= offset % a < a && (offset + (a - offset % a)) % a == 0
  {
    match a
    case 1 =>
    case 2 =>
    case 4 =>
    case 8 =>
    case _ =>
  }

  lemma AlignUpMonotone(x: nat, y: nat, a: nat)
    requires Alignment(a) && x <= y
    ensures AlignUp(x, a) <= AlignUp(y, a)
  {
    match a
    case 1 =>
    case 2 =>
    case 4 =>
    case 8 =>
    case _ =>
  }

  // ---------------------------------------------------------------- largest encodings

  /** The offset after the longest value of an element that starts at `offset`. */
  function ElementEnd(e: Element, offset: nat): (r: nat)
    decreases e, 0
  {
    match e
    case Scalar(k) => AlignUp(offset, Width(k)) + Width(k)
    case Text(bound) => AlignUp(offset, 4) + 4 + bound + 1
    case Nested(fields) => FieldsEnd(fields, |fields|, offset)
  }

  function RepeatEnd(e: Element, n: nat, offset: nat): (r: nat)
    decreases e, 1, n
  {
    if n == 0 then offset else ElementEnd(e, RepeatEnd(e, n - 1, offset))
  }

  function FieldEnd(f: Field, offset: nat): (r: nat)
    decreases f
  {
    RepeatEnd(f.element, Most(f.shape), if f.shape.BoundedSequence? then AlignUp(offset, 4) + 4 else offset)
  }

  /** The offset after the first `n` fields at their longest. */
  function FieldsEnd(fields: seq<Field>, n: nat, offset: nat): (r: nat)
    requires n <= |fields|
    decreases fields, n
  {
    if n == 0 then offset else FieldEnd(fields[n - 1], FieldsEnd(fields, n - 1, offset))
  }

  /** Encodings only grow, and a later start never ends earlier: alignment is monotone in the offset. */
  lemma {:induction false} ElementEndMonotone(e: Element, x: nat, y: nat)
    requires x <= y
    ensures x <= ElementEnd(e, x) <= ElementEnd(e, y)
    decreases e, 0
  {
    match e
    case Scalar(k) => AlignUpMonotone(x, y, Width(k));
    case Text(_) => AlignUpMonotone(x, y, 4);
    case Nested(fields) => FieldsEndMonotone(fields, |fields|, x, y);
  }

  lemma {:induction false} RepeatEndMonotone(e: Element, m: nat, n: nat, x: nat, y: nat)
    requires x <= y && m <= n
    ensures x <= RepeatEnd(e, m, x) <= RepeatEnd(e, n, y)
    decreases e, 1, n
  {
    if m == n {
      if n > 0 {
        RepeatEndMonotone(e, n - 1, n - 1, x, y);
        ElementEndMonotone(e, RepeatEnd(e, n - 1, x), RepeatEnd(e, n - 1, y));
      }
    } else {
      RepeatEndMonotone(e, m, n - 1, x, y);
      ElementEndMonotone(e, RepeatEnd(e, n - 1, y), RepeatEnd(e, n - 1, y));
    }
  }

  lemma {:induction false} FieldEndMonotone(f: Field, x: nat, y: nat)
    requires x <= y
    ensures x <= FieldEnd(f, x) <= FieldEnd(f, y)
    decreases f
  {
    AlignUpMonotone(x, y, 4);
    var x' := if f.shape.BoundedSequence? then AlignUp(x, 4) + 4 else x;
    var y' := if f.shape.BoundedSequence? then AlignUp(y, 4) + 4 else y;
    RepeatEndMonotone(f.element, Most(f.shape), Most(f.shape), x', y');
  }

  lemma {:induction false} FieldsEndMonotone(fields: seq<Field>, n: nat, x: nat, y: nat)
    requires n <= |fields| && x <= y
    ensures x <= FieldsEnd(fields, n, x) <= FieldsEnd(fields, n, y)
    decreases fields, n
  {
    if n > 0 {
      FieldsEndMonotone(fields, n - 1, x, y);
      FieldEndMonotone(fields[n - 1], FieldsEnd(fields, n - 1, x), FieldsEnd(fields, n - 1, y));
    }
  }

  lemma {:induction false} FieldsEndGrows(fields: seq<Field>, m: nat, n: nat, x: nat)
    requires m <= n <= |fields|
    ensures FieldsEnd(fields, m, x) <= FieldsEnd(fields, n, x)
    decreases n
  {
    if m < n {
      FieldsEndGrows(fields, m, n - 1, x);
      FieldEndMonotone(fields[n - 1], FieldsEnd(fields, n - 1, x), FieldsEnd(fields, n - 1, x));
    }
  }
}
