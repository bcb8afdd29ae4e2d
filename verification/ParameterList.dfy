/** Parameter lists: identified, length-prefixed, four-byte aligned values up to a sentinel. */
module ParameterList {
  import opened Bytes
  import opened Layout
  import opened BufferWriter

  const SENTINEL := 1
  const MUST_UNDERSTAND := 0x4000

  datatype Parameter = Parameter(id: nat, value: seq<byte>)

  /** Either an error that ends the parse, or the state to go on with. */
  datatype Progress<+S, +E> = Stop(error: E) | Go(state: S)

  predicate WellFormed(p: Parameter)
  {
    p.id <= 0xFFFF && p.id != SENTINEL && |p.value| % 4 == 0 && |p.value| <= 0xFFFF
  }

  predicate MustUnderstand(id: nat)
  {
    (id / MUST_UNDERSTAND) % 2 == 1
  }

  /** Bit 14 of an identifier says that who does not know it must not go on. */
  lemma MustUnderstandBit(low: nat, required: nat, vendor: nat)
    requires low < 0x4000 && required <= 1 && vendor <= 1
    ensures MustUnderstand(low + 0x4000 * required + 0x8000 * vendor) <==> required == 1
  {
    assert (low + 0x4000 * required + 0x8000 * vendor) / 0x4000 == required + 2 * vendor;
  }

  function EncodeParameter(p: Parameter, order: ByteOrder): (b: seq<byte>)
    ensures |b| == 4 + |p.value|
  {
    Encode(p.id, 2, order) + (Encode(|p.value|, 2, order) + p.value)
  }

  function EncodeList(ps: seq<Parameter>, order: ByteOrder, n: nat): (b: seq<byte>)
    requires n <= |ps|
  {
    if n == 0 then [] else EncodeList(ps, order, n - 1) + EncodeParameter(ps[n - 1], order)
  }

  function EncodeSentinel(order: ByteOrder): (b: seq<byte>)
    ensures |b| == 4
  {
    Encode(SENTINEL, 2, order) + Encode(0, 2, order)
  }

  /** The four bytes that announce a parameter list and its byte order. */
  function ListHeader(order: ByteOrder): (b: seq<byte>)
    ensures |b| == 4
  {
    [0, if order == LittleEndian then 3 else 2, 0, 0]
  }

  function EncodePayload(ps: seq<Parameter>, order: ByteOrder): (b: seq<byte>)
  {
    ListHeader(order) + (EncodeList(ps, order, |ps|) + EncodeSentinel(order))
  }

  lemma PayloadParts(ps: seq<Parameter>, order: ByteOrder)
    ensures EncodePayload(ps, order) == ListHeader(order) + EncodeList(ps, order, |ps|) + EncodeSentinel(order)
    ensures |EncodePayload(ps, order)| == 8 + |EncodeList(ps, order, |ps|)|
  {
    hide ListHeader, EncodeList, EncodeSentinel;
  }

  // ---------------------------------------------------------------- scanning

  /** Read parameters up to the sentinel, handing each to `step`; `malformed` is the error for a broken list. */
  function Scan<S, E>(payload: seq<byte>, offset: nat, order: ByteOrder, s: S, malformed: E,
                      step: (S, nat, seq<byte>, ByteOrder) -> Progress<S, E>): (r: Progress<S, E>)
    requires offset <= |payload|
    decreases |payload| - offset
  {
    if offset + 4 > |payload| then Stop(malformed)
    else
      var id := Load(payload, offset, 2, order);
      var length := Load(payload, offset + 2, 2, order);
      if id == SENTINEL then Go(s)
      else if length % 4 != 0 || length > |payload| - offset - 4 then Stop(malformed)
      else
        var next := step(s, id, payload[offset + 4..offset + 4 + length], order);
        if next.Stop? then Stop(next.error) else Scan(payload, offset + 4 + length, order, next.state, malformed, step)
  }

  /** The first `n` parameters taken one after the other. */
  function Fold<S, E>(s: S, ps: seq<Parameter>, order: ByteOrder, n: nat,
                      step: (S, nat, seq<byte>, ByteOrder) -> Progress<S, E>): (r: Progress<S, E>)
    requires n <= |ps|
  {
    if n == 0 then Go(s)
    else
      var before := Fold(s, ps, order, n - 1, step);
      if before.Stop? then before else step(before.state, ps[n - 1].id, ps[n - 1].value, order)
  }

  /** The reading loop. */
  method ScanList<S, E>(payload: seq<byte>, start: nat, order: ByteOrder, initial: S, malformed: E,
                        step: (S, nat, seq<byte>, ByteOrder) -> Progress<S, E>) returns (r: Progress<S, E>)
    requires start <= |payload|
    ensures r == Scan(payload, start, order, initial, malformed, step)
  {
    hide Scan, Load;
    var offset, s := start, initial;
    while offset + 4 <= |payload|
      invariant offset <= |payload|
      invariant Scan(payload, start, order, initial, malformed, step) ==
          Scan(payload, offset, order, s, malformed, step)
    {
      ScanOne(payload, offset, order, s, malformed, step);
      var id := Load(payload, offset, 2, order);
      var length := Load(payload, offset + 2, 2, order);
      if id == SENTINEL {
        return Go(s);
      }
      if length % 4 != 0 || length > |payload| - offset - 4 {
        return Stop(malformed);
      }
      var next := step(s, id, payload[offset + 4..offset + 4 + length], order);
      if next.Stop? {
        return Stop(next.error);
      }
      s := next.state;
      offset := offset + 4 + length;
    }
    ScanShort(payload, offset, order, s, malformed, step);
    return Stop(malformed);
  }

  lemma ScanShort<S, E>(payload: seq<byte>, offset: nat, order: ByteOrder, s: S, malformed: E,
                        step: (S, nat, seq<byte>, ByteOrder) -> Progress<S, E>)
    requires offset <= |payload| < offset + 4
    ensures Scan(payload, offset, order, s, malformed, step) == Stop(malformed)
  {}

  lemma ScanOne<S, E>(payload: seq<byte>, offset: nat, order: ByteOrder, s: S, malformed: E,
                      step: (S, nat, seq<byte>, ByteOrder) -> Progress<S, E>)
    requires offset + 4 <= |payload|
    ensures
      var id, length := Load(payload, offset, 2, order), Load(payload, offset + 2, 2, order);
      var scanned := Scan(payload, offset, order, s, malformed, step);
      if id == SENTINEL then scanned == Go(s)
      else if length % 4 != 0 || length > |payload| - offset - 4 then scanned == Stop(malformed)
      else
        var next := step(s, id, payload[offset + 4..offset + 4 + length], order);
        if next.Stop? then scanned == Stop(next.error)
        else scanned == Scan(payload, offset + 4 + length, order, next.state, malformed, step)
  {
    hide Load;
  }

  lemma ParameterBack(payload: seq<byte>, offset: nat, order: ByteOrder, p: Parameter)
    requires WellFormed(p) && At(payload, offset, EncodeParameter(p, order))
    ensures offset + 4 + |p.value| <= |payload|
    ensures Load(payload, offset, 2, order) == p.id && Load(payload, offset + 2, 2, order) == |p.value|
    ensures payload[offset + 4..offset + 4 + |p.value|] == p.value
  {
    hide At, Load, Encode;
    Split(payload, offset, Encode(p.id, 2, order), Encode(|p.value|, 2, order) + p.value);
    Split(payload, offset + 2, Encode(|p.value|, 2, order), p.value);
    Pow256Values();
    LoadBack(payload, offset, p.id, 2, order);
    LoadBack(payload, offset + 2, |p.value|, 2, order);
    SliceAt(payload, offset + 4, p.value);
  }

  lemma ScanParameter<S, E>(payload: seq<byte>, offset: nat, order: ByteOrder, s: S, malformed: E,
                            step: (S, nat, seq<byte>, ByteOrder) -> Progress<S, E>, p: Parameter)
    requires WellFormed(p) && At(payload, offset, EncodeParameter(p, order))
    ensures offset + 4 + |p.value| <= |payload|
    ensures var next := step(s, p.id, p.value, order);
      Scan(payload, offset, order, s, malformed, step)
      == if next.Stop? then Stop(next.error)
      else Scan(payload, offset + 4 + |p.value|, order, next.state, malformed, step)
  {
    hide At, Load, EncodeParameter;
    ParameterBack(payload, offset, order, p);
  }

  /** Scanning over an encoded list is folding over it, and then scanning what follows. */
  lemma {:induction false} ScanListEncoded<S, E>(payload: seq<byte>, offset: nat, order: ByteOrder, s: S, malformed: E,
      step: (S, nat, seq<byte>, ByteOrder) -> Progress<S, E>, ps: seq<Parameter>, n: nat)
    requires n <= |ps| && (forall i :: 0 <= i < |ps| ==> WellFormed(ps[i]))
    requires At(payload, offset, EncodeList(ps, order, n))
    ensures offset + |EncodeList(ps, order, n)| <= |payload|
    ensures var folded := Fold(s, ps, order, n, step);
      Scan(payload, offset, order, s, malformed, step)
      == if folded.Stop? then Stop(folded.error)
         else Scan(payload, offset + |EncodeList(ps, order, n)|, order, folded.state, malformed, step)
  {
    hide At, Scan, EncodeParameter, WellFormed;
    SliceAt(payload, offset, EncodeList(ps, order, n));
    if n > 0 {
      Split(payload, offset, EncodeList(ps, order, n - 1), EncodeParameter(ps[n - 1], order));
      ScanListEncoded(payload, offset, order, s, malformed, step, ps, n - 1);
      var before := Fold(s, ps, order, n - 1, step);
      if before.Go? {
        ScanParameter(payload, offset + |EncodeList(ps, order, n - 1)|, order, before.state, malformed, step,
                      ps[n - 1]);
      }
    }
  }

  lemma ScanSentinel<S, E>(payload: seq<byte>, offset: nat, order: ByteOrder, s: S, malformed: E,
                           step: (S, nat, seq<byte>, ByteOrder) -> Progress<S, E>)
    requires At(payload, offset, EncodeSentinel(order))
    ensures offset <= |payload| && Scan(payload, offset, order, s, malformed, step) == Go(s)
  {
    hide At, Load, Encode;
    Split(payload, offset, Encode(SENTINEL, 2, order), Encode(0, 2, order));
    Pow256Values();
    LoadBack(payload, offset, SENTINEL, 2, order);
    LoadBack(payload, offset + 2, 0, 2, order);
  }

  lemma LoadSame(a: seq<byte>, b: seq<byte>, i: nat, j: nat, k: nat, width: nat, order: ByteOrder)
    requires i <= |a| && j <= |b| && a[i..] == b[j..] && i + k + width <= |a|
    ensures j + k + width <= |b| && Load(a, i + k, width, order) == Load(b, j + k, width, order)
  {
    SliceSame(a, b, i, j, k, k + width);
  }

  lemma SliceSame(a: seq<byte>, b: seq<byte>, i: nat, j: nat, from: nat, to: nat)
    requires i <= |a| && j <= |b| && a[i..] == b[j..] && from <= to && i + to <= |a|
    ensures j + to <= |b| && a[i + from..i + to] == b[j + from..j + to]
  {
    assert |a[i..]| == |b[j..]|;
    assert a[i + from..i + to] == a[i..][from..to];
    assert b[j + from..j + to] == b[j..][from..to];
  }

  /** Scanning looks only at what follows. */
  lemma {:induction false} ScanSame<S, E>(a: seq<byte>, i: nat, b: seq<byte>, j: nat, order: ByteOrder, s: S,
                                          malformed: E,
                                          step: (S, nat, seq<byte>, ByteOrder) -> Progress<S, E>)
    requires i <= |a| && j <= |b| && a[i..] == b[j..]
    ensures Scan(a, i, order, s, malformed, step) == Scan(b, j, order, s, malformed, step)
    decreases |a| - i
  {
    hide Load, Scan;
    assert |a[i..]| == |b[j..]|;
    if i + 4 > |a| {
      ScanShort(a, i, order, s, malformed, step);
      ScanShort(b, j, order, s, malformed, step);
    } else {
      ScanOne(a, i, order, s, malformed, step);
      ScanOne(b, j, order, s, malformed, step);
      LoadSame(a, b, i, j, 0, 2, order);
      LoadSame(a, b, i, j, 2, 2, order);
      var id, length := Load(a, i, 2, order), Load(a, i + 2, 2, order);
      if id != SENTINEL && length % 4 == 0 && length <= |a| - i - 4 {
        SliceSame(a, b, i, j, 4, 4 + length);
        var next := step(s, id, a[i + 4..i + 4 + length], order);
        if next.Go? {
          RestSame(a, b, i, j, 4 + length);
          ScanSame(a, i + 4 + length, b, j + 4 + length, order, next.state, malformed, step);
        }
      }
    }
  }

  lemma RestSame(a: seq<byte>, b: seq<byte>, i: nat, j: nat, from: nat)
    requires i <= |a| && j <= |b| && a[i..] == b[j..] && i + from <= |a|
    ensures j + from <= |b| && a[i + from..] == b[j + from..]
  {
    SliceSame(a, b, i, j, from, |a| - i);
    assert a[i + from..] == a[i + from..|a|] && b[j + from..] == b[j + from..|b|];
  }

  // ---------------------------------------------------------------- extensibility

  /** A parameter that every state passes over. */
  ghost predicate PassedOver<S(!new), E>(step: (S, nat, seq<byte>, ByteOrder) -> Progress<S, E>, p: Parameter,
                                         order: ByteOrder)
  {
    WellFormed(p) && forall s :: step(s, p.id, p.value, order) == Go(s)
  }

  ghost predicate AllPassedOver<S(!new), E>(step: (S, nat, seq<byte>, ByteOrder) -> Progress<S, E>, ps: seq<Parameter>,
                                            order: ByteOrder)
  {
    forall i :: 0 <= i < |ps| ==> PassedOver(step, ps[i], order)
  }

  lemma {:induction false} FoldPassesOver<S(!new), E>(s: S, ps: seq<Parameter>, order: ByteOrder, n: nat,
                                                      step: (S, nat, seq<byte>, ByteOrder) -> Progress<S, E>)
    requires n <= |ps| && AllPassedOver(step, ps, order)
    ensures Fold(s, ps, order, n, step) == Go(s)
  {
    if n > 0 {
      FoldPassesOver(s, ps, order, n - 1, step);
      assert PassedOver(step, ps[n - 1], order);
    }
  }

  /** `front` is where the list begins; any parameters, then unknown ones, then anything at all. */
  function Extended(front: seq<byte>, known: seq<byte>, unknown: seq<byte>, rest: seq<byte>): (b: seq<byte>)
  {
    front + (known + (unknown + rest))
  }

  /**
   Parameters that are passed over may be inserted after any parameters at all,
   whatever follows them: the outcome is the same.
   */
  lemma InsertionIsInvisible<S(!new), E>(front: seq<byte>, known: seq<Parameter>, unknown: seq<Parameter>,
                                         rest: seq<byte>,
      order: ByteOrder, s: S, malformed: E, step: (S, nat, seq<byte>, ByteOrder) -> Progress<S, E>)
    requires forall i :: 0 <= i < |known| ==> WellFormed(known[i])
    requires AllPassedOver(step, unknown, order)
    ensures
      var k, u := EncodeList(known, order, |known|), EncodeList(unknown, order, |unknown|);
      Scan(Extended(front, k, u, rest), |front|, order, s, malformed, step)
      == Scan(Extended(front, k, [], rest), |front|, order, s, malformed, step)
  {
    hide *;
    var k, u := EncodeList(known, order, |known|), EncodeList(unknown, order, |unknown|);
    var a, b := Extended(front, k, u, rest), Extended(front, k, [], rest);
    ExtendedAgree(front, k, u, rest);
    var folded := Fold(s, known, order, |known|, step);
    if folded.Go? {
      InsertedHere(a, b, |front| + |k|, unknown, order, folded.state, malformed, step);
    }
    SameAfterKnown(a, b, |front|, known, order, s, malformed, step);
  }

  lemma InsertedHere<S(!new), E>(a: seq<byte>, b: seq<byte>, offset: nat, unknown: seq<Parameter>, order: ByteOrder,
                                 s: S,
                                 malformed: E, step: (S, nat, seq<byte>, ByteOrder) -> Progress<S, E>)
    requires AllPassedOver(step, unknown, order)
    requires At(a, offset, EncodeList(unknown, order, |unknown|)) && offset <= |b|
    requires offset + |EncodeList(unknown, order, |unknown|)| <= |a|
    requires a[offset + |EncodeList(unknown, order, |unknown|)|..] == b[offset..]
    ensures offset <= |a| && Scan(a, offset, order, s, malformed, step) == Scan(b, offset, order, s, malformed, step)
  {
    hide *;
    ScanPassesOver(a, offset, unknown, order, s, malformed, step);
    ScanSame(a, offset + |EncodeList(unknown, order, |unknown|)|, b, offset, order, s, malformed, step);
  }

  lemma SameAfterKnown<S, E>(a: seq<byte>, b: seq<byte>, offset: nat, known: seq<Parameter>, order: ByteOrder, s: S,
                             malformed: E, step: (S, nat, seq<byte>, ByteOrder) -> Progress<S, E>)
    requires forall i :: 0 <= i < |known| ==> WellFormed(known[i])
    requires At(a, offset, EncodeList(known, order, |known|)) && At(b, offset, EncodeList(known, order, |known|))
    requires offset + |EncodeList(known, order, |known|)| <= |a| && offset + |EncodeList(known, order, |known|)| <= |b|
    requires
      var end, folded := offset + |EncodeList(known, order, |known|)|, Fold(s, known, order, |known|, step);
      folded.Go? ==>
        Scan(a, end, order, folded.state, malformed, step) == Scan(b, end, order, folded.state, malformed, step)
    ensures Scan(a, offset, order, s, malformed, step) == Scan(b, offset, order, s, malformed, step)
  {
    hide Scan, EncodeList, WellFormed, Fold, At;
    ScanListEncoded(a, offset, order, s, malformed, step, known, |known|);
    ScanListEncoded(b, offset, order, s, malformed, step, known, |known|);
  }

  lemma ScanPassesOver<S(!new), E>(payload: seq<byte>, offset: nat, unknown: seq<Parameter>, order: ByteOrder, s: S,
                                   malformed: E,
                                   step: (S, nat, seq<byte>, ByteOrder) -> Progress<S, E>)
    requires AllPassedOver(step, unknown, order)
    requires At(payload, offset, EncodeList(unknown, order, |unknown|))
    ensures offset + |EncodeList(unknown, order, |unknown|)| <= |payload|
    ensures Scan(payload, offset, order, s, malformed, step)
         == Scan(payload, offset + |EncodeList(unknown, order, |unknown|)|, order, s, malformed, step)
  {
    hide *;
    UnknownWellFormed(unknown, order, step);
    ScanListEncoded(payload, offset, order, s, malformed, step, unknown, |unknown|);
    FoldPassesOver(s, unknown, order, |unknown|, step);
  }

  lemma UnknownWellFormed<S(!new), E>(unknown: seq<Parameter>, order: ByteOrder,
                                      step: (S, nat, seq<byte>, ByteOrder) -> Progress<S, E>)
    requires AllPassedOver(step, unknown, order)
    ensures forall i :: 0 <= i < |unknown| ==> WellFormed(unknown[i])
  {}

  lemma ExtendedAgree(front: seq<byte>, k: seq<byte>, u: seq<byte>, rest: seq<byte>)
    ensures var a, b, end := Extended(front, k, u, rest), Extended(front, k, [], rest), |front| + |k|;
      && At(a, |front|, k) && At(b, |front|, k) && At(a, end, u)
      && end + |u| <= |a| && end <= |a| && end <= |b| && a[end + |u|..] == b[end..]
  {
    hide At;
    ExtendedParts(front, k, u, rest);
    ExtendedParts(front, k, [], rest);
  }

  lemma ExtendedParts(front: seq<byte>, k: seq<byte>, u: seq<byte>, rest: seq<byte>)
    ensures var a := Extended(front, k, u, rest);
      At(a, |front|, k) && At(a, |front| + |k|, u) && |front| + |k| + |u| <= |a| && a[|front| + |k| + |u|..] == rest
  {
    var a := Extended(front, k, u, rest);
    assert a[|front|..|front| + |k|] == k;
    assert a[|front| + |k|..|front| + |k| + |u|] == u;
    assert a[|front| + |k| + |u|..] == rest;
  }

  /** What comes after the sentinel is never looked at. */
  lemma NothingAfterSentinel<S, E>(front: seq<byte>, known: seq<Parameter>, after: seq<byte>, order: ByteOrder, s: S,
                                   malformed: E,
                                   step: (S, nat, seq<byte>, ByteOrder) -> Progress<S, E>)
    requires forall i :: 0 <= i < |known| ==> WellFormed(known[i])
    ensures Scan(Extended(front, EncodeList(known, order, |known|), EncodeSentinel(order), after), |front|, order, s,
                 malformed, step)
         == Fold(s, known, order, |known|, step)
  {
    hide Scan, EncodeList, WellFormed, Fold, EncodeSentinel;
    var k := EncodeList(known, order, |known|);
    var a := Extended(front, k, EncodeSentinel(order), after);
    ExtendedParts(front, k, EncodeSentinel(order), after);
    ScanListEncoded(a, |front|, order, s, malformed, step, known, |known|);
    var folded := Fold(s, known, order, |known|, step);
    if folded.Go? {
      ScanSentinel(a, |front| + |k|, order, folded.state, malformed, step);
    }
  }

  lemma {:induction false} FoldAppend<S, E>(s: S, a: seq<Parameter>, b: seq<Parameter>, order: ByteOrder, m: nat,
                                            step: (S, nat, seq<byte>, ByteOrder) -> Progress<S, E>)
    requires m <= |b|
    ensures var first := Fold(s, a, order, |a|, step);
      Fold(s, a + b, order, |a| + m, step) == if first.Stop? then first else Fold(first.state, b, order, m, step)
  {
    if m == 0 {
      FoldPrefix(s, a, b, order, |a|, step);
    } else {
      FoldAppend(s, a, b, order, m - 1, step);
      assert (a + b)[|a| + m - 1] == b[m - 1];
    }
  }

  lemma {:induction false} FoldPrefix<S, E>(s: S, a: seq<Parameter>, b: seq<Parameter>, order: ByteOrder, n: nat,
                                            step: (S, nat, seq<byte>, ByteOrder) -> Progress<S, E>)
    requires n <= |a|
    ensures Fold(s, a + b, order, n, step) == Fold(s, a, order, n, step)
  {
    if n > 0 {
      FoldPrefix(s, a, b, order, n - 1, step);
    }
  }

  lemma FoldNone<S, E>(s: S, ps: seq<Parameter>, order: ByteOrder,
                       step: (S, nat, seq<byte>, ByteOrder) -> Progress<S, E>)
    ensures Fold(s, ps, order, 0, step) == Go(s)
  {}

  lemma FoldOne<S, E>(s: S, ps: seq<Parameter>, order: ByteOrder, n: nat, before: S,
                      step: (S, nat, seq<byte>, ByteOrder) -> Progress<S, E>)
    requires n < |ps| && Fold(s, ps, order, n, step) == Go(before)
    ensures Fold(s, ps, order, n + 1, step) == step(before, ps[n].id, ps[n].value, order)
  {}

  lemma FoldThen<S, E>(s: S, a: seq<Parameter>, b: seq<Parameter>, order: ByteOrder, middle: S,
                       step: (S, nat, seq<byte>, ByteOrder) -> Progress<S, E>)
    requires Fold(s, a, order, |a|, step) == Go(middle)
    ensures Fold(s, a + b, order, |a + b|, step) == Fold(middle, b, order, |b|, step)
  {
    hide Fold;
    FoldAppend(s, a, b, order, |b|, step);
  }

  // ---------------------------------------------------------------- writing

  function Zeros(n: nat): (z: seq<byte>)
    ensures |z| == n
  {
    seq(n, _ => 0)
  }

  /** A value with the zero bytes that align it. */
  function Aligned(value: seq<byte>): (r: seq<byte>)
    ensures |r| % 4 == 0 && |value| <= |r| < |value| + 4 && r[..|value|] == value
  {
    value + Zeros((4 - |value| % 4) % 4)
  }

  class ParameterWriter {
    const buffer: array<byte>
    const order: ByteOrder
    var size: nat

    ghost predicate Valid()
      reads this
    {
      size <= buffer.Length
    }

    ghost function Contents(): (b: seq<byte>)
      requires Valid()
      reads this, buffer
    {
      buffer[..size]
    }

    constructor (capacity: nat, order: ByteOrder)
      ensures Valid() && fresh(buffer) && buffer.Length == capacity && this.order == order
      ensures Contents() == if capacity >= 4 then ListHeader(order) else []
    {
      buffer := new byte[capacity];
      this.order := order;
      size := 0;
      new;
      if capacity >= 4 {
        var end := PutBytes(buffer, [], 0, [0, if order == LittleEndian then 3 else 2, 0, 0]);
        assert [] + ListHeader(order) == ListHeader(order);
        size := end;
      }
    }

    /** Append one aligned parameter, or nothing when it does not fit. */
    method Append(id: nat, value: seq<byte>) returns (ok: bool)
      requires Valid()
      modifies this, buffer
      ensures Valid()
      ensures ok <==> |Aligned(value)| <= 0xFFFF && |old(Contents())| + 4 + |Aligned(value)| <= buffer.Length
      ensures Contents() == if ok then old(Contents()) + EncodeParameter(Parameter(id, Aligned(value)), order)
      else old(Contents())
    {
      hide Encode;
      var padding := (4 - |value| % 4) % 4;
      var length := |value| + padding;
      if length > 0xFFFF || buffer.Length - size < 4 + length {
        return false;
      }
      ghost var b := Contents();
      var end := PutInteger(buffer, b, size, id, 2, order);
      end := PutInteger(buffer, b + Encode(id, 2, order), end, length, 2, order);
      end := PutBytes(buffer, b + Encode(id, 2, order) + Encode(length, 2, order), end, value + Zeros(padding));
      ParameterParts(b, Parameter(id, value + Zeros(padding)), order);
      size := end;
      return true;
    }

    /** Append parameters in turn until one does not fit. */
    method AppendAll(ps: seq<Parameter>) returns (ok: bool)
      requires Valid() && forall i :: 0 <= i < |ps| ==> WellFormed(ps[i])
      modifies this, buffer
      ensures Valid()
      ensures ok <==> |old(Contents())| + |EncodeList(ps, order, |ps|)| <= buffer.Length
      ensures ok ==> Contents() == old(Contents()) + EncodeList(ps, order, |ps|)
    {
      hide EncodeParameter;
      ghost var start := Contents();
      assert start + [] == start;
      for index := 0 to |ps|
        invariant Valid() && Contents() == start + EncodeList(ps, order, index)
      {
        AlignedAlready(ps[index].value);
        ListGrows(ps, order, index + 1, |ps|);
        ok := Append(ps[index].id, ps[index].value);
        if !ok {
          return false;
        }
        Assoc(start, EncodeList(ps, order, index), EncodeParameter(ps[index], order));
      }
      return true;
    }

    /** Close the list with the sentinel. */
    method Finish() returns (ok: bool)
      requires Valid()
      modifies this, buffer
      ensures Valid()
      ensures ok <==> |old(Contents())| + 4 <= buffer.Length
      ensures ok ==> Contents() == old(Contents()) + EncodeSentinel(order)
    {
      hide Encode;
      ok := Append(SENTINEL, []);
      if ok {
        assert EncodeParameter(Parameter(SENTINEL, Aligned([])), order) == EncodeSentinel(order);
      }
    }
  }

  lemma ParameterParts(b: seq<byte>, p: Parameter, order: ByteOrder)
    ensures b + Encode(p.id, 2, order) + Encode(|p.value|, 2, order) + p.value == b + EncodeParameter(p, order)
  {
    hide Encode;
  }

  lemma AlignedAlready(value: seq<byte>)
    requires |value| % 4 == 0
    ensures Aligned(value) == value
  {}

  lemma {:induction false} ListGrows(ps: seq<Parameter>, order: ByteOrder, m: nat, n: nat)
    requires m <= n <= |ps|
    ensures |EncodeList(ps, order, m)| <= |EncodeList(ps, order, n)|
    decreases n
  {
    hide EncodeParameter;
    if m < n {
      ListGrows(ps, order, m, n - 1);
    }
  }

  /** A list is as long as its values and their four-byte headers. */
  function Total(ps: seq<Parameter>, n: nat): (t: nat)
    requires n <= |ps|
  {
    if n == 0 then 0 else Total(ps, n - 1) + 4 + |ps[n - 1].value|
  }

  lemma {:induction false} ListLength(ps: seq<Parameter>, order: ByteOrder, n: nat)
    requires n <= |ps|
    ensures |EncodeList(ps, order, n)| == Total(ps, n)
  {
    hide EncodeParameter;
    if n > 0 {
      ListLength(ps, order, n - 1);
    }
  }

  lemma {:induction false} TotalAppend(a: seq<Parameter>, b: seq<Parameter>, m: nat)
    requires m <= |b|
    ensures Total(a + b, |a| + m) == Total(a, |a|) + Total(b, m)
  {
    if m > 0 {
      TotalAppend(a, b, m - 1);
      assert (a + b)[|a| + m - 1] == b[m - 1];
    } else {
      TotalPrefix(a, b, |a|);
    }
  }

  lemma {:induction false} TotalPrefix(a: seq<Parameter>, b: seq<Parameter>, n: nat)
    requires n <= |a|
    ensures Total(a + b, n) == Total(a, n)
  {
    if n > 0 {
      TotalPrefix(a, b, n - 1);
    }
  }
}
