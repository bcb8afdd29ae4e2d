/**
 SequenceNumberSet: up to 256 consecutive sequence numbers, one bit each, packed
 most significant bit first into eight 32-bit words.
 */
module SequenceSet {
  import opened Bytes

  const MAXIMUM_BITS := 256
  const MAXIMUM_WORDS := 8

  /** The value of a set: bit `i` says whether `base + i` is a member. */
  datatype NumberSet = NumberSet(base: nat, bits: seq<bool>)

  predicate ValidSequenceNumber(s: nat)
  {
    s != 0 && s <= INT64_MAX
  }

  /** What `reset` accepts: every member is a signed 64-bit sequence number. */
  predicate Representable(base: nat, numBits: nat)
  {
    ValidSequenceNumber(base) && numBits <= MAXIMUM_BITS &&
    (numBits != 0 ==> base <= INT64_MAX - (numBits - 1))
  }

  /** A set is representable exactly when it has at most 256 members and its base and members are sequence numbers. */
  lemma RepresentableMembers(base: nat, numBits: nat)
    ensures Representable(base, numBits)
       <==> && numBits <= 256 && ValidSequenceNumber(base)
            && forall k :: base <= k < base + numBits ==> ValidSequenceNumber(k)
  {
    if numBits != 0 && base + numBits - 1 > INT64_MAX {
      assert !ValidSequenceNumber(base + numBits - 1);
    }
  }

  function Pow2(n: nat): (p: nat)
    ensures p > 0
  {
    if n == 0 then 1 else 2 * Pow2(n - 1)
  }

  /** The low `n` bits of a word, most significant first. */
  function BitsOf(w: nat, n: nat): (b: seq<bool>)
    ensures |b| == n
  {
    if n == 0 then [] else BitsOf(w / 2, n - 1) + [w % 2 == 1]
  }

  function WordOf(b: seq<bool>): (w: nat)
  {
    if b == [] then 0 else 2 * WordOf(b[..|b| - 1]) + (if b[|b| - 1] then 1 else 0)
  }

  lemma {:induction false} WordOfBound(b: seq<bool>)
    ensures WordOf(b) < Pow2(|b|)
  {
    if b != [] { WordOfBound(b[..|b| - 1]); }
  }

  lemma {:induction false} BitsOfWordOf(b: seq<bool>)
    ensures BitsOf(WordOf(b), |b|) == b
  {
    if b != [] {
      BitsOfWordOf(b[..|b| - 1]);
      assert b == b[..|b| - 1] + [b[|b| - 1]];
    }
  }

  lemma {:induction false} WordOfBitsOf(w: nat, n: nat)
    requires w < Pow2(n)
    ensures WordOf(BitsOf(w, n)) == w
  {
    if n > 0 {
      WordOfBitsOf(w / 2, n - 1);
      assert BitsOf(w, n)[..n - 1] == BitsOf(w / 2, n - 1);
    }
  }

  /** `word & (1 << place)`, for a place counted from the least significant bit. */
  predicate TestBit(w: nat, place: nat)
  {
    (w / Pow2(place)) % 2 == 1
  }

  /** `word | (1 << place)`. */
  function SetBit(w: nat, place: nat): (r: nat)
  {
    if TestBit(w, place) then w else w + Pow2(place)
  }

  lemma HalfThenDivide(w: nat, p: nat)
    requires p > 0
    ensures (w / 2) / p == w / (2 * p)
  {
    var q, r := w / (2 * p), w % (2 * p);
    var a, c := r / 2, r % 2;
    assert w == 2 * (p * q + a) + c;
    assert w / 2 == p * q + a;
    DivUnique(p * q + a, p, q, a);
  }

  lemma {:induction false} TestBitIsBit(w: nat, n: nat, k: nat)
    requires k < n
    ensures BitsOf(w, n)[k] == TestBit(w, n - 1 - k)
  {
    if k < n - 1 {
      TestBitIsBit(w / 2, n - 1, k);
      HalfThenDivide(w, Pow2(n - 2 - k));
    }
  }

  lemma {:induction false} AddPowerSetsBit(w: nat, n: nat, k: nat)
    requires k < n && !BitsOf(w, n)[k]
    ensures BitsOf(w + Pow2(n - 1 - k), n) == BitsOf(w, n)[k := true]
  {
    if k == n - 1 {
      assert w % 2 == 0 && (w + 1) / 2 == w / 2;
    } else {
      var p := Pow2(n - 2 - k);
      assert BitsOf(w, n)[k] == BitsOf(w / 2, n - 1)[k];
      AddPowerSetsBit(w / 2, n - 1, k);
      assert (w + 2 * p) / 2 == w / 2 + p && (w + 2 * p) % 2 == w % 2;
    }
  }

  /** Setting a bit changes that bit and no other. */
  lemma SetBitBits(w: nat, n: nat, k: nat)
    requires k < n
    ensures BitsOf(SetBit(w, n - 1 - k), n) == BitsOf(w, n)[k := true]
  {
    TestBitIsBit(w, n, k);
    if !TestBit(w, n - 1 - k) {
      AddPowerSetsBit(w, n, k);
    }
  }

  lemma {:induction false} BitsOfZero(n: nat)
    ensures BitsOf(0, n) == seq(n, _ => false)
  {
    if n > 0 { BitsOfZero(n - 1); }
  }

  /** A word whose set bit still fits keeps fitting. */
  lemma SetBitBound(w: nat, n: nat, k: nat)
    requires k < n && w < Pow2(n)
    ensures SetBit(w, n - 1 - k) < Pow2(n)
  {
    if !TestBit(w, n - 1 - k) {
      TestBitIsBit(w, n, k);
      AddBound(w, n, k);
    }
  }

  lemma {:induction false} AddBound(w: nat, n: nat, k: nat)
    requires k < n && w < Pow2(n) && !BitsOf(w, n)[k]
    ensures w + Pow2(n - 1 - k) < Pow2(n)
  {
    if k < n - 1 {
      assert BitsOf(w, n)[k] == BitsOf(w / 2, n - 1)[k];
      AddBound(w / 2, n - 1, k);
    }
  }

  lemma Pow2Of32()
    ensures Pow2(32) == 0x1_0000_0000
  {
    assert Pow2(4) == 16;
    assert Pow2(8) == 256;
    assert Pow2(12) == 0x1000;
    assert Pow2(16) == 0x1_0000;
    assert Pow2(20) == 0x10_0000;
    assert Pow2(24) == 0x100_0000;
    assert Pow2(28) == 0x1000_0000;
  }

  /** Bit `k` of a run of words. */
  predicate MemberBit(words: seq<nat>, k: nat)
    requires k / 32 < |words|
  {
    BitsOf(words[k / 32], 32)[k % 32]
  }

  /** The first `n` bits of a run of words. */
  function MemberBits(words: seq<nat>, n: nat): (b: seq<bool>)
    requires n <= 32 * |words|
    ensures |b| == n
    ensures forall k :: 0 <= k < n ==> b[k] == MemberBit(words, k)
  {
    seq(n, k requires 0 <= k < n => MemberBit(words, k))
  }

  /** Eight 32-bit words that hold nothing beyond their first `n` bits. */
  ghost predicate Packed(words: seq<nat>, n: nat)
  {
    && |words| == MAXIMUM_WORDS
    && (forall i :: 0 <= i < |words| ==> words[i] < Pow2(32))
    && (forall k :: n <= k < MAXIMUM_BITS ==> !MemberBit(words, k))
  }

  function WithMember(words: seq<nat>, offset: nat): (r: seq<nat>)
    requires offset / 32 < |words|
  {
    words[offset / 32 := SetBit(words[offset / 32], 31 - offset % 32)]
  }

  lemma SetMemberBit(words: seq<nat>, offset: nat, k: nat)
    requires offset / 32 < |words| && k / 32 < |words|
    ensures MemberBit(WithMember(words, offset), k) == (k == offset || MemberBit(words, k))
  {
    SetBitBits(words[offset / 32], 32, offset % 32);
    assert k / 32 == offset / 32 && k % 32 == offset % 32 ==> k == offset;
  }

  /** Setting a member changes that member and no other. */
  lemma SetMember(words: seq<nat>, n: nat, offset: nat)
    requires Packed(words, n) && offset < n <= MAXIMUM_BITS
    ensures Packed(WithMember(words, offset), n)
    ensures MemberBits(WithMember(words, offset), n) == MemberBits(words, n)[offset := true]
  {
    var after := WithMember(words, offset);
    forall k | 0 <= k < MAXIMUM_BITS
      ensures MemberBit(after, k) == (k == offset || MemberBit(words, k))
    {
      SetMemberBit(words, offset, k);
    }
    SetBitBound(words[offset / 32], 32, offset % 32);
  }

  lemma ClearWords(words: seq<nat>, n: nat)
    requires |words| == MAXIMUM_WORDS && n <= MAXIMUM_BITS
    requires forall i :: 0 <= i < |words| ==> words[i] == 0
    ensures Packed(words, 0) && Packed(words, n)
    ensures MemberBits(words, n) == seq(n, _ => false)
  {
    BitsOfZero(32);
    assert forall k :: 0 <= k < MAXIMUM_BITS ==> !MemberBit(words, k);
  }

  function WordCount(n: nat): (w: nat)
  {
    (n + 31) / 32
  }

  /** As many words as the bits need, and no more. */
  lemma WordCountIsLeast(n: nat)
    ensures n <= 32 * WordCount(n) < n + 32
  {}

  /** Word `i` of a packed run of bits; what lies beyond the run is zero. */
  function WordAt(bits: seq<bool>, i: nat): (w: nat)
  {
    WordOf(Padded(bits, i))
  }

  function Padded(bits: seq<bool>, i: nat): (b: seq<bool>)
    ensures |b| == 32
  {
    seq(32, j => 32 * i + j < |bits| && j >= 0 && bits[32 * i + j])
  }

  lemma WordAtBound(bits: seq<bool>, i: nat)
    ensures WordAt(bits, i) < 0x1_0000_0000
  {
    WordOfBound(Padded(bits, i));
    Pow2Of32();
  }

  /** Unpacking a packed word gives back its bits. */
  lemma WordAtBits(bits: seq<bool>, k: nat)
    requires k < |bits|
    ensures BitsOf(WordAt(bits, k / 32), 32)[k % 32] == bits[k]
  {
    BitsOfWordOf(Padded(bits, k / 32));
    assert 32 * (k / 32) + k % 32 == k;
  }

  /** The words of a packed set are the packing of its members. */
  lemma PackedWord(words: seq<nat>, n: nat, i: nat)
    requires Packed(words, n) && n <= MAXIMUM_BITS && i < MAXIMUM_WORDS
    ensures words[i] == WordAt(MemberBits(words, n), i)
  {
    var bits := MemberBits(words, n);
    forall j: nat | j < 32 ensures BitsOf(words[i], 32)[j] == Padded(bits, i)[j] {
      assert (32 * i + j) / 32 == i && (32 * i + j) % 32 == j;
      assert MemberBit(words, 32 * i + j) == BitsOf(words[i], 32)[j];
    }
    assert BitsOf(words[i], 32) == Padded(bits, i);
    WordOfBitsOf(words[i], 32);
  }

  class SequenceNumberSet {
    var bitmapBase: nat
    var numBits: nat
    const bitmap: array<nat>

    ghost predicate Valid()
      reads this, bitmap
    {
      Representable(bitmapBase, numBits) && Packed(bitmap[..], numBits)
    }

    ghost function View(): (v: NumberSet)
      requires Valid()
      reads this, bitmap
    {
      NumberSet(bitmapBase, MemberBits(bitmap[..], numBits))
    }

    constructor ()
      ensures Valid() && fresh(bitmap)
      ensures View() == NumberSet(1, [])
    {
      bitmapBase, numBits := 1, 0;
      bitmap := new nat[MAXIMUM_WORDS](_ => 0);
      new;
      ClearWords(bitmap[..], 0);
    }

    method Reset(base: nat, bits: nat) returns (ok: bool)
      requires Valid()
      modifies this, bitmap
      ensures Valid()
      ensures ok <==> Representable(base, bits)
      ensures View() == if ok then NumberSet(base, seq(bits, _ => false)) else old(View())
    {
      if !ValidSequenceNumber(base) || bits > MAXIMUM_BITS {
        return false;
      }
      if bits != 0 && base > INT64_MAX - (bits - 1) {
        return false;
      }
      bitmapBase, numBits := base, bits;
      forall i | 0 <= i < bitmap.Length { bitmap[i] := 0; }
      ClearWords(bitmap[..], bits);
      return true;
    }

    method Set(offset: nat) returns (ok: bool)
      requires Valid()
      modifies bitmap
      ensures Valid()
      ensures ok <==> offset < old(|View().bits|)
      ensures View() == if ok then old(View()).(bits := old(View()).bits[offset := true]) else old(View())
    {
      if offset >= numBits {
        return false;
      }
      SetMember(bitmap[..], numBits, offset);
      var wordIndex, bitIndex := offset / 32, offset % 32;
      bitmap[wordIndex] := SetBit(bitmap[wordIndex], 31 - bitIndex);
      assert bitmap[..] == WithMember(old(bitmap[..]), offset);
      return true;
    }

    method Test(offset: nat) returns (member: bool)
      requires Valid()
      ensures member == (offset < |View().bits| && View().bits[offset])
    {
      if offset >= numBits {
        return false;
      }
      TestBitIsBit(bitmap[offset / 32], 32, offset % 32);
      return TestBit(bitmap[offset / 32], 31 - offset % 32);
    }

    /** Word `index` of the bitmap; zero past the last word in use. */
    method Word(index: nat) returns (w: nat)
      requires Valid()
      ensures w == if index < WordCount(|View().bits|) then WordAt(View().bits, index) else 0
    {
      if index < WordCount(numBits) {
        PackedWord(bitmap[..], numBits, index);
        return bitmap[index];
      }
      return 0;
    }

    /** The set by value, as a message carries it. */
    method Copy() returns (v: NumberSet)
      requires Valid()
      ensures v == View()
    {
      var bits := seq(numBits, k requires 0 <= k < numBits && Valid() reads this, bitmap =>
                                 TestBit(bitmap[k / 32], 31 - k % 32));
      forall k | 0 <= k < numBits ensures bits[k] == MemberBit(bitmap[..], k) {
        TestBitIsBit(bitmap[k / 32], 32, k % 32);
      }
      v := NumberSet(bitmapBase, bits);
    }
  }
}
