/**
 The wrap-around counts that order HEARTBEAT and ACKNACK messages: signed
 32-bit values whose bit patterns are compared by serial-number arithmetic.
 */
module SerialCount {
  import opened Bytes

  type i32 = x: int | -0x8000_0000 <= x < 0x8000_0000

  const MODULUS := 0x1_0000_0000
  const HALF := 0x8000_0000

  function Bits(count: i32): (b: u32)
  {
    if count < 0 then count + MODULUS else count
  }

  function FromBits(b: u32): (count: i32)
  {
    if b < HALF then b else b - MODULUS
  }

  /** The 32-bit difference of two bit patterns. */
  function Difference(a: i32, b: i32): (d: u32)
  {
    var d := Bits(a) - Bits(b);
    if d < 0 then d + MODULUS else d
  }

  predicate IsNewer(candidate: i32, reference: i32)
  {
    0 < Difference(candidate, reference) < HALF
  }

  function Next(count: i32): (r: i32)
  {
    FromBits(if Bits(count) == MODULUS - 1 then 0 else Bits(count) + 1)
  }

  /** The count after `n` messages. */
  function After(count: i32, n: nat): (r: i32)
  {
    if n == 0 then count else Next(After(count, n - 1))
  }

  lemma BitsInverse(count: i32, b: u32)
    ensures FromBits(Bits(count)) == count
    ensures Bits(FromBits(b)) == b
  {}

  /** Adding to a 32-bit value wraps at most once per remainder. */
  lemma WrappedSum(b: int, n: int)
    requires 0 <= b < 0x1_0000_0000 && 0 <= n
    ensures (b + n) % 0x1_0000_0000 == b + n % 0x1_0000_0000 ||
            (b + n) % 0x1_0000_0000 == b + n % 0x1_0000_0000 - 0x1_0000_0000
  {
    var q, r := n / 0x1_0000_0000, n % 0x1_0000_0000;
    assert b + n == 0x1_0000_0000 * q + (b + r);
  }

  lemma {:induction false} AfterBits(count: i32, n: nat)
    ensures Bits(After(count, n)) == (Bits(count) + n) % 0x1_0000_0000
  {
    if n > 0 {
      AfterBits(count, n - 1);
      WrappedSum(1, Bits(count) + n - 1);
      BitsInverse(0, (Bits(count) + n) % 0x1_0000_0000);
    }
  }

  /** A later count is recognised as newer exactly when it is less than half the circle ahead. */
  lemma NewerIffHalfCircle(count: i32, n: nat)
    ensures IsNewer(After(count, n), count) <==> 0 < n % 0x1_0000_0000 < HALF
  {
    AfterBits(count, n);
    WrappedSum(Bits(count), n);
  }

  lemma {:induction false} AfterAfter(count: i32, m: nat, n: nat)
    ensures After(After(count, m), n) == After(count, m + n)
  {
    if n > 0 {
      AfterAfter(count, m, n - 1);
    }
  }

  /** Between two counts of one sender, the later is newer and the earlier is stale. */
  lemma LaterIsNewer(count: i32, m: nat, n: nat)
    requires m < n < m + HALF
    ensures IsNewer(After(count, n), After(count, m))
    ensures !IsNewer(After(count, m), After(count, n))
  {
    var earlier, gap := After(count, m), n - m;
    assert After(count, n) == After(earlier, gap) by { AfterAfter(count, m, gap); }
    assert IsNewer(After(earlier, gap), earlier) by {
      assert gap % 0x1_0000_0000 == gap;
      NewerIffHalfCircle(earlier, gap);
    }
    Trichotomy(After(earlier, gap), earlier);
  }

  /** Never both newer; one of the two unless they are equal or exactly half the circle apart. */
  lemma Trichotomy(a: i32, b: i32)
    ensures !(IsNewer(a, b) && IsNewer(b, a))
    ensures !IsNewer(a, b) && !IsNewer(b, a)
            <==> a == b || Difference(a, b) == HALF
  {}

  /** Newer is not an order: three counts can each be newer than the one before, in a circle. */
  lemma NewerIsNotTransitive()
    ensures exists a: i32, b: i32, c: i32 :: IsNewer(b, a) && IsNewer(c, b) && IsNewer(a, c)
  {
    assert IsNewer(0x6000_0000, 0) && IsNewer(-0x4000_0000, 0x6000_0000) && IsNewer(0, -0x4000_0000);
  }
}
