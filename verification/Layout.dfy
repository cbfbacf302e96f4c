/** Section sizes and offsets of the shared segment (src/core/irt_shm.h).
 *
 * The C functions compute in uint32_t and size_t; the 32-bit wrap of every
 * offset is written out with `Wrap`, so that "no offset wraps" is a theorem
 * about the formulas and not an assumption about the types.
 */
module Layout {
  import opened Common

  const HEADER_SIZE: nat := 128
  const POINT_SIZE: nat := 128
  const SLOT_SIZE: nat := 8
  const META_SIZE: nat := 32
  const SUBSCRIBER_SIZE: nat := 16

  /** The conversion of a wider unsigned value to uint32_t. */
  function Wrap(x: nat): u32 {
    x % U32_RANGE
  }

  // ---- Powers of two and masking ----

  function Pow2(k: nat): (p: nat)
    ensures p >= 1
  {
    if k == 0 then 1 else 2 * Pow2(k - 1)
  }

  ghost predicate IsPow2(n: nat) {
    exists k: nat :: n == Pow2(k)
  }

  lemma {:induction false} Pow2Monotone(j: nat, k: nat)
    requires j <= k
    ensures Pow2(j) <= Pow2(k)
    ensures j < k ==> 2 * Pow2(j) <= Pow2(k)
    decreases k
  {
    if j < k {
      Pow2Monotone(j, k - 1);
    }
  }

  /** Bitwise "and" of two naturals, digit by digit. */
  function BitAnd(a: nat, b: nat): nat {
    if a == 0 || b == 0 then 0
    else (if a % 2 == 1 && b % 2 == 1 then 1 else 0) + 2 * BitAnd(a / 2, b / 2)
  }

  /** `x & (cap - 1)` is the remainder modulo `cap` when `cap` is a power of two. */
  lemma {:induction false} MaskIsRemainder(x: nat, k: nat)
    ensures BitAnd(x, Pow2(k) - 1) == x % Pow2(k)
    decreases k
  {
    if k == 0 {
      RemainderUnique(x, 1, x, 0);
    } else {
      MaskIsRemainder(x / 2, k - 1);
      BitAndOdd(x, Pow2(k - 1) - 1);
      HalfRemainder(x, Pow2(k - 1), Pow2(k), BitAnd(x / 2, Pow2(k - 1) - 1));
    }
  }

  lemma BitAndOdd(x: nat, m: nat)
    ensures BitAnd(x, 2 * m + 1) == x % 2 + 2 * BitAnd(x / 2, m)
  {
    assert (2 * m + 1) / 2 == m && (2 * m + 1) % 2 == 1;
  }

  lemma HalfRemainder(x: nat, p: nat, m: nat, r: nat)
    requires p >= 1 && m == 2 * p && r == (x / 2) % p
    ensures x % m == x % 2 + 2 * r
  {
    var h := x / 2;
    var q := h / p;
    assert h == q * p + r;
    assert x == m * q + (x % 2 + 2 * r);
    RemainderUnique(x, m, q, x % 2 + 2 * r);
  }

  lemma RemainderUnique(x: nat, m: nat, q: nat, r: nat)
    requires 0 <= r < m && x == m * q + r
    ensures x % m == r
  {
    var q', r' := x / m, x % m;
    assert m * q' + r' == m * q + r;
    if q < q' {
      MulGap(m, q, q');
      assert false;
    } else if q > q' {
      MulGap(m, q', q);
      assert false;
    }
  }

  lemma MulGap(m: nat, a: nat, b: nat)
    requires a < b
    ensures m * a + m <= m * b
  {
    assert m * b == m * (a + 1) + m * (b - a - 1);
  }

  // ---- Bucket count ----

  /** The value the doubling loop of irt_layout_buckets ends with, started at cap. */
  function Doubled(cap: nat, want: nat): nat
    requires cap >= 1
    decreases 0x8000_0000 - cap
  {
    if cap < want && cap <= 0x4000_0000 then Doubled(2 * cap, want) else cap
  }

  function Buckets(maxPoints: u32): nat {
    Doubled(8, 2 * maxPoints)
  }

  method LayoutBuckets(maxPoints: u32) returns (cap: u32)
    ensures cap == Buckets(maxPoints)
  {
    var want: nat := 2 * maxPoints;
    cap := 8;
    while cap < want && cap <= 0x4000_0000
      invariant 8 <= cap <= 0x8000_0000
      invariant Doubled(cap, want) == Buckets(maxPoints)
      decreases 0x8000_0000 - cap
    {
      cap := 2 * cap;
    }
  }

  lemma {:induction false} DoubledLeast(j: nat, want: nat)
    requires Pow2(j) <= 0x8000_0000
    ensures var r := Doubled(Pow2(j), want);
            && IsPow2(r) && Pow2(j) <= r <= 0x8000_0000
            && (want <= r || r == 0x8000_0000)
            && (forall k: nat :: j <= k && want <= Pow2(k) ==> r <= Pow2(k))
    decreases 0x8000_0000 - Pow2(j)
  {
    Pow2At31();
    var cap := Pow2(j);
    if cap < want && cap <= 0x4000_0000 {
      assert Pow2(j + 1) == 2 * cap;
      DoubledLeast(j + 1, want);
      forall k: nat | j <= k && want <= Pow2(k)
        ensures Doubled(cap, want) <= Pow2(k)
      {
        assert j != k;
      }
    } else {
      if cap < want {
        CapIs31(j);
      }
      forall k: nat | j <= k && want <= Pow2(k)
        ensures Doubled(cap, want) <= Pow2(k)
      {
        Pow2Monotone(j, k);
      }
    }
  }

  lemma Pow2At31()
    ensures Pow2(3) == 8 && Pow2(30) == 0x4000_0000 && Pow2(31) == 0x8000_0000
  {
    assert Pow2(10) == 1024;
    assert Pow2(20) == 1024 * 1024;
  }

  lemma CapIs31(j: nat)
    requires 0x4000_0000 < Pow2(j) <= 0x8000_0000
    ensures Pow2(j) == 0x8000_0000
  {
    Pow2At31();
    if j < 31 {
      Pow2Monotone(j, 30);
    } else if j > 31 {
      Pow2Monotone(31, j);
    }
  }

  /** For every 32-bit max_points the bucket count is a power of two and the
   *  least one that is at least max(8, 2 * max_points), except that it stops
   *  at 2^31; it exceeds max_points exactly when max_points < 2^31. */
  lemma BucketsLeastPowerOfTwo(maxPoints: u32)
    ensures var cap := Buckets(maxPoints);
            && IsPow2(cap) && 8 <= cap <= 0x8000_0000
            && (forall k: nat :: 8 <= Pow2(k) && 2 * maxPoints <= Pow2(k) ==> cap <= Pow2(k))
            && (2 * maxPoints <= cap || cap == 0x8000_0000)
            && (2 * maxPoints <= cap <==> maxPoints <= 0x4000_0000)
            && (maxPoints < cap <==> maxPoints < 0x8000_0000)
  {
    Pow2At31();
    DoubledLeast(3, 2 * maxPoints);
    forall k: nat | 8 <= Pow2(k) && 2 * maxPoints <= Pow2(k)
      ensures Buckets(maxPoints) <= Pow2(k)
    {
      if k < 3 {
        Pow2Monotone(k, 2);
        assert false;
      }
    }
  }

  // ---- Offsets, as the code computes them ----

  function IndexSize(maxPoints: u32): nat {
    Buckets(maxPoints) * SLOT_SIZE
  }

  function OffPoints(): u32 {
    HEADER_SIZE
  }

  function OffIndex(maxPoints: u32): u32 {
    Wrap(OffPoints() + Wrap(maxPoints * POINT_SIZE))
  }

  function OffMeta(maxPoints: u32): u32 {
    Wrap(OffIndex(maxPoints) + Wrap(IndexSize(maxPoints)))
  }

  function OffSubs(maxPoints: u32): u32 {
    Wrap(OffMeta(maxPoints) + Wrap(maxPoints * META_SIZE))
  }

  function TotalSize(maxPoints: u32, maxSubscribers: u32): nat {
    HEADER_SIZE + maxPoints * POINT_SIZE + IndexSize(maxPoints)
    + maxPoints * META_SIZE + maxSubscribers * SUBSCRIBER_SIZE
  }

  /** The five sections lie one after another, each starting where the one
   *  before it ends, and the last ends at the total size. */
  ghost predicate Adjacent(maxPoints: u32) {
    && OffPoints() == 128
    && OffIndex(maxPoints) == OffPoints() + maxPoints * 128
    && OffMeta(maxPoints) == OffIndex(maxPoints) + Buckets(maxPoints) * 8
    && OffSubs(maxPoints) == OffMeta(maxPoints) + maxPoints * 32
    && forall m: u32 :: TotalSize(maxPoints, m) == OffSubs(maxPoints) + m * 16
  }

  /** Some 32-bit offset is not the true byte position of its section. */
  ghost predicate SomeOffsetWraps(maxPoints: u32) {
    || OffIndex(maxPoints) != 128 + maxPoints * 128
    || OffMeta(maxPoints) != 128 + maxPoints * 128 + Buckets(maxPoints) * 8
    || OffSubs(maxPoints) != 128 + maxPoints * 128 + Buckets(maxPoints) * 8 + maxPoints * 32
  }

  const LARGEST_UNWRAPPED: u32 := 23_488_101

  lemma BucketsUpTo(maxPoints: u32)
    ensures maxPoints <= 0x200_0000 ==> Buckets(maxPoints) <= 0x400_0000
    ensures maxPoints > 0x100_0000 ==> Buckets(maxPoints) >= 0x400_0000
  {
    BucketsLeastPowerOfTwo(maxPoints);
    assert Pow2(10) == 1024;
    assert Pow2(20) == 1024 * 1024;
    assert Pow2(25) == 0x200_0000 && Pow2(26) == 0x400_0000;
    var cap := Buckets(maxPoints);
    if maxPoints > 0x100_0000 {
      var k: nat :| cap == Pow2(k);
      if k <= 25 {
        Pow2Monotone(k, 25);
        assert false;
      }
      Pow2Monotone(26, k);
    }
  }

  lemma WrapSum(a: nat, b: nat)
    ensures Wrap(Wrap(a) + Wrap(b)) == Wrap(a + b)
  {
  }

  /** Every offset is the true position of its section, reduced to 32 bits. */
  lemma OffsetsAreWrappedPositions(maxPoints: u32)
    ensures OffIndex(maxPoints) == (128 + maxPoints * 128) % 0x1_0000_0000
    ensures OffMeta(maxPoints) == (128 + maxPoints * 128 + Buckets(maxPoints) * 8) % 0x1_0000_0000
    ensures OffSubs(maxPoints) == (128 + maxPoints * 128 + Buckets(maxPoints) * 8 + maxPoints * 32) % 0x1_0000_0000
  {
    var n, x, m := maxPoints * POINT_SIZE, IndexSize(maxPoints), maxPoints * META_SIZE;
    WrapSum(HEADER_SIZE, n);
    WrapSum(HEADER_SIZE + n, x);
    WrapSum(HEADER_SIZE + n + x, m);
  }

  lemma WrapExactIff(x: nat)
    ensures Wrap(x) == x <==> x < U32_RANGE
  {
  }

  lemma FitsIff(maxPoints: u32, cap: nat)
    requires maxPoints <= 0x200_0000 ==> cap <= 0x400_0000
    requires maxPoints > 0x100_0000 ==> cap >= 0x400_0000
    ensures HEADER_SIZE + maxPoints * POINT_SIZE + cap * SLOT_SIZE + maxPoints * META_SIZE < U32_RANGE
            <==> maxPoints <= LARGEST_UNWRAPPED
  {
  }

  lemma ExactPositions(maxPoints: u32)
    requires maxPoints <= LARGEST_UNWRAPPED
    ensures OffIndex(maxPoints) == HEADER_SIZE + maxPoints * POINT_SIZE
    ensures OffMeta(maxPoints) == OffIndex(maxPoints) + IndexSize(maxPoints)
    ensures OffSubs(maxPoints) == OffMeta(maxPoints) + maxPoints * META_SIZE
  {
    BucketsUpTo(maxPoints);
    FitsIff(maxPoints, Buckets(maxPoints));
    OffsetsAreWrappedPositions(maxPoints);
    var n, x, m := maxPoints * POINT_SIZE, IndexSize(maxPoints), maxPoints * META_SIZE;
    WrapExactIff(HEADER_SIZE + n);
    WrapExactIff(HEADER_SIZE + n + x);
    WrapExactIff(HEADER_SIZE + n + x + m);
  }

  lemma SmallNeverWraps(maxPoints: u32)
    requires maxPoints <= LARGEST_UNWRAPPED
    ensures Adjacent(maxPoints) && !SomeOffsetWraps(maxPoints)
  {
    ExactPositions(maxPoints);
  }

  lemma LargeWraps(maxPoints: u32)
    requires maxPoints > LARGEST_UNWRAPPED
    ensures SomeOffsetWraps(maxPoints) && !Adjacent(maxPoints)
  {
    BucketsUpTo(maxPoints);
    FitsIff(maxPoints, Buckets(maxPoints));
    assert OffSubs(maxPoints) < U32_RANGE;
    assert TotalSize(maxPoints, 0) >= U32_RANGE;
  }

  /** The offsets are the true positions, and the sections adjacent and
   *  disjoint, for every max_points up to 23488101 and for no larger one. */
  lemma OffsetsExactIff(maxPoints: u32)
    ensures Adjacent(maxPoints) <==> maxPoints <= 23_488_101
    ensures SomeOffsetWraps(maxPoints) <==> maxPoints > 23_488_101
  {
    if maxPoints <= LARGEST_UNWRAPPED {
      SmallNeverWraps(maxPoints);
    } else {
      LargeWraps(maxPoints);
    }
  }

  /** What the daemon's own limit of one million points gives: exact offsets,
   *  meta entries on 32-byte and subscriber entries on 16-byte boundaries. */
  lemma DaemonLayout(maxPoints: u32)
    requires 1 <= maxPoints <= 1_000_000
    ensures Adjacent(maxPoints)
    ensures 2 * maxPoints <= Buckets(maxPoints)
    ensures OffMeta(maxPoints) % 32 == 0 && OffSubs(maxPoints) % 16 == 0
  {
    OffsetsExactIff(maxPoints);
    BucketsLeastPowerOfTwo(maxPoints);
    BucketsMultipleOf8(maxPoints);
    var j := Buckets(maxPoints) / 8;
    Multiple(OffMeta(maxPoints), 32, 4 + 4 * maxPoints + 2 * j);
    Multiple(OffSubs(maxPoints), 16, 8 + 10 * maxPoints + 4 * j);
  }

  lemma Multiple(x: nat, m: nat, q: nat)
    requires m >= 1 && x == m * q
    ensures x % m == 0
  {
    RemainderUnique(x, m, q, 0);
  }

  lemma BucketsMultipleOf8(maxPoints: u32)
    ensures Buckets(maxPoints) % 8 == 0
  {
    BucketsLeastPowerOfTwo(maxPoints);
    var k: nat :| Buckets(maxPoints) == Pow2(k);
    if k < 3 {
      Pow2Monotone(k, 2);
      assert false;
    }
    assert Pow2(k) == 2 * Pow2(k - 1) && Pow2(k - 1) == 2 * Pow2(k - 2) && Pow2(k - 2) == 2 * Pow2(k - 3);
    Multiple(Buckets(maxPoints), 8, Pow2(k - 3));
  }
}
