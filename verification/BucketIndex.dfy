/** Unsigned 64-bit words, and the bucket index of the radix heap: sixty-four minus the leading
    zeroes of an exclusive or. The proofs about the heap work with an equivalent reading of
    that number, the least number of halvings after which two words agree. */
module BucketIndex {

  const TWO_TO_THE_64: int := 0x1_0000_0000_0000_0000
  const NUM_BITS: nat := 64
  const NUM_BUCKETS: nat := NUM_BITS + 1

  type uint64 = x: int | 0 <= x < TWO_TO_THE_64

  const MAX: uint64 := TWO_TO_THE_64 - 1

  function Min(a: uint64, b: uint64): uint64 { if a <= b then a else b }

  // ---------- the operators the source uses ----------

  /** Bitwise exclusive or. */
  function Xor(a: nat, b: nat): nat
    decreases a + b
  {
    if a == 0 && b == 0 then 0
    else 2 * Xor(a / 2, b / 2) + (if a % 2 == b % 2 then 0 else 1)
  }

  /** Right shift by `k` bits. */
  function Shr(v: nat, k: nat): nat
    decreases k
  {
    if k == 0 then v else Shr(v / 2, k - 1)
  }

  /** How many of the low `width` bits of `x`, read from the top one down, come before the first one bit. */
  function LeadingZeroes(x: nat, width: nat): (n: nat)
    ensures n <= width
  {
    if width == 0 || Shr(x, width - 1) % 2 == 1 then 0 else 1 + LeadingZeroes(x, width - 1)
  }

  function CountlZero(x: nat): nat { LeadingZeroes(x, NUM_BITS) }

  /** The bucket in which the heap files `val` while `minVal` is at its head. */
  function GetBucketIndex(minVal: uint64, val: uint64): (index: nat)
    ensures index < NUM_BUCKETS
  {
    NUM_BITS - CountlZero(Xor(val, minVal))
  }

  // ---------- exclusive or is the machine's ----------

  function Half(x: bv64): bv64 { x >> 1 }

  function LowBit(x: bv64): nat { if x & 1 == 1 then 1 else 0 }

  predicate IsXor(a: bv64, b: bv64, c: bv64) { c == a ^ b }

  /** The number that the low `n` bits of a machine word stand for. */
  ghost function Value(x: bv64, n: nat): nat
    decreases n
  {
    if n == 0 then 0 else 2 * Value(Half(x), n - 1) + LowBit(x)
  }

  lemma XorHalf(a: bv64, b: bv64)
    ensures (a ^ b) >> 1 == (a >> 1) ^ (b >> 1)
  {}

  lemma XorLowBitSame(a: bv64, b: bv64)
    requires a & 1 == b & 1
    ensures (a ^ b) & 1 == 0
  {}

  lemma XorLowBitDiffers(a: bv64, b: bv64)
    requires a & 1 != b & 1
    ensures (a ^ b) & 1 == 1
  {}

  lemma LowBitIsBit(a: bv64)
    ensures a & 1 == 0 || a & 1 == 1
  {}

  lemma XorLowBit(a: bv64, b: bv64)
    ensures LowBit(a ^ b) == if LowBit(a) == LowBit(b) then 0 else 1
  {
    LowBitIsBit(a);
    LowBitIsBit(b);
    if a & 1 == b & 1 { XorLowBitSame(a, b); } else { XorLowBitDiffers(a, b); }
  }

  lemma IsXorHalf(a: bv64, b: bv64, c: bv64)
    requires IsXor(a, b, c)
    ensures IsXor(Half(a), Half(b), Half(c))
    ensures LowBit(c) == if LowBit(a) == LowBit(b) then 0 else 1
  {
    XorHalf(a, b);
    XorLowBit(a, b);
  }

  lemma XorStep(x: nat, y: nat, i: nat, j: nat)
    requires i < 2 && j < 2
    ensures Xor(2 * x + i, 2 * y + j) == 2 * Xor(x, y) + (if i == j then 0 else 1)
  {}

  /** `Xor` on numbers is the machine's exclusive or on the words that stand for them. */
  lemma {:induction false} XorIsMachineXor(a: bv64, b: bv64, c: bv64, n: nat)
    requires IsXor(a, b, c)
    ensures Value(c, n) == Xor(Value(a, n), Value(b, n))
    decreases n
  {
    if n != 0 {
      IsXorHalf(a, b, c);
      XorIsMachineXor(Half(a), Half(b), Half(c), n - 1);
      XorStep(Value(Half(a), n - 1), Value(Half(b), n - 1), LowBit(a), LowBit(b));
    }
  }

  // ---------- the same index by halving ----------

  /** The number of halvings after which `m` and `v` become equal. */
  function Distance(m: nat, v: nat): nat
    decreases m + v
  {
    if m == v then 0 else 1 + Distance(m / 2, v / 2)
  }

  /** `Distance(m, v)` is the least shift at which `m` and `v` agree, and they agree at every larger one. */
  lemma {:induction false} AgreeFromDistance(m: nat, v: nat, k: nat)
    ensures Shr(m, k) == Shr(v, k) <==> Distance(m, v) <= k
    decreases k
  {
    if k != 0 && m != v {
      AgreeFromDistance(m / 2, v / 2, k - 1);
    }
  }

  lemma {:induction false} ShrXor(a: nat, b: nat, k: nat)
    ensures Shr(Xor(a, b), k) == Xor(Shr(a, k), Shr(b, k))
    decreases k
  {
    if k != 0 {
      assert Xor(a, b) / 2 == Xor(a / 2, b / 2);
      ShrXor(a / 2, b / 2, k - 1);
    }
  }

  lemma {:induction false} XorZero(a: nat, b: nat)
    ensures Xor(a, b) == 0 <==> a == b
    decreases a + b
  {
    if a != 0 || b != 0 {
      XorZero(a / 2, b / 2);
    }
  }

  lemma {:induction false} ShrStep(x: nat, k: nat)
    ensures Shr(x, k + 1) == Shr(x, k) / 2
    decreases k
  {
    if k != 0 { ShrStep(x / 2, k - 1); }
  }

  /** When the bits of `x` from `width` up are zero, `width - LeadingZeroes(x, width)` is the least
      shift that leaves nothing of `x`. */
  lemma {:induction false} LeadingZeroesLeast(x: nat, width: nat, k: nat)
    requires Shr(x, width) == 0
    ensures Shr(x, k) == 0 <==> width - LeadingZeroes(x, width) <= k
    decreases width
  {
    if width == 0 {
      ShrOfZero(k);
    } else {
      ShrStep(x, width - 1);
      if Shr(x, width - 1) % 2 == 1 {
        if k < width { ShrZeroUp(x, k, width - 1); } else { ShrZeroUp(x, width, k); }
      } else {
        LeadingZeroesLeast(x, width - 1, k);
      }
    }
  }

  lemma {:induction false} ShrOfZero(k: nat)
    ensures Shr(0, k) == 0
  {
    if k != 0 { ShrOfZero(k - 1); }
  }

  lemma {:induction false} ShrZeroUp(x: nat, j: nat, k: nat)
    requires j <= k
    ensures Shr(x, j) == 0 ==> Shr(x, k) == 0
    decreases k - j
  {
    if j < k {
      ShrStep(x, j);
      ShrZeroUp(x, j + 1, k);
    }
  }

  function Pow2(k: nat): nat { if k == 0 then 1 else 2 * Pow2(k - 1) }

  /** Shifting right is dividing by a power of two. */
  lemma {:induction false} ShrDivides(v: nat, k: nat)
    ensures Shr(v, k) * Pow2(k) <= v < (Shr(v, k) + 1) * Pow2(k)
    decreases k
  {
    if k != 0 {
      ShrDivides(v / 2, k - 1);
      Doubling(Shr(v / 2, k - 1), Pow2(k - 1));
    }
  }

  lemma Doubling(q: nat, p: nat)
    ensures q * (2 * p) == 2 * (q * p) && (q + 1) * (2 * p) == 2 * ((q + 1) * p)
  {}

  lemma {:induction false} Pow2Sum(j: nat, k: nat)
    ensures Pow2(j + k) == Pow2(j) * Pow2(k)
  {
    if j != 0 {
      Pow2Sum(j - 1, k);
      assert Pow2(j + k) == 2 * Pow2(j - 1 + k);
    }
  }

  lemma Pow2Of64()
    ensures Pow2(NUM_BITS) == TWO_TO_THE_64
  {
    assert Pow2(8) == 256;
    Pow2Sum(8, 8);
    Pow2Sum(16, 16);
    Pow2Sum(32, 32);
  }

  lemma {:induction false} ShrBelowPow2(x: nat, k: nat)
    requires x < Pow2(k)
    ensures Shr(x, k) == 0
    decreases k
  {
    if k != 0 { ShrBelowPow2(x / 2, k - 1); }
  }

  lemma IndexCompares(m: uint64, v: uint64, k: nat)
    ensures GetBucketIndex(m, v) <= k <==> Distance(m, v) <= k
  {
    var x := Xor(v, m);
    Pow2Of64();
    ShrBelowPow2(m, NUM_BITS);
    ShrBelowPow2(v, NUM_BITS);
    ShrXor(v, m, NUM_BITS);
    LeadingZeroesLeast(x, NUM_BITS, k);
    ShrXor(v, m, k);
    XorZero(Shr(v, k), Shr(m, k));
    AgreeFromDistance(m, v, k);
  }

  /** The bridge: what the source computes from the exclusive or is the halving distance. */
  lemma IndexIsDistance(m: uint64, v: uint64)
    ensures GetBucketIndex(m, v) == Distance(m, v)
  {
    IndexCompares(m, v, Distance(m, v));
    IndexCompares(m, v, GetBucketIndex(m, v));
  }

  predicate AgreeAfter(m: nat, v: nat, k: nat) { Shr(m, k) == Shr(v, k) }

  /** Sixty-four minus the leading zeroes of the exclusive or is the least shift at which the two
      words agree, and they agree at every larger one. */
  lemma IndexIsLeastAgreement(m: uint64, v: uint64, k: nat)
    ensures AgreeAfter(m, v, k) <==> GetBucketIndex(m, v) <= k
  {
    IndexIsDistance(m, v);
    AgreeFromDistance(m, v, k);
  }

  lemma IndexZeroIff(m: uint64, v: uint64)
    ensures GetBucketIndex(m, v) == 0 <==> m == v
  {
    IndexIsDistance(m, v);
  }

  // ---------- the laws the heap relies on ----------

  lemma {:induction false} DistanceSymmetric(m: nat, v: nat)
    ensures Distance(m, v) == Distance(v, m)
    decreases m + v
  {
    if m != v { DistanceSymmetric(m / 2, v / 2); }
  }

  lemma {:induction false} DistanceUltrametric(m: nat, w: nat, v: nat)
    ensures Distance(m, v) <= Distance(m, w) || Distance(m, v) <= Distance(w, v)
    decreases m + w + v
  {
    if m != v && m != w && w != v { DistanceUltrametric(m / 2, w / 2, v / 2); }
  }

  lemma {:induction false} DistanceMonotone(m: nat, v: nat, w: nat)
    requires m <= v <= w
    ensures Distance(m, v) <= Distance(m, w)
    decreases m + v + w
  {
    if m != v { DistanceMonotone(m / 2, v / 2, w / 2); }
  }

  /** Two words equally far from `m`, but not equal to it, are strictly closer to each other. */
  lemma {:induction false} DistanceShrinks(m: nat, v: nat, w: nat)
    requires Distance(m, v) == Distance(m, w) != 0
    ensures Distance(v, w) < Distance(m, v)
    decreases m + v + w
  {
    if v != w { DistanceShrinks(m / 2, v / 2, w / 2); }
  }

  /** Bucket indices form an ultrametric. */
  lemma IndexUltrametric(m: uint64, w: uint64, v: uint64)
    ensures GetBucketIndex(m, v) == GetBucketIndex(v, m)
    ensures GetBucketIndex(m, v) <= GetBucketIndex(m, w) || GetBucketIndex(m, v) <= GetBucketIndex(w, v)
  {
    IndexIsDistance(m, v); IndexIsDistance(v, m);
    IndexIsDistance(m, w); IndexIsDistance(w, v);
    DistanceSymmetric(m, v);
    DistanceUltrametric(m, w, v);
  }

  /** Above the head, a larger value never has a smaller index. */
  lemma IndexMonotone(m: uint64, v: uint64, w: uint64)
    requires m <= v <= w
    ensures GetBucketIndex(m, v) <= GetBucketIndex(m, w)
  {
    IndexIsDistance(m, v); IndexIsDistance(m, w);
    DistanceMonotone(m, v, w);
  }

  /** Inside one bucket other than the first, every index relative to a member is strictly smaller. */
  lemma IndexShrinks(m: uint64, v: uint64, w: uint64)
    requires GetBucketIndex(m, v) == GetBucketIndex(m, w) != 0
    ensures GetBucketIndex(v, w) < GetBucketIndex(m, v)
  {
    IndexIsDistance(m, v); IndexIsDistance(m, w); IndexIsDistance(v, w);
    DistanceShrinks(m, v, w);
  }

  /** Moving the head to `v` leaves the index of everything farther away unchanged. */
  lemma IndexStable(m: uint64, v: uint64, w: uint64)
    requires GetBucketIndex(m, v) < GetBucketIndex(m, w)
    ensures GetBucketIndex(v, w) == GetBucketIndex(m, w)
  {
    IndexUltrametric(m, v, w);
    IndexUltrametric(v, m, w);
    IndexUltrametric(m, v, v);
  }
}
