/**
 64-bit words as the dictionary uses them: masks of low bits, bucket numbers, and bit reversal.
 Most lemmas are facts about bit vectors that the solver decides one at a time.
 */
module Bits64 {

  function Pow2(k: nat): (p: nat)
    ensures p >= 1
  {
    if k == 0 then 1 else 2 * Pow2(k - 1)
  }

  lemma {:induction false} Pow2Grows(j: nat, k: nat)
    requires j <= k
    ensures Pow2(j) <= Pow2(k) && Pow2(k) == Pow2(j) * Pow2(k - j)
    decreases k
  {
    if j < k {
      Pow2Grows(j, k - 1);
    }
  }

  /** The word whose `k` low bits are set: the sizemask of a table of 2^k buckets. */
  function Mask(k: nat): bv64 {
    if k == 0 then 0 else (Mask(k - 1) << 1) | 1
  }

  /** `v & Mask(k)` as a number: the bucket of `v` in a table of 2^k buckets. */
  function Bucket(v: bv64, k: nat): (n: nat)
    ensures n < Pow2(k)
    decreases k
  {
    if k == 0 then 0 else 2 * Bucket(Half(v), k - 1) + Bit(LowBit(v))
  }

  lemma {:induction false} BucketPeel(v: bv64, k: nat)
    ensures k == 0 ==> Bucket(v, k) == 0 && Pow2(k) == 1
    ensures k > 0 ==> Bucket(v, k) == 2 * Bucket(Half(v), k - 1) + Bit(LowBit(v)) && Pow2(k) == 2 * Pow2(k - 1)
    ensures Bucket(v, k) < Pow2(k) && Bit(LowBit(v)) <= 1
  {
  }

  function Half(v: bv64): bv64 { v >> 1 }

  function LowBit(v: bv64): bv64 { v & 1 }

  function Bit(p: bv64): (n: nat)
    ensures n <= 1
  {
    if p == 1 then 1 else 0
  }

  /** The top bit is clear, so that another low bit can be added. */
  predicate Fits(x: bv64) { x >> 63 == 0 }

  predicate IsMask(m: bv64) { m & (m + 1) == 0 }

  /** Tables have at most 2^31 buckets. */
  const MAX_EXP := 31

  lemma LargestMask()
    ensures Mask(31) == 0x7FFF_FFFF
  {
    assert Mask(8) == 0xFF;
    assert Mask(16) == 0xFFFF;
    assert Mask(24) == 0xFF_FFFF;
  }

  lemma {:induction false} MasksNest(j: nat, k: nat)
    requires j <= k
    ensures Mask(j) & Mask(k) == Mask(j)
    decreases k
  {
    if j > 0 {
      MasksNest(j - 1, k - 1);
      NestStep(Mask(j - 1), Mask(k - 1));
    }
  }

  lemma {:induction false} NestStep(a: bv64, b: bv64)
    requires a & b == a
    ensures ((a << 1) | 1) & ((b << 1) | 1) == (a << 1) | 1
  {
  }

  lemma {:induction false} MaskRoom(k: nat)
    requires k <= MAX_EXP
    ensures Fits(Mask(k))
  {
    MasksNest(k, MAX_EXP);
    LargestMask();
    SmallWord(Mask(k));
  }

  lemma {:induction false} SmallWord(a: bv64)
    requires a & 0x7FFF_FFFF == a
    ensures Fits(a)
  {
  }

  lemma {:induction false} MaskIsMask(k: nat)
    requires k <= MAX_EXP
    ensures IsMask(Mask(k))
  {
    if k > 0 {
      MaskIsMask(k - 1);
      MaskRoom(k - 1);
      MaskDoubles(Mask(k - 1));
    }
  }

  lemma {:induction false} MaskDoubles(b: bv64)
    requires Fits(b) && IsMask(b)
    ensures IsMask((b << 1) | 1)
  {
  }

  // ----- Buckets and masked words -----

  /** A word with one more low bit. */
  function Join(x: bv64, p: bv64): bv64 { (x << 1) | p }

  function And(a: bv64, b: bv64): bv64 { a & b }

  predicate Less(a: bv64, b: bv64) { a < b }

  /** A word under a mask that fits in 63 bits, with its low bit split off. */
  lemma {:induction false} BitPeel(a: bv64, b: bv64)
    requires Fits(b)
    ensures And(a, Join(b, 1)) == Join(And(Half(a), b), LowBit(a))
    ensures Fits(And(Half(a), b)) && LowBit(a) <= 1
  {
  }

  lemma {:induction false} JoinEqual(x: bv64, y: bv64, p: bv64, q: bv64)
    requires Fits(x) && Fits(y) && p <= 1 && q <= 1
    ensures Join(x, p) == Join(y, q) <==> x == y && p == q
  {
  }

  lemma {:induction false} JoinHigh(x: bv64, y: bv64, p: bv64, q: bv64)
    requires Fits(x) && Fits(y) && p <= 1 && q <= 1 && Less(x, y)
    ensures Less(Join(x, p), Join(y, q))
  {
  }

  lemma {:induction false} JoinLow(x: bv64, p: bv64, q: bv64)
    requires Fits(x) && p <= 1 && q <= 1 && Less(p, q)
    ensures Less(Join(x, p), Join(x, q))
  {
  }

  lemma {:induction false} BitOrder(p: bv64, q: bv64)
    requires p <= 1 && q <= 1
    ensures p == q <==> Bit(p) == Bit(q)
    ensures Bit(p) < Bit(q) ==> Less(p, q)
  {
  }

  lemma {:induction false} PeelMask(a: bv64, k: nat)
    requires 1 <= k <= MAX_EXP
    ensures And(a, Mask(k)) == Join(And(Half(a), Mask(k - 1)), LowBit(a))
    ensures Fits(And(Half(a), Mask(k - 1))) && LowBit(a) <= 1
  {
    hide And, Fits;
    MaskRoom(k - 1);
    assert Mask(k) == Join(Mask(k - 1), 1);
    BitPeel(a, Mask(k - 1));
  }

  /** Two words fall into the same bucket exactly when they agree under the mask. */
  lemma {:induction false} SameBucket(a: bv64, b: bv64, k: nat)
    requires k <= MAX_EXP
    ensures Bucket(a, k) == Bucket(b, k) <==> And(a, Mask(k)) == And(b, Mask(k))
    decreases k
  {
    hide Join, And, Mask, Fits, Half, LowBit, Bit, Bucket;
    BucketPeel(a, k);
    BucketPeel(b, k);
    if k > 0 {
      PeelMask(a, k);
      PeelMask(b, k);
      SameBucket(Half(a), Half(b), k - 1);
      BitOrder(LowBit(a), LowBit(b));
      JoinEqual(And(Half(a), Mask(k - 1)), And(Half(b), Mask(k - 1)), LowBit(a), LowBit(b));
    } else {
      NoMask(a);
      NoMask(b);
    }
  }

  lemma {:induction false} NoMask(a: bv64)
    ensures And(a, Mask(0)) == 0
  {
  }

  /** A masked word is below another one when its bucket is. */
  lemma {:induction false} BucketOrder(a: bv64, b: bv64, k: nat)
    requires k <= MAX_EXP && Bucket(a, k) < Bucket(b, k)
    ensures Less(And(a, Mask(k)), And(b, Mask(k)))
    decreases k
  {
    hide Join, And, Mask, Fits, Half, LowBit, Bit, Less, Bucket;
    BucketPeel(a, k);
    BucketPeel(b, k);
    PeelMask(a, k);
    PeelMask(b, k);
    var x, y := And(Half(a), Mask(k - 1)), And(Half(b), Mask(k - 1));
    if Bucket(Half(a), k - 1) < Bucket(Half(b), k - 1) {
      BucketOrder(Half(a), Half(b), k - 1);
      JoinHigh(x, y, LowBit(a), LowBit(b));
    } else {
      SameBucket(Half(a), Half(b), k - 1);
      BitOrder(LowBit(a), LowBit(b));
      JoinLow(x, LowBit(a), LowBit(b));
    }
  }
}
