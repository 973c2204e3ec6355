/**
 The cursor of dictScan (dict.c): a word that is incremented from its high bits down, by reversing its
 bits, adding one, and reversing again.
 */
module Cursor {
  import opened Bits64

  // ----- Reversing -----

  /** The bits of `v` in reverse order: halves, quarters, ... and finally single bits are exchanged. */
  function Rev(v: bv64): bv64 {
    var v1 := ((v >> 32) & 0x0000_0000_FFFF_FFFF) | ((v << 32) & 0xFFFF_FFFF_0000_0000);
    var v2 := ((v1 >> 16) & 0x0000_FFFF_0000_FFFF) | ((v1 << 16) & 0xFFFF_0000_FFFF_0000);
    var v3 := ((v2 >> 8) & 0x00FF_00FF_00FF_00FF) | ((v2 << 8) & 0xFF00_FF00_FF00_FF00);
    var v4 := ((v3 >> 4) & 0x0F0F_0F0F_0F0F_0F0F) | ((v3 << 4) & 0xF0F0_F0F0_F0F0_F0F0);
    var v5 := ((v4 >> 2) & 0x3333_3333_3333_3333) | ((v4 << 2) & 0xCCCC_CCCC_CCCC_CCCC);
    ((v5 >> 1) & 0x5555_5555_5555_5555) | ((v5 << 1) & 0xAAAA_AAAA_AAAA_AAAA)
  }

  /** rev: the masks of each round are derived from those of the round before. */
  method Reverse(v0: bv64) returns (v: bv64)
    ensures v == Rev(v0)
  {
    v := v0;
    var mask: bv64 := 0xFFFF_FFFF_FFFF_FFFF;
    mask := mask ^ (mask << 32);
    v := ((v >> 32) & mask) | ((v << 32) & !mask);
    mask := mask ^ (mask << 16);
    v := ((v >> 16) & mask) | ((v << 16) & !mask);
    mask := mask ^ (mask << 8);
    v := ((v >> 8) & mask) | ((v << 8) & !mask);
    mask := mask ^ (mask << 4);
    v := ((v >> 4) & mask) | ((v << 4) & !mask);
    mask := mask ^ (mask << 2);
    v := ((v >> 2) & mask) | ((v << 2) & !mask);
    mask := mask ^ (mask << 1);
    v := ((v >> 1) & mask) | ((v << 1) & !mask);
  }

  lemma {:induction false} RevTwice(v: bv64)
    ensures Rev(Rev(v)) == v
  {
  }

  /** Bit `i` of the result is bit 63 - `i` of the argument. */
  lemma {:induction false} RevBits(v: bv64, i: bv64)
    requires i < 64
    ensures (Rev(v) >> i) & 1 == (v >> (63 - i)) & 1
  {
  }

  lemma {:induction false} RevOne()
    ensures Rev(1) == 0x8000_0000_0000_0000 && Rev(0) == 0
  {
  }

  lemma {:induction false} RevOr(a: bv64, b: bv64)
    ensures Rev(a | b) == Rev(a) | Rev(b)
  {
  }

  lemma {:induction false} RevAnd(a: bv64, b: bv64)
    ensures Rev(And(a, b)) == And(Rev(a), Rev(b))
  {
  }

  lemma {:induction false} RevNot(a: bv64)
    ensures Rev(!a) == !Rev(a)
  {
  }

  /** A mask of low bits, reversed, is a mask of high bits. */
  lemma {:induction false} RevMask(m: bv64)
    requires IsMask(m)
    ensures IsMask(!Rev(m))
  {
  }

  // ----- Stepping -----

  function Succ(v: bv64): bv64 { v + 1 }

  function Pred(v: bv64): bv64 { v - 1 }

  function Not(v: bv64): bv64 { !v }

  function Or(a: bv64, b: bv64): bv64 { a | b }

  predicate Leq(a: bv64, b: bv64) { a <= b }

  /** The last word, in reversed order, that has the low bits of `v` under mask `m`. */
  function Last(v: bv64, m: bv64): bv64 { Or(v, Not(m)) }

  /** The cursor that follows `v` when the smaller table has mask `m`. */
  function Next(v: bv64, m: bv64): bv64 { Rev(Succ(Rev(Last(v, m)))) }

  /** dict.c lines 801-808: the unmasked bits are set, and the reversed cursor is incremented. */
  method Advance(v: bv64, m: bv64) returns (v': bv64)
    ensures v' == Next(v, m)
  {
    hide Rev, Or, Not, Succ;
    v' := Or(v, Not(m));
    v' := Reverse(v');
    v' := Succ(v');
    v' := Reverse(v');
  }

  /** Words between a cursor and the last word of its bucket, in reversed order, are in that bucket. */
  lemma {:induction false} Between(v: bv64, h: bv64, m: bv64)
    requires IsMask(m)
    requires Leq(Rev(v), Rev(h)) && And(v, m) != And(h, m)
    ensures Less(Rev(Last(v, m)), Rev(h))
  {
    hide Rev, And, Or, Not, Less, Leq, IsMask;
    LastReversed(v, m);
    RevMask(m);
    RevAnd(v, m);
    RevAnd(h, m);
    RevTwice(And(v, m));
    RevTwice(And(h, m));
    BetweenReversed(Rev(v), Rev(h), Rev(m));
  }

  lemma {:induction false} RevOrNot(a: bv64, b: bv64)
    ensures Rev(Or(a, b)) == Or(Rev(a), Rev(b)) && Rev(Not(a)) == Not(Rev(a))
  {
    hide Rev;
    RevOr(a, b);
    RevNot(a);
  }

  lemma {:induction false} LastReversed(v: bv64, m: bv64)
    ensures Rev(Last(v, m)) == Or(Rev(v), Not(Rev(m)))
  {
    hide Rev, Or, Not;
    RevOrNot(v, Not(m));
    RevOrNot(m, m);
  }

  lemma {:induction false} BetweenReversed(r: bv64, h: bv64, x: bv64)
    requires IsMask(!x) && Leq(r, h) && And(r, x) != And(h, x)
    ensures Less(Or(r, Not(x)), h)
  {
    hide And, Or, Not, Less, Leq, IsMask, Agree;
    if !Less(Or(r, Not(x)), h) {
      NotLess(Or(r, Not(x)), h);
      Squeeze(r, h, x);
      AgreeEqual(r, h, x);
    }
  }

  /** `a` and `b` have the same bits under `x`. */
  predicate Agree(a: bv64, b: bv64, x: bv64) { (a ^ b) & x == 0 }

  lemma {:induction false} Squeeze(r: bv64, h: bv64, x: bv64)
    requires IsMask(!x) && Leq(r, h) && Leq(h, Or(r, Not(x)))
    ensures Agree(r, h, x)
  {
  }

  lemma {:induction false} AgreeEqual(a: bv64, b: bv64, x: bv64)
    requires Agree(a, b, x)
    ensures And(a, x) == And(b, x)
  {
  }

  lemma {:induction false} NotLess(a: bv64, b: bv64)
    requires !Less(a, b)
    ensures Leq(b, a)
  {
  }

  /** Incrementing steps to the next larger word, and not past it. */
  lemma {:induction false} SuccReaches(i: bv64, j: bv64)
    requires Less(i, j)
    ensures Leq(Succ(i), j) && Succ(i) != 0
  {
    hide Leq, Less, Succ, Not;
    SuccComplement(i, j);
    ComplementOrder(Succ(i), j);
  }

  lemma {:induction false} SuccComplement(i: bv64, j: bv64)
    requires Less(i, j)
    ensures Leq(Not(j), Not(Succ(i))) && Succ(i) != 0
  {
  }

  lemma {:induction false} ComplementOrder(i: bv64, j: bv64)
    requires Leq(Not(j), Not(i))
    ensures Leq(i, j)
  {
  }

  // ----- Buckets of the larger table -----

  /**
   While two tables are in use, a call visits the buckets of the larger one that continue the cursor's
   bucket of the smaller one, from the cursor's own upwards. It misses none that it should visit when
   the cursor has, above the smaller mask, only ones followed by only zeros.
   */
  predicate Aligned(v: bv64, m0: bv64, m1: bv64) {
    var w := Or(And(v, m1), m0);
    And(w, Succ(w)) == 0
  }

  /** With an aligned cursor, the buckets left out lie before it in reversed order. */
  lemma {:induction false} AlignedOrder(v: bv64, h: bv64, m0: bv64, m1: bv64)
    requires IsMask(m0) && IsMask(m1) && And(m0, m1) == m0 && Aligned(v, m0, m1)
    requires And(h, m0) == And(v, m0) && Less(And(h, m1), And(v, m1))
    ensures Less(Rev(h), Rev(v))
  {
    hide Rev, Less, And, Or, IsMask, Succ;
    MaskTwice(h, m0, m1);
    MaskTwice(v, m0, m1);
    AlignedSubset(And(v, m1), And(h, m1), m0);
    LessDiffers(And(h, m1), And(v, m1));
    RevAnd(h, m1);
    RevAnd(v, m1);
    RevMask(m1);
    RevAnd(And(h, m1), And(v, m1));
    RevTwice(And(h, m1));
    RevTwice(And(v, m1));
    SubsetOrder(Rev(h), Rev(v), Rev(m1));
  }

  lemma {:induction false} MaskTwice(h: bv64, m0: bv64, m1: bv64)
    requires And(m0, m1) == m0
    ensures And(And(h, m1), m0) == And(h, m0)
  {
  }

  lemma {:induction false} AlignedSubset(v: bv64, h: bv64, m0: bv64)
    requires IsMask(m0) && And(Or(v, m0), Succ(Or(v, m0))) == 0
    requires And(h, m0) == And(v, m0) && Less(h, v)
    ensures And(h, v) == h
  {
  }

  lemma {:induction false} LessDiffers(h: bv64, v: bv64)
    requires Less(h, v)
    ensures h != v
  {
  }

  lemma {:induction false} SubsetOrder(h: bv64, v: bv64, x: bv64)
    requires IsMask(!x)
    requires And(And(h, x), And(v, x)) == And(h, x) && And(h, x) != And(v, x)
    ensures Less(h, v)
  {
  }

  /** The lowest bit that is clear in `w`. */
  function FirstZero(w: bv64): bv64 { And(Succ(w), Not(w)) }

  /** With a cursor that is not aligned, this word is left out although it lies after the cursor. */
  function Missed(v: bv64, m0: bv64, m1: bv64): bv64 {
    var z := FirstZero(Or(And(v, m1), m0));
    Or(And(v, Pred(z)), z)
  }

  lemma {:induction false} MissedWord(v: bv64, m0: bv64, m1: bv64)
    requires IsMask(m0) && IsMask(m1) && And(m0, m1) == m0 && !Aligned(v, m0, m1)
    ensures And(Missed(v, m0, m1), m0) == And(v, m0)
    ensures Less(Rev(v), Rev(Missed(v, m0, m1)))
    ensures Less(And(Missed(v, m0, m1), m1), And(v, m1))
  {
    hide Rev, Less, And, Or, IsMask, Succ, Pred, Not, FirstZero;
    var x := And(v, m1);
    var w := Or(x, m0);
    var z := FirstZero(w);
    MaskIdempotent(v, m1);
    ZeroIsOneBit(w);
    ZeroIsInside(x, m0, m1, w);
    ZeroIsClear(v, m0, m1, w);
    ZeroIsAbove(x, m0, w);
    OneLies(x, m0, w);
    SetAbove(v, z, Pred(z), m0);
    SetLater(v, z);
    MissedMasked(v, z, Pred(z), m1);
    ReplaceAbove(x, z);
  }

  lemma {:induction false} MaskIdempotent(v: bv64, m: bv64)
    ensures And(And(v, m), m) == And(v, m)
  {
  }

  lemma {:induction false} ZeroIsOneBit(w: bv64)
    requires And(w, Succ(w)) != 0
    ensures And(FirstZero(w), Pred(FirstZero(w))) == 0 && FirstZero(w) != 0
  {
  }

  lemma {:induction false} ZeroIsInside(x: bv64, m0: bv64, m1: bv64, w: bv64)
    requires IsMask(m1) && And(m0, m1) == m0 && And(x, m1) == x
    requires w == Or(x, m0) && And(w, Succ(w)) != 0
    ensures And(FirstZero(w), m1) == FirstZero(w)
  {
  }

  lemma {:induction false} ZeroIsClear(v: bv64, m0: bv64, m1: bv64, w: bv64)
    requires IsMask(m1) && And(m0, m1) == m0
    requires w == Or(And(v, m1), m0) && And(w, Succ(w)) != 0
    ensures And(v, FirstZero(w)) == 0
  {
  }

  lemma {:induction false} ZeroIsAbove(x: bv64, m0: bv64, w: bv64)
    requires IsMask(m0) && w == Or(x, m0) && And(w, Succ(w)) != 0
    ensures And(m0, Pred(FirstZero(w))) == m0 && And(FirstZero(w), m0) == 0
  {
  }

  lemma {:induction false} OneLies(x: bv64, m0: bv64, w: bv64)
    requires IsMask(m0) && w == Or(x, m0) && And(w, Succ(w)) != 0
    ensures And(And(x, Not(Pred(FirstZero(w)))), Not(FirstZero(w))) != 0
  {
  }

  lemma {:induction false} SetAbove(v: bv64, z: bv64, u: bv64, m0: bv64)
    requires And(m0, u) == m0 && And(z, m0) == 0
    ensures And(Or(And(v, u), z), m0) == And(v, m0)
  {
  }

  lemma {:induction false} SetLater(v: bv64, z: bv64)
    requires And(z, Pred(z)) == 0 && z != 0 && And(v, z) == 0
    ensures Less(Rev(v), Rev(Or(And(v, Pred(z)), z)))
  {
    hide Rev, And, Or, Less, Pred, Not;
    RevOrNot(And(v, Pred(z)), z);
    RevAnd(v, Pred(z));
    RevPred(z);
    RevOneBit(z);
    RevAnd(v, z);
    RevOne();
    SetReversed(Rev(v), Rev(z));
  }

  lemma {:induction false} RevPred(z: bv64)
    requires And(z, Pred(z)) == 0 && z != 0
    ensures Rev(Pred(z)) == Not(Or(Pred(Rev(z)), Rev(z)))
  {
  }

  lemma {:induction false} RevOneBit(z: bv64)
    requires And(z, Pred(z)) == 0 && z != 0
    ensures And(Rev(z), Pred(Rev(z))) == 0 && Rev(z) != 0
  {
  }

  lemma {:induction false} SetReversed(v: bv64, z: bv64)
    requires And(z, Pred(z)) == 0 && z != 0 && And(v, z) == 0
    ensures Less(v, Or(And(v, Not(Or(Pred(z), z))), z))
  {
  }

  lemma {:induction false} ReplaceAbove(x: bv64, z: bv64)
    requires And(z, Pred(z)) == 0 && And(And(x, Not(Pred(z))), Not(z)) != 0
    ensures Less(Or(And(x, Pred(z)), z), x)
  {
  }

  /** Every bit of `a` is a bit of `b`. */
  predicate Within(a: bv64, b: bv64) { a & !b == 0 }

  lemma {:induction false} Included(a: bv64, b: bv64)
    requires Within(a, b) && Within(b, a)
    ensures a == b
  {
  }

  lemma {:induction false} MissedMasked(v: bv64, z: bv64, u: bv64, m1: bv64)
    requires And(z, m1) == z
    ensures And(Or(And(v, u), z), m1) == Or(And(And(v, m1), u), z)
  {
    hide And, Or, Within;
    MissedMaskedLeft(v, z, u, m1);
    MissedMaskedRight(v, z, u, m1);
    Included(And(Or(And(v, u), z), m1), Or(And(And(v, m1), u), z));
  }

  lemma {:induction false} MissedMaskedLeft(v: bv64, z: bv64, u: bv64, m1: bv64)
    requires And(z, m1) == z
    ensures Within(And(Or(And(v, u), z), m1), Or(And(And(v, m1), u), z))
  {
  }

  lemma {:induction false} MissedMaskedRight(v: bv64, z: bv64, u: bv64, m1: bv64)
    requires And(z, m1) == z
    ensures Within(Or(And(And(v, m1), u), z), And(Or(And(v, u), z), m1))
  {
  }

  /** A cursor without bits above the smaller mask is aligned. */
  lemma {:induction false} LowIsAligned(v: bv64, m0: bv64, m1: bv64)
    requires IsMask(m0) && And(v, Not(m0)) == 0
    ensures Aligned(v, m0, m1)
  {
    hide And, Or, Not, Succ, IsMask;
    LowAbsorbed(v, m0, m1);
    MaskSucc(m0);
  }

  lemma {:induction false} LowAbsorbed(v: bv64, m0: bv64, m1: bv64)
    requires And(v, Not(m0)) == 0
    ensures Or(And(v, m1), m0) == m0
  {
  }

  lemma {:induction false} MaskSucc(m: bv64)
    requires IsMask(m)
    ensures And(m, Succ(m)) == 0
  {
  }

  /** With one table every cursor is aligned. */
  lemma {:induction false} SingleIsAligned(v: bv64, m: bv64)
    requires IsMask(m)
    ensures Aligned(v, m, m)
  {
  }

  /** The next cursor has no bits above the mask it was computed with. */
  lemma {:induction false} NextIsLow(v: bv64, m: bv64)
    requires IsMask(m)
    ensures And(Next(v, m), Not(m)) == 0
  {
    hide Rev, And, Or, Not, Succ, IsMask;
    var x := Succ(Rev(Last(v, m)));
    LastReversed(v, m);
    RevMask(m);
    SuccClears(Rev(v), Rev(m));
    RevAnd(x, Not(Rev(m)));
    RevOrNot(Rev(m), m);
    RevTwice(m);
    RevOne();
  }

  lemma {:induction false} SuccClears(r: bv64, x: bv64)
    requires IsMask(!x)
    ensures And(Succ(Or(r, Not(x))), Not(x)) == 0
  {
  }

  lemma {:induction false} LowUnderLarger(v: bv64, m: bv64, m': bv64)
    requires And(v, Not(m)) == 0 && And(m, m') == m
    ensures And(v, Not(m')) == 0
  {
  }
}
