/**
 dictScan (dict.c): iterating without any state but a cursor, over a dictionary that may be resized
 and rehashed between the calls.
 */
module DictScan {
  import opened Bits64
  import opened Cursor
  import opened Dict
  import opened Wrappers

  // ----- Walking the larger table -----

  /** The increment of line 795 of dict.c: it carries into the bits above the mask. */
  function Carry(v: bv64, m0: bv64): bv64 { (v | m0) + 1 }

  /** Line 795 of dict.c: the bits above the smaller mask are counted up by one. */
  function Expand(v: bv64, m0: bv64): bv64 {
    Or(And(Carry(v, m0), Not(m0)), And(v, m0))
  }

  function Double(x: bv64): bv64 { x << 1 }

  lemma {:induction false} CarryDoubles(v: bv64, m: bv64)
    requires m >> 63 == 0
    ensures Carry(v, (m << 1) | 1) == Double(Carry(v >> 1, m))
  {
  }

  lemma {:induction false} DoubleIsJoin(x: bv64)
    ensures Double(x) == Join(x, 0)
  {
  }

  lemma {:induction false} CarryPeel(v: bv64, m: bv64)
    requires Fits(m)
    ensures Carry(v, Join(m, 1)) == Join(Carry(Half(v), m), 0)
  {
    hide Carry, Double;
    CarryDoubles(v, m);
    DoubleIsJoin(Carry(Half(v), m));
  }

  lemma {:induction false} ClearPeel(x: bv64, m: bv64)
    requires Fits(m)
    ensures And(Join(x, 0), Not(Join(m, 1))) == Join(And(x, Not(m)), 0)
  {
  }

  lemma {:induction false} OrPeelLeft(x: bv64, y: bv64, p: bv64)
    ensures Within(Or(Join(x, 0), Join(y, p)), Join(Or(x, y), p))
  {
  }

  lemma {:induction false} OrPeelRight(x: bv64, y: bv64, p: bv64)
    ensures Within(Join(Or(x, y), p), Or(Join(x, 0), Join(y, p)))
  {
  }

  lemma {:induction false} ExpandPeel(v: bv64, m: bv64)
    requires Fits(m)
    ensures Expand(v, Join(m, 1)) == Join(Expand(Half(v), m), LowBit(v))
  {
    hide And, Or, Not, Join, Carry, Fits, Within, Half, LowBit;
    var x, y := And(Carry(Half(v), m), Not(m)), And(Half(v), m);
    CarryPeel(v, m);
    ClearPeel(Carry(Half(v), m), m);
    BitPeel(v, m);
    OrPeelLeft(x, y, LowBit(v));
    OrPeelRight(x, y, LowBit(v));
    Included(Or(Join(x, 0), Join(y, LowBit(v))), Join(Or(x, y), LowBit(v)));
  }

  lemma {:induction false} SuccOdd(v: bv64)
    requires LowBit(v) == 1
    ensures Succ(v) == Double(Succ(Half(v)))
  {
  }

  lemma {:induction false} SuccEven(v: bv64)
    requires LowBit(v) == 0
    ensures Succ(v) == Join(Half(v), 1)
  {
  }

  lemma {:induction false} JoinParts(x: bv64, p: bv64)
    requires p <= 1
    ensures LowBit(Join(x, p)) == p && Half(Join(x, p)) == x & 0x7FFF_FFFF_FFFF_FFFF
  {
  }

  lemma {:induction false} BucketIgnoresTop(x: bv64, k: nat)
    requires k <= MAX_EXP
    ensures Bucket(x & 0x7FFF_FFFF_FFFF_FFFF, k) == Bucket(x, k)
  {
    MaskRoom(k);
    TopUnderMask(x, Mask(k));
    SameBucket(x & 0x7FFF_FFFF_FFFF_FFFF, x, k);
  }

  lemma {:induction false} TopUnderMask(x: bv64, m: bv64)
    requires Fits(m)
    ensures And(x & 0x7FFF_FFFF_FFFF_FFFF, m) == And(x, m)
  {
  }

  lemma {:induction false} BucketJoin(x: bv64, p: bv64, k: nat)
    requires 1 <= k <= MAX_EXP && p <= 1
    ensures Bucket(Join(x, p), k) == 2 * Bucket(x, k - 1) + Bit(p)
  {
    hide Join, Half, LowBit, Bit, Bucket;
    BucketPeel(Join(x, p), k);
    JoinParts(x, p);
    BucketIgnoresTop(x, k - 1);
  }

  lemma {:induction false} ExpandBit(v: bv64, k0: nat, k: nat)
    requires 1 <= k0 <= k <= MAX_EXP
    ensures Bucket(Expand(v, Mask(k0)), k)
         == 2 * Bucket(Expand(Half(v), Mask(k0 - 1)), k - 1) + Bit(LowBit(v))
  {
    hide Expand, Join, Mask, Fits, Bucket, Half, LowBit, Bit;
    MaskRoom(k0 - 1);
    MaskJoin(k0);
    ExpandPeel(v, Mask(k0 - 1));
    OneBit(v);
    BucketJoin(Expand(Half(v), Mask(k0 - 1)), LowBit(v), k);
  }

  /** Counting up steps to the next bucket of the larger table that continues the same smaller one. */
  lemma {:induction false} ExpandBucket(v: bv64, k0: nat, k1: nat)
    requires k0 <= k1 <= MAX_EXP
    ensures var b := Bucket(v, k1) + Pow2(k0);
            Bucket(Expand(v, Mask(k0)), k1) == if b < Pow2(k1) then b else Bucket(v, k0)
    ensures Bucket(Expand(v, Mask(k0)), k0) == Bucket(v, k0)
    decreases k1
  {
    hide Expand, Join, Mask, Fits, Half, LowBit, Bit, Bucket, Pow2;
    BucketPeel(v, k0);
    BucketPeel(v, k1);
    if k0 == 0 {
      MaskZero();
      ExpandIsSucc(v);
      SuccBucket(v, k1);
      BucketPeel(Expand(v, 0), 0);
    } else {
      ExpandBit(v, k0, k1);
      ExpandBit(v, k0, k0);
      ExpandBucket(Half(v), k0 - 1, k1 - 1);
    }
  }

  lemma {:induction false} SuccBucket(v: bv64, k: nat)
    requires k <= MAX_EXP
    ensures Bucket(Succ(v), k) == if Bucket(v, k) + 1 < Pow2(k) then Bucket(v, k) + 1 else 0
    decreases k
  {
    hide Join, Succ, Double, Half, LowBit, Bit, Bucket, Pow2;
    BucketPeel(v, k);
    BucketPeel(Succ(v), k);
    if k > 0 {
      OneBit(v);
      SuccBucket(Half(v), k - 1);
      if LowBit(v) == 1 {
        SuccOdd(v);
        DoubleIsJoin(Succ(Half(v)));
        BucketJoin(Succ(Half(v)), 0, k);
      } else {
        SuccEven(v);
        BucketJoin(Half(v), 1, k);
      }
    }
  }

  lemma {:induction false} MaskJoin(k: nat)
    requires k >= 1
    ensures Mask(k) == Join(Mask(k - 1), 1)
  {
  }

  lemma {:induction false} OneBit(v: bv64)
    ensures LowBit(v) <= 1 && (LowBit(v) == 0 || LowBit(v) == 1) && Bit(0) == 0 && Bit(1) == 1
  {
  }

  lemma {:induction false} ExpandIsSucc(v: bv64)
    ensures Expand(v, 0) == Succ(v)
  {
  }

  /** Buckets that continue the same bucket of the smaller table are a table size apart. */
  lemma {:induction false} BucketGap(v: bv64, h: bv64, k0: nat, k1: nat)
    requires k0 <= k1 && Bucket(h, k0) == Bucket(v, k0) && Bucket(h, k1) > Bucket(v, k1)
    ensures Bucket(h, k1) >= Bucket(v, k1) + Pow2(k0)
    decreases k1
  {
    hide Half, LowBit, Bit, Bucket, Pow2;
    BucketPeel(v, k0);
    BucketPeel(v, k1);
    BucketPeel(h, k0);
    BucketPeel(h, k1);
    if k0 > 0 {
      BucketGap(Half(v), Half(h), k0 - 1, k1 - 1);
    }
  }

  /** The two masks agree on all bits of `v`. */
  predicate Agree(v: bv64, a: bv64, b: bv64) { And(v, Xor(a, b)) == 0 }

  /** The loop test of line 798: no bits between the masks. */
  lemma {:induction false} NoBitsBetween(v: bv64, k0: nat, k1: nat)
    requires k0 <= k1 <= MAX_EXP
    ensures Agree(v, Mask(k0), Mask(k1)) <==> Bucket(v, k1) == Bucket(v, k0)
    decreases k1
  {
    hide Agree, Join, Fits, Mask, Half, LowBit, Bit, Bucket;
    if k0 > 0 {
      BucketPeel(v, k0);
      BucketPeel(v, k1);
      NoBitsBetween(Half(v), k0 - 1, k1 - 1);
      AgreePeel(v, k0, k1);
    } else {
      NoBitsAtAll(v, k1);
      BucketPeel(v, 0);
    }
  }

  lemma AgreePeel(v: bv64, k0: nat, k1: nat)
    requires 1 <= k0 <= k1 <= MAX_EXP
    ensures Agree(v, Mask(k0), Mask(k1)) <==> Agree(Half(v), Mask(k0 - 1), Mask(k1 - 1))
  {
    hide Agree, Join, Fits, Mask, Half;
    MaskRoom(k0 - 1);
    MaskRoom(k1 - 1);
    MaskJoin(k0);
    MaskJoin(k1);
    if Agree(v, Mask(k0), Mask(k1)) {
      BetweenPeel(v, Mask(k0 - 1), Mask(k1 - 1));
    }
    if Agree(Half(v), Mask(k0 - 1), Mask(k1 - 1)) {
      BetweenJoin(v, Mask(k0 - 1), Mask(k1 - 1));
    }
  }

  lemma NoBitsAtAll(v: bv64, k: nat)
    requires k <= MAX_EXP
    ensures Agree(v, Mask(0), Mask(k)) <==> Bucket(v, k) == 0
  {
    hide And, Xor, Mask, Bucket;
    SameBucket(v, 0, k);
    ZeroBucket(k);
    NoSmallMask(v, Mask(k));
    MaskZero();
  }

  lemma MaskZero()
    ensures Mask(0) == 0
  {
  }

  function Xor(a: bv64, b: bv64): bv64 { a ^ b }

  lemma {:induction false} BetweenPeel(v: bv64, a: bv64, b: bv64)
    requires Fits(a) && Fits(b)
    requires Agree(v, Join(a, 1), Join(b, 1))
    ensures Agree(Half(v), a, b)
  {
  }

  lemma {:induction false} BetweenJoin(v: bv64, a: bv64, b: bv64)
    requires Fits(a) && Fits(b)
    requires Agree(Half(v), a, b)
    ensures Agree(v, Join(a, 1), Join(b, 1))
  {
  }

  lemma {:induction false} ZeroBucket(k: nat)
    ensures Bucket(0, k) == 0
  {
    if k > 0 {
      assert Half(0) == 0 && LowBit(0) == 0;
      ZeroBucket(k - 1);
    }
  }

  lemma {:induction false} NoSmallMask(v: bv64, m: bv64)
    ensures And(v, Xor(0, m)) == 0 <==> And(v, m) == And(0, m)
  {
  }

  // ----- One call -----

  /** The entries of a chain are those of the map whose keys hash to its bucket. */
  lemma ChainMembers<K(!new), V(!new)>(hash: K -> bv64, t: Table<K, V>, m: map<K, V>, i: nat, e: Entry<K, V>)
    requires t.Table? && Holds(hash, t, m) && i < |t.buckets|
    ensures e in t.buckets[i] <==> e.key in m && m[e.key] == e.val && Bucket(hash(e.key), t.exp) == i
  {
    hide Bucket;
    var chain := t.buckets[i];
    assert ChainOk(hash, t.exp, i, chain);
    BucketBound(hash(e.key), t.exp);
    assert Find(t.buckets[Bucket(hash(e.key), t.exp)], e.key) == Get(m, e.key);
    if e in chain {
      var j :| 0 <= j < |chain| && chain[j] == e;
      FindAt(chain, j);
    } else if e.key in m && Bucket(hash(e.key), t.exp) == i {
      FindNone(chain, e.key);
      var j :| 0 <= j < |chain| && chain[j].key == e.key;
      FindAt(chain, j);
      assert chain[j] in chain;
    }
  }

  lemma ChainDistinct<K(!new), V(!new)>(hash: K -> bv64, t: Table<K, V>, m: map<K, V>, i: nat)
    requires t.Table? && Holds(hash, t, m) && i < |t.buckets|
    ensures Distinct(t.buckets[i])
  {
    hide Bucket;
    assert ChainOk(hash, t.exp, i, t.buckets[i]);
  }

  lemma DistinctAppend<K, V>(a: seq<Entry<K, V>>, b: seq<Entry<K, V>>)
    requires Distinct(a) && Distinct(b) && forall x, y :: x in a && y in b ==> x.key != y.key
    ensures Distinct(a + b)
  {
    var s := a + b;
    forall i, j | 0 <= i < j < |s|
      ensures s[i].key != s[j].key
    {
      if i < |a| <= j {
        assert s[i] in a && s[j] in b;
      }
    }
  }

  /** An entry whose hash is `h` is in the part of the tables that a call with cursor `v` visits. */
  predicate Visits(h: bv64, v: bv64, k0: nat, k1: nat) {
    Bucket(h, k0) == Bucket(v, k0) && Bucket(h, k1) >= Bucket(v, k1)
  }

  /** Visits, from the cursor upwards, the buckets of the larger table that continue its bucket of the smaller. */
  method VisitExpansions<K(==, !new), V(!new)>(hash: K -> bv64, t: Table<K, V>, k0: nat, v: bv64, ghost m: map<K, V>)
    returns (v': bv64, emitted: seq<Entry<K, V>>)
    requires t.Table? && Holds(hash, t, m) && k0 <= t.exp <= MAX_EXP
    ensures Bucket(v', k0) == Bucket(v, k0) && Distinct(emitted)
    ensures forall e :: e in emitted <==> e.key in m && m[e.key] == e.val && Visits(hash(e.key), v, k0, t.exp)
  {
    hide Holds, Bucket, Expand, Mask, And, Xor, Due;
    var k1 := t.exp;
    HoldsShape(hash, t, m);
    v', emitted := v, [];
    BucketBound(v, k1);
    ghost var from := Bucket(v, k1);
    ghost var next := from;
    var more := true;
    forall e
      ensures !Due(hash, t, m, k0, v, next, e)
    {
      NothingDue(hash, t, m, k0, v, e);
    }
    while more
      invariant Bucket(v', k0) == Bucket(v, k0) && from <= next
      invariant more ==> next == Bucket(v', k1) < Pow2(k1)
      invariant !more ==> next >= Pow2(k1)
      invariant Distinct(emitted)
      invariant forall e :: e in emitted <==> Due(hash, t, m, k0, v, next, e)
      decreases if more then Pow2(k1) - next + 1 else 0
    {
      BucketBound(v', k1);
      var chain := t.buckets[Bucket(v', k1)];
      forall e
        ensures e in emitted + chain <==> Due(hash, t, m, k0, v, next + Pow2(k0), e)
      {
        VisitOne(hash, t, m, k0, v, v', e);
      }
      NewKeys(hash, t, m, k0, v, v', emitted);
      emitted := emitted + chain;
      ExpandBucket(v', k0, k1);
      next := next + Pow2(k0);
      v' := Expand(v', Mask(k0));
      NoBitsBetween(v', k0, k1);
      more := And(v', Xor(Mask(k0), Mask(k1))) != 0;
    }
    forall e
      ensures Due(hash, t, m, k0, v, next, e) <==> e.key in m && m[e.key] == e.val && Visits(hash(e.key), v, k0, k1)
    {
      DueInAll(hash, t, m, k0, v, next, e);
    }
  }

  /** The entry `e` belongs to what is visited of `t` from cursor `v` up to bucket `bound`. */
  ghost predicate Due<K(!new), V(!new)>(hash: K -> bv64, t: Table<K, V>, m: map<K, V>, k0: nat, v: bv64, bound: nat,
                        e: Entry<K, V>)
    requires t.Table?
  {
    e.key in m && m[e.key] == e.val && Visits(hash(e.key), v, k0, t.exp) && Bucket(hash(e.key), t.exp) < bound
  }

  /** None of what was visited before is in the next bucket. */
  lemma NewKeys<K(!new), V(!new)>(hash: K -> bv64, t: Table<K, V>, m: map<K, V>, k0: nat, v: bv64, v': bv64,
                  emitted: seq<Entry<K, V>>)
    requires t.Table? && Holds(hash, t, m) && Bucket(v', t.exp) < |t.buckets| && Distinct(emitted)
    requires forall e :: e in emitted <==> Due(hash, t, m, k0, v, Bucket(v', t.exp), e)
    ensures Distinct(emitted + t.buckets[Bucket(v', t.exp)])
  {
    hide Holds, Bucket, Visits, Distinct;
    var chain := t.buckets[Bucket(v', t.exp)];
    ChainDistinct(hash, t, m, Bucket(v', t.exp));
    forall x, y | x in emitted && y in chain
      ensures x.key != y.key
    {
      ChainMembers(hash, t, m, Bucket(v', t.exp), y);
    }
    DistinctAppend(emitted, chain);
  }

  lemma NothingDue<K(!new), V(!new)>(hash: K -> bv64, t: Table<K, V>, m: map<K, V>, k0: nat, v: bv64, e: Entry<K, V>)
    requires t.Table?
    ensures !Due(hash, t, m, k0, v, Bucket(v, t.exp), e)
  {
  }

  lemma DueInAll<K(!new), V(!new)>(hash: K -> bv64, t: Table<K, V>, m: map<K, V>, k0: nat, v: bv64, bound: nat,
                   e: Entry<K, V>)
    requires t.Table? && bound >= Pow2(t.exp)
    ensures Due(hash, t, m, k0, v, bound, e) <==> e.key in m && m[e.key] == e.val && Visits(hash(e.key), v, k0, t.exp)
  {
    BucketBound(hash(e.key), t.exp);
  }

  /** One more bucket: nothing lies between it and the next one. */
  lemma VisitOne<K(!new), V(!new)>(hash: K -> bv64, t: Table<K, V>, m: map<K, V>, k0: nat, v: bv64, v': bv64,
                   e: Entry<K, V>)
    requires t.Table? && Holds(hash, t, m) && k0 <= t.exp <= MAX_EXP && |t.buckets| == Pow2(t.exp)
    requires Bucket(v', k0) == Bucket(v, k0) && Bucket(v, t.exp) <= Bucket(v', t.exp) < Pow2(t.exp)
    ensures Due(hash, t, m, k0, v, Bucket(v', t.exp) + Pow2(k0), e)
       <==> Due(hash, t, m, k0, v, Bucket(v', t.exp), e) || e in t.buckets[Bucket(v', t.exp)]
  {
    hide Holds, Bucket, Visits;
    ChainMembers(hash, t, m, Bucket(v', t.exp), e);
    VisitsUpTo(hash(e.key), v, v', k0, t.exp);
  }

  lemma VisitsUpTo(h: bv64, v: bv64, v': bv64, k0: nat, k1: nat)
    requires k0 <= k1 && Bucket(v', k0) == Bucket(v, k0) && Bucket(v, k1) <= Bucket(v', k1)
    ensures Visits(h, v, k0, k1) && Bucket(h, k1) < Bucket(v', k1) + Pow2(k0)
       <==> (Visits(h, v, k0, k1) && Bucket(h, k1) < Bucket(v', k1)) || Bucket(h, k1) == Bucket(v', k1)
  {
    hide Bucket;
    if Bucket(h, k1) == Bucket(v', k1) {
      LowerBucket(h, v', k0, k1);
    } else if Bucket(h, k0) == Bucket(v, k0) && Bucket(h, k1) > Bucket(v', k1) {
      BucketGap(v', h, k0, k1);
    }
  }

  lemma {:induction false} LowerBucket(h: bv64, v: bv64, k0: nat, k1: nat)
    requires k0 <= k1 && Bucket(h, k1) == Bucket(v, k1)
    ensures Bucket(h, k0) == Bucket(v, k0)
    decreases k1
  {
    hide Half, LowBit, Bit, Bucket, Pow2;
    BucketPeel(v, k0);
    BucketPeel(v, k1);
    BucketPeel(h, k0);
    BucketPeel(h, k1);
    if k0 > 0 {
      LowerBucket(Half(h), Half(v), k0 - 1, k1 - 1);
    }
  }

  /** The exponents of the smaller and of the larger table; without rehashing both are the one there is. */
  function SmallExp<K(!new), V(!new)>(d: Dict<K, V>): nat
    reads d
  {
    if d.ht0.NoTable? then 0
    else if d.ht1.Table? && d.ht0.exp > d.ht1.exp then d.ht1.exp
    else d.ht0.exp
  }

  function LargeExp<K(!new), V(!new)>(d: Dict<K, V>): nat
    reads d
  {
    if d.ht0.NoTable? then 0
    else if d.ht1.Table? && d.ht0.exp <= d.ht1.exp then d.ht1.exp
    else d.ht0.exp
  }

  /** The part of the contents that is in the larger table while two are in use. */
  ghost function LargePart<K(!new), V(!new)>(d: Dict<K, V>): map<K, V>
    reads d
  {
    if d.ht0.Table? && d.ht1.Table? then
      if d.ht0.exp > d.ht1.exp then d.m0 else d.m1
    else map[]
  }

  /** What a call with cursor `v` reports: an entry in the smaller table, or in the larger one. */
  ghost predicate Reported<K(!new), V(!new)>(d: Dict<K, V>, v: bv64, e: Entry<K, V>)
    reads d
  {
    e.key in d.Contents() && d.Contents()[e.key] == e.val
    && if e.key in LargePart(d) then Visits(d.hash(e.key), v, SmallExp(d), LargeExp(d))
       else Bucket(d.hash(e.key), SmallExp(d)) == Bucket(v, SmallExp(d))
  }

  lemma {:induction false} LastSame(a: bv64, b: bv64, m: bv64)
    requires And(a, m) == And(b, m)
    ensures Last(a, m) == Last(b, m)
  {
  }

  /** dictScan. */
  method Scan<K(==, !new), V(!new)>(d: Dict<K, V>, v: bv64) returns (v': bv64, emitted: seq<Entry<K, V>>)
    requires d.Valid()
    ensures d.Contents() == map[] ==> v' == 0 && emitted == []
    ensures d.Contents() != map[] ==>
              && d.ht0.Table? && v' == Next(v, Mask(SmallExp(d)))
              && forall e :: e in emitted <==> Reported(d, v, e)
    ensures forall i, j :: 0 <= i < j < |emitted| ==> emitted[i].key != emitted[j].key
  {
    hide Holds, Bucket, Mask, Visits, Next, Last, And, Reported;
    HoldsShape(d.hash, d.ht0, d.m0);
    HoldsShape(d.hash, d.ht1, d.m1);
    v', emitted := v, [];
    if d.ht0.Used() + d.ht1.Used() == 0 {
      assert d.m0 + d.m1 == map[];
      return 0, [];
    }
    NotEmpty(d);
    if !d.IsRehashing() {
      v', emitted := ScanOne(d.hash, d.ht0, d.m0, v);
    } else if d.ht0.exp > d.ht1.exp {
      v', emitted := ScanTwo(d.hash, d.ht1, d.m1, d.ht0, d.m0, v);
    } else {
      v', emitted := ScanTwo(d.hash, d.ht0, d.m0, d.ht1, d.m1, v);
    }
    forall e
      ensures e in emitted <==> Reported(d, v, e)
    {
      ReportedParts(d, v, e);
    }
  }

  /** In one table the entry is in its bucket, in two it is in the smaller or in the larger part. */
  lemma ReportedParts<K(!new), V(!new)>(d: Dict<K, V>, v: bv64, e: Entry<K, V>)
    requires d.Valid() && d.ht0.Table? && (d.ht1.NoTable? ==> d.m1 == map[])
    ensures var large := LargePart(d);
            var small := if !d.ht1.Table? || d.ht0.exp <= d.ht1.exp then d.m0 else d.m1;
            Reported(d, v, e) <==>
              (e.key in small && small[e.key] == e.val && Bucket(d.hash(e.key), SmallExp(d)) == Bucket(v, SmallExp(d)))
              || (e.key in large && large[e.key] == e.val && Visits(d.hash(e.key), v, SmallExp(d), LargeExp(d)))
  {
    hide Holds, Bucket, Visits;
  }

  /** The branch of dictScan for one table. */
  method ScanOne<K(==, !new), V(!new)>(hash: K -> bv64, t: Table<K, V>, ghost m: map<K, V>, v: bv64)
    returns (v': bv64, emitted: seq<Entry<K, V>>)
    requires t.Table? && Holds(hash, t, m)
    ensures v' == Next(v, Mask(t.exp)) && Distinct(emitted)
    ensures forall e :: e in emitted <==>
              e.key in m && m[e.key] == e.val && Bucket(hash(e.key), t.exp) == Bucket(v, t.exp)
  {
    hide Holds, Bucket, Mask, Next;
    HoldsShape(hash, t, m);
    BucketBound(v, t.exp);
    emitted := t.buckets[Bucket(v, t.exp)];
    ChainDistinct(hash, t, m, Bucket(v, t.exp));
    v' := Advance(v, Mask(t.exp));
    forall e
      ensures e in emitted <==> e.key in m && m[e.key] == e.val && Bucket(hash(e.key), t.exp) == Bucket(v, t.exp)
    {
      ChainMembers(hash, t, m, Bucket(v, t.exp), e);
    }
  }

  lemma NotEmpty<K(!new), V(!new)>(d: Dict<K, V>)
    requires d.Valid() && d.ht0.Used() + d.ht1.Used() != 0
    ensures d.ht0.Table? && d.Contents() != map[] && d.ht0.exp <= MAX_EXP && (d.ht1.Table? ==> d.ht1.exp <= MAX_EXP)
    ensures d.ht1.NoTable? ==> d.m1 == map[]
  {
    var m := if d.ht0.Used() != 0 then d.m0 else d.m1;
    HoldsShape(d.hash, d.ht0, d.m0);
    HoldsShape(d.hash, d.ht1, d.m1);
    assert m != map[];
    var k :| k in m;
    assert k in d.Contents();
  }

  /** The branch of dictScan for two tables. */
  method ScanTwo<K(==, !new), V(!new)>(hash: K -> bv64, t0: Table<K, V>, ghost m0: map<K, V>, t1: Table<K, V>,
                   ghost m1: map<K, V>, v: bv64)
    returns (v': bv64, emitted: seq<Entry<K, V>>)
    requires t0.Table? && t1.Table? && t0.exp <= t1.exp <= MAX_EXP
    requires Holds(hash, t0, m0) && Holds(hash, t1, m1) && m0.Keys !! m1.Keys
    ensures v' == Next(v, Mask(t0.exp)) && Distinct(emitted)
    ensures forall e :: e in emitted <==>
              (e.key in m0 && m0[e.key] == e.val && Bucket(hash(e.key), t0.exp) == Bucket(v, t0.exp))
              || (e.key in m1 && m1[e.key] == e.val && Visits(hash(e.key), v, t0.exp, t1.exp))
  {
    hide Holds, Bucket, Mask, Visits, Next, Last, And;
    HoldsShape(hash, t0, m0);
    BucketBound(v, t0.exp);
    var first := t0.buckets[Bucket(v, t0.exp)];
    var w, more := VisitExpansions(hash, t1, t0.exp, v, m1);
    emitted := first + more;
    v' := Advance(w, Mask(t0.exp));
    SameBucket(w, v, t0.exp);
    LastSame(w, v, Mask(t0.exp));
    NextOfLast(w, v, Mask(t0.exp));
    forall e
      ensures e in first <==> e.key in m0 && m0[e.key] == e.val && Bucket(hash(e.key), t0.exp) == Bucket(v, t0.exp)
    {
      ChainMembers(hash, t0, m0, Bucket(v, t0.exp), e);
    }
    ChainDistinct(hash, t0, m0, Bucket(v, t0.exp));
    DistinctAppend(first, more);
  }

  lemma {:induction false} NextOfLast(a: bv64, b: bv64, m: bv64)
    requires Last(a, m) == Last(b, m)
    ensures Next(a, m) == Next(b, m)
  {
    hide Last, Rev;
  }

  // ----- Whole iterations -----

  /** One call of an iteration: the cursor it was given, and the table sizes it found. */
  datatype Call = Call(v: bv64, k0: nat, k1: nat) {
    predicate Sized() { k0 <= k1 <= MAX_EXP }

    function Result(): bv64 { Next(v, Mask(k0)) }

    /** The call is sure to report every entry that it moves the cursor past. */
    predicate Safe() { Aligned(v, Mask(k0), Mask(k1)) }
  }

  /** Calls from cursor 0, each with the cursor that the last one returned. */
  ghost predicate Chained(calls: seq<Call>) {
    && calls != [] && calls[0].v == 0
    && (forall i :: 0 <= i < |calls| ==> calls[i].Sized())
    && (forall i :: 0 <= i < |calls| - 1 ==> calls[i + 1].v == calls[i].Result() != 0)
  }

  /** The calls of one iteration: from cursor 0 back to cursor 0. */
  ghost predicate Iteration(calls: seq<Call>) {
    Chained(calls) && calls[|calls| - 1].Result() == 0
  }

  /** Some call of the iteration visits hash `h`. */
  ghost predicate Covered(calls: seq<Call>, h: bv64) {
    exists i :: 0 <= i < |calls| && Visits(h, calls[i].v, calls[i].k0, calls[i].k1)
  }

  /** The cursor moves past hash `h`: it lies between the cursor and the end of the cursor's bucket. */
  predicate Passes(c: Call, h: bv64) {
    Leq(Rev(c.v), Rev(h)) && !Less(Rev(Last(c.v, Mask(c.k0))), Rev(h))
  }

  /** A call reports every entry that it passes, wherever it is, exactly when its cursor is aligned. */
  lemma SafeIffNothingMissed(c: Call)
    requires c.Sized()
    ensures c.Safe() <==> forall h :: Passes(c, h) ==> Visits(h, c.v, c.k0, c.k1)
  {
    hide Bucket, Mask, Aligned, Rev, Leq, Less, And, Missed;
    if c.Safe() {
      forall h | Passes(c, h)
        ensures Visits(h, c.v, c.k0, c.k1)
      {
        PassedIsVisited(c, h);
      }
    } else {
      var h := Missed(c.v, Mask(c.k0), Mask(c.k1));
      MissedIsPassed(c);
      assert Passes(c, h) && !Visits(h, c.v, c.k0, c.k1);
    }
  }

  /** The cursor is again in the bucket that it was in, as far as the table of the later call tells. */
  predicate Revisits(c: Call, later: Call) { Bucket(later.v, later.k0) == Bucket(c.v, later.k0) }

  /** The cursor leaves the bucket that it was in for good. */
  lemma {:induction false} LaterIsBeyond(calls: seq<Call>, i: nat, j: nat)
    requires Chained(calls) && i < j < |calls|
    ensures Less(Rev(Last(calls[i].v, Mask(calls[i].k0))), Rev(calls[j].v))
  {
    hide Rev, Less, Mask, Last, Succ;
    var last := Rev(Last(calls[i].v, Mask(calls[i].k0)));
    RevTwice(Succ(last));
    RevOne();
    assert Rev(calls[i].Result()) == Succ(last);
    assert calls[i + 1].v == calls[i].Result() != 0;
    SuccLarger(last);
    if i + 1 < j {
      CursorsGrow(calls, i + 1, j);
      LessLess(last, Rev(calls[i + 1].v), Rev(calls[j].v));
    }
  }

  /** No word of a bucket comes after the last one of the bucket. */
  lemma NotBeyondLast(h: bv64, v: bv64, k: nat)
    requires k <= MAX_EXP && Bucket(h, k) == Bucket(v, k)
    ensures !Less(Rev(Last(v, Mask(k))), Rev(h))
  {
    hide Bucket, Rev, Less, Mask, Last, And;
    SameBucket(h, v, k);
    LastSame(h, v, Mask(k));
    LastIsLast(h, Mask(k));
  }

  /** That takes a table smaller than the smaller one of before. */
  lemma RevisitNeedsSmaller(calls: seq<Call>, i: nat, j: nat)
    requires Chained(calls) && i < j < |calls| && Revisits(calls[i], calls[j])
    ensures calls[j].k0 < calls[i].k0
  {
    hide Bucket, Rev, Less, Mask, Last, Next;
    if calls[j].k0 >= calls[i].k0 {
      LowerBucket(calls[j].v, calls[i].v, calls[i].k0, calls[j].k0);
      LaterIsBeyond(calls, i, j);
      NotBeyondLast(calls[j].v, calls[i].v, calls[i].k0);
    }
  }

  /** What a call that is not safe misses, no other call makes up for, unless it comes back to the bucket. */
  lemma MissedForGood(calls: seq<Call>, i: nat, j: nat)
    requires Chained(calls) && i < |calls| && j < |calls| && !calls[i].Safe()
    requires i < j ==> !Revisits(calls[i], calls[j])
    ensures !Visits(Missed(calls[i].v, Mask(calls[i].k0), Mask(calls[i].k1)), calls[j].v, calls[j].k0, calls[j].k1)
  {
    hide Bucket, Mask, Aligned, Rev, Leq, Less, And, Missed, Last, Next;
    var c, l := calls[i], calls[j];
    var h := Missed(c.v, Mask(c.k0), Mask(c.k1));
    MissedIsPassed(c);
    if i != j && Bucket(h, l.k0) == Bucket(l.v, l.k0) {
      MissedInBucket(c);
      if j < i {
        LaterIsBeyond(calls, j, i);
        LessLess(Rev(Last(l.v, Mask(l.k0))), Rev(c.v), Rev(h));
        NotBeyondLast(h, l.v, l.k0);
      } else if l.k0 <= c.k0 {
        LowerBucket(h, c.v, l.k0, c.k0);
      } else {
        LowerBucket(h, l.v, c.k0, l.k0);
        LaterIsBeyond(calls, i, j);
        NotBeyondLast(l.v, c.v, c.k0);
      }
    }
  }

  lemma MissedInBucket(c: Call)
    requires c.Sized() && !c.Safe()
    ensures Bucket(Missed(c.v, Mask(c.k0), Mask(c.k1)), c.k0) == Bucket(c.v, c.k0)
    ensures Less(Rev(c.v), Rev(Missed(c.v, Mask(c.k0), Mask(c.k1))))
  {
    hide Bucket, Mask, Aligned, Rev, Less, And, IsMask, Missed;
    MasksOf(c);
    MissedWord(c.v, Mask(c.k0), Mask(c.k1));
    SameBucket(Missed(c.v, Mask(c.k0), Mask(c.k1)), c.v, c.k0);
  }

  /**
   The exact condition for a whole iteration. When no call comes back to the bucket of an earlier one that was not
   safe (which takes another, smaller table), every hash is visited if and only if every call is safe.
   */
  lemma CoverageIffSafe(calls: seq<Call>)
    requires Iteration(calls)
    requires forall i, j :: 0 <= i < j < |calls| && !calls[i].Safe() ==> !Revisits(calls[i], calls[j])
    ensures (forall i :: 0 <= i < |calls| ==> calls[i].Safe()) <==> forall h :: Covered(calls, h)
  {
    hide Bucket, Visits, Revisits, Next, Mask, Aligned, Missed;
    if forall i :: 0 <= i < |calls| ==> calls[i].Safe() {
      forall h
        ensures Covered(calls, h)
      {
        IterationVisitsAll(calls, h);
      }
    } else {
      var i :| 0 <= i < |calls| && !calls[i].Safe();
      var h := Missed(calls[i].v, Mask(calls[i].k0), Mask(calls[i].k1));
      forall j | 0 <= j < |calls|
        ensures !Visits(h, calls[j].v, calls[j].k0, calls[j].k1)
      {
        MissedForGood(calls, i, j);
      }
      assert !Covered(calls, h);
    }
  }

  /** Coming back can make up for what was missed: two shrinks in a row, to 8 and to 4 buckets. */
  lemma RevisitRecovers(h: bv64)
    ensures Iteration(ShrinkingTwice()) && !ShrinkingTwice()[1].Safe()
    ensures Revisits(ShrinkingTwice()[1], ShrinkingTwice()[2])
    ensures Covered(ShrinkingTwice(), h)
  {
    RunOfShrinks();
    FourBuckets();
    CoveredByFour(h);
    hide Next, Mask, Aligned, Bucket, Covered;
  }

  function ShrinkingTwice(): seq<Call> {
    [Call(0, 5, 5), Call(16, 3, 5), Call(4, 2, 2), Call(2, 2, 2), Call(1, 2, 2), Call(3, 2, 2)]
  }

  lemma CoveredByFour(h: bv64)
    ensures Covered(ShrinkingTwice(), h)
  {
    FourBuckets();
    BucketBound(h, 2);
    hide Bucket;
    var i := if Bucket(h, 2) == 0 then 2 else if Bucket(h, 2) == 2 then 3 else if Bucket(h, 2) == 1 then 4 else 5;
    var c := ShrinkingTwice()[i];
    assert Visits(h, c.v, c.k0, c.k1);
  }

  lemma RunOfShrinks()
    ensures Next(0, Mask(5)) == 16 && Next(16, Mask(3)) == 4 && Next(4, Mask(2)) == 2 && Next(2, Mask(2)) == 1
    ensures Next(1, Mask(2)) == 3 && Next(3, Mask(2)) == 0 && !Aligned(16, Mask(3), Mask(5))
  {
    assert Mask(2) == 3 && Mask(3) == 7 && Mask(5) == 31;
  }

  lemma FourBuckets()
    ensures Pow2(2) == 4 && Bucket(4, 2) == 0 && Bucket(16, 2) == 0
    ensures Bucket(2, 2) == 2 && Bucket(1, 2) == 1 && Bucket(3, 2) == 3
  {
  }

  lemma MasksOf(c: Call)
    requires c.Sized()
    ensures IsMask(Mask(c.k0)) && IsMask(Mask(c.k1)) && And(Mask(c.k0), Mask(c.k1)) == Mask(c.k0)
  {
    MaskIsMask(c.k0);
    MaskIsMask(c.k1);
    MasksNest(c.k0, c.k1);
  }

  lemma PassedIsVisited(c: Call, h: bv64)
    requires c.Sized() && c.Safe() && Passes(c, h)
    ensures Visits(h, c.v, c.k0, c.k1)
  {
    hide Bucket, Mask, Aligned, Rev, Leq, Less, And, IsMask, Last;
    MasksOf(c);
    if And(c.v, Mask(c.k0)) != And(h, Mask(c.k0)) {
      Between(c.v, h, Mask(c.k0));
    }
    SameBucket(h, c.v, c.k0);
    if Bucket(h, c.k1) < Bucket(c.v, c.k1) {
      BucketOrder(h, c.v, c.k1);
      AlignedOrder(c.v, h, Mask(c.k0), Mask(c.k1));
      NotBoth(Rev(h), Rev(c.v));
    }
  }

  lemma {:induction false} NotBoth(a: bv64, b: bv64)
    requires Less(a, b)
    ensures !Leq(b, a) && Leq(a, b)
  {
  }

  lemma MissedIsPassed(c: Call)
    requires c.Sized() && !c.Safe()
    ensures var h := Missed(c.v, Mask(c.k0), Mask(c.k1));
            Passes(c, h) && !Visits(h, c.v, c.k0, c.k1)
  {
    hide Bucket, Mask, Aligned, Rev, Leq, Less, And, IsMask, Last, Missed;
    var h := Missed(c.v, Mask(c.k0), Mask(c.k1));
    MasksOf(c);
    MissedWord(c.v, Mask(c.k0), Mask(c.k1));
    NotBoth(Rev(c.v), Rev(h));
    SameBucket(h, c.v, c.k0);
    LastIsLast(h, Mask(c.k0));
    LastSame(h, c.v, Mask(c.k0));
    if Bucket(h, c.k1) >= Bucket(c.v, c.k1) {
      if Bucket(h, c.k1) == Bucket(c.v, c.k1) {
        SameBucket(h, c.v, c.k1);
        NotSelf(And(h, Mask(c.k1)));
      } else {
        BucketOrder(c.v, h, c.k1);
        NotBoth(And(h, Mask(c.k1)), And(c.v, Mask(c.k1)));
        NotBoth(And(c.v, Mask(c.k1)), And(h, Mask(c.k1)));
      }
    }
  }

  lemma {:induction false} NotSelf(a: bv64)
    ensures !Less(a, a)
  {
  }

  /** The last word of a bucket, in reversed order, does not come before any of it. */
  lemma {:induction false} LastIsLast(h: bv64, m: bv64)
    ensures !Less(Rev(Last(h, m)), Rev(h))
  {
    hide Rev, Last;
    LastReversed(h, m);
    OrIsLarger(Rev(h), Not(Rev(m)));
  }

  lemma {:induction false} OrIsLarger(a: bv64, b: bv64)
    ensures !Less(Or(a, b), a)
  {
  }

  /**
   Coverage: an iteration all of whose calls are safe visits every hash, so it reports every entry that is
   there throughout, whatever is added, deleted, moved or resized between the calls.
   */
  lemma IterationVisitsAll(calls: seq<Call>, h: bv64)
    requires Iteration(calls) && forall i :: 0 <= i < |calls| ==> calls[i].Safe()
    ensures Covered(calls, h)
  {
    RevOne();
    ZeroIsLeast(Rev(h));
    VisitsFrom(calls, 0, h);
  }

  lemma {:induction false} ZeroIsLeast(a: bv64)
    ensures Leq(0, a)
  {
  }

  lemma {:induction false} VisitsFrom(calls: seq<Call>, i: nat, h: bv64)
    requires Iteration(calls) && i < |calls| && Leq(Rev(calls[i].v), Rev(h))
    requires forall j :: 0 <= j < |calls| ==> calls[j].Safe()
    ensures exists j :: i <= j < |calls| && Visits(h, calls[j].v, calls[j].k0, calls[j].k1)
    decreases |calls| - i
  {
    hide Visits, Rev, Leq, Less, Last, Mask, Aligned, Succ;
    var c := calls[i];
    var last := Rev(Last(c.v, Mask(c.k0)));
    if Less(last, Rev(h)) {
      SuccReaches(last, Rev(h));
      RevTwice(Succ(last));
      RevTwice(c.Result());
      RevOne();
      assert Rev(c.Result()) == Succ(last);
      assert c.Result() != 0;
      VisitsFrom(calls, i + 1, h);
    } else {
      PassedIsVisited(c, h);
    }
  }

  /** An entry whose hash a call visits is reported, whichever table it is in. */
  lemma VisitedIsReported<K(!new), V(!new)>(d: Dict<K, V>, v: bv64, e: Entry<K, V>)
    requires d.ht0.Table? && e.key in d.Contents() && d.Contents()[e.key] == e.val
    requires Visits(d.hash(e.key), v, SmallExp(d), LargeExp(d))
    ensures Reported(d, v, e)
  {
  }

  /** The key is there in every state. */
  ghost predicate Throughout<K(!new), V(!new)>(ds: seq<Dict<K, V>>, key: K)
    reads set d | d in ds
  {
    forall d :: d in ds ==> key in d.Contents()
  }

  /** Some call has reported an entry with this key. */
  ghost predicate Emitted<K(!new), V(!new)>(batches: seq<seq<Entry<K, V>>>, key: K) {
    exists i, j :: 0 <= i < |batches| && 0 <= j < |batches[i]| && batches[i][j].key == key
  }

  /** The calls made so far: each on its own state, with that state's table sizes, reporting what it must. */
  ghost predicate Called<K(!new), V(!new)>(ds: seq<Dict<K, V>>, calls: seq<Call>, batches: seq<seq<Entry<K, V>>>)
    reads set d | d in ds
  {
    && |batches| == |calls| <= |ds| && (calls != [] ==> Chained(calls))
    && forall i :: 0 <= i < |calls| ==>
         && calls[i].k0 == SmallExp(ds[i]) && calls[i].k1 == LargeExp(ds[i])
         && (forall e :: e in batches[i] <==> Reported(ds[i], calls[i].v, e))
         && Distinct(batches[i])
  }

  /** There is one table, or the cursor has no bits above the smaller mask. */
  predicate SurelySafe<K(!new), V(!new)>(d: Dict<K, V>, v: bv64)
    reads d
  {
    !d.IsRehashing() || And(v, Not(Mask(SmallExp(d)))) == 0
  }

  /** Calls are made until the cursor is back at 0, or the dictionary is empty, or there are no more states. */
  ghost predicate Ended<K(!new), V(!new)>(ds: seq<Dict<K, V>>, calls: seq<Call>, done: bool)
    reads set d | d in ds
  {
    if done then Iteration(calls) || (|calls| < |ds| && ds[|calls|].Contents() == map[])
    else |calls| == |ds| && (calls != [] ==> calls[|calls| - 1].Result() != 0)
  }

  lemma CalledNone<K(!new), V(!new)>(ds: seq<Dict<K, V>>)
    ensures Called(ds, [], [])
  {
  }

  lemma CalledNext<K(!new), V(!new)>(ds: seq<Dict<K, V>>, calls: seq<Call>, batches: seq<seq<Entry<K, V>>>, v: bv64,
                     emitted: seq<Entry<K, V>>)
    requires Called(ds, calls, batches) && |calls| < |ds|
    requires v == (if calls == [] then 0 else calls[|calls| - 1].Result()) && (calls != [] ==> v != 0)
    requires SmallExp(ds[|calls|]) <= LargeExp(ds[|calls|]) <= MAX_EXP
    requires (forall e :: e in emitted <==> Reported(ds[|calls|], v, e)) && Distinct(emitted)
    ensures var d := ds[|calls|]; Called(ds, calls + [Call(v, SmallExp(d), LargeExp(d))], batches + [emitted])
  {
    hide Reported, Next, Mask, SmallExp, LargeExp;
  }

  lemma EmptyUsed<K(!new), V(!new)>(d: Dict<K, V>)
    requires d.Valid() && d.ht0.Used() + d.ht1.Used() == 0
    ensures d.Contents() == map[]
  {
    HoldsShape(d.hash, d.ht0, d.m0);
    HoldsShape(d.hash, d.ht1, d.m1);
    assert d.m0 == map[] && d.m1 == map[];
  }

  /** While the cursor is not back at 0 another call could be made, and there cannot be more than 2^31. */
  lemma CallsLeft<K(!new), V(!new)>(ds: seq<Dict<K, V>>, calls: seq<Call>, batches: seq<seq<Entry<K, V>>>, v: bv64)
    requires Called(ds, calls, batches) && |calls| == |ds|
    requires calls != [] ==> calls[|calls| - 1].Result() == v != 0
    ensures |calls| < Pow2(MAX_EXP)
  {
    hide Next, Mask, Pow2, Reported;
    if calls != [] {
      RunsEnd(calls + [Call(v, 0, 0)]);
    }
  }

  lemma NotEmptied<K(!new), V(!new)>(ds: seq<Dict<K, V>>, i: nat, key: K)
    requires Throughout(ds, key)
    ensures i < |ds| ==> ds[i].Contents() != map[]
  {
    if i < |ds| {
      assert ds[i] in ds;
    }
  }

  lemma CalledDone<K(!new), V(!new)>(ds: seq<Dict<K, V>>, calls: seq<Call>, batches: seq<seq<Entry<K, V>>>)
    requires Called(ds, calls, batches)
    ensures calls != [] && calls[|calls| - 1].Result() == 0 ==> Iteration(calls)
  {
    hide Next, Mask, Reported;
  }

  lemma ThroughoutEmitted<K(!new), V(!new)>(ds: seq<Dict<K, V>>, hash: K -> bv64, calls: seq<Call>,
                            batches: seq<seq<Entry<K, V>>>, key: K)
    requires forall d :: d in ds ==> d.Valid() && d.hash == hash
    requires Called(ds, calls, batches) && Throughout(ds, key) && forall i :: 0 <= i < |calls| ==> calls[i].Safe()
    requires Iteration(calls) || (|calls| < |ds| && ds[|calls|].Contents() == map[])
    ensures Emitted(batches, key)
  {
    hide Visits, Next, Mask, Aligned, Reported;
    NotEmptied(ds, |calls|, key);
    if Iteration(calls) {
      IterationVisitsAll(calls, hash(key));
      var i :| 0 <= i < |calls| && Visits(hash(key), calls[i].v, calls[i].k0, calls[i].k1);
      var d := ds[i];
      assert d in ds;
      var e := Entry(key, d.Contents()[key]);
      VisitedIsReported(d, calls[i].v, e);
      assert e in batches[i];
      var j :| 0 <= j < |batches[i]| && batches[i][j] == e;
    }
  }

  lemma StatesSafe<K(!new), V(!new)>(ds: seq<Dict<K, V>>, calls: seq<Call>, batches: seq<seq<Entry<K, V>>>)
    requires Called(ds, calls, batches) && forall d :: d in ds ==> d.Valid()
    ensures forall i :: 0 <= i < |calls| && SurelySafe(ds[i], calls[i].v) ==> calls[i].Safe()
    ensures (forall i :: 0 <= i < |ds| - 1 ==> SmallExp(ds[i]) <= SmallExp(ds[i + 1])) ==>
              forall i :: 0 <= i < |calls| ==> calls[i].Safe()
  {
    hide Next, Mask, Aligned, Reported, And, Not, Holds;
    forall i | 0 <= i < |calls| && SurelySafe(ds[i], calls[i].v)
      ensures calls[i].Safe()
    {
      assert ds[i] in ds;
      SafeCalls(calls[i]);
    }
    if forall i :: 0 <= i < |ds| - 1 ==> SmallExp(ds[i]) <= SmallExp(ds[i + 1]) {
      forall i | 0 <= i < |calls|
        ensures calls[i].Safe()
      {
        GrowingIsSafe(calls, i);
      }
    }
  }

  /**
   A scan of a dictionary that goes through the states `ds`, one for each call, however they come about: the calls
   are made until the cursor is back at 0, which happens after at most 2^31 of them. If all were safe, then every
   key that is there throughout has been reported. A call is safe on one table, or with a cursor without bits above
   the smaller mask, and all are while the dictionary does not shrink.
   */
  method Iterate<K(==, !new), V(!new)>(ds: seq<Dict<K, V>>, hash: K -> bv64)
    returns (done: bool, calls: seq<Call>, batches: seq<seq<Entry<K, V>>>)
    requires forall d :: d in ds ==> d.Valid() && d.hash == hash
    ensures Called(ds, calls, batches)
    ensures Ended(ds, calls, done)
    ensures !done ==> |ds| < Pow2(MAX_EXP)
    ensures done && (forall i :: 0 <= i < |calls| ==> calls[i].Safe()) ==>
              forall key :: Throughout(ds, key) ==> Emitted(batches, key)
    ensures forall i :: 0 <= i < |calls| && SurelySafe(ds[i], calls[i].v) ==> calls[i].Safe()
    ensures (forall i :: 0 <= i < |ds| - 1 ==> SmallExp(ds[i]) <= SmallExp(ds[i + 1])) ==>
              forall i :: 0 <= i < |calls| ==> calls[i].Safe()
  {
    hide Holds, Visits, Reported, Next, Mask, Aligned, Pow2, Called;
    var v: bv64 := 0;
    done, calls, batches := false, [], [];
    var i := 0;
    CalledNone(ds);
    while i < |ds| && !done
      invariant 0 <= i <= |ds| && Called(ds, calls, batches)
      invariant !done ==> |calls| == i && v == if i == 0 then 0 else calls[i - 1].Result()
      invariant !done && i > 0 ==> v != 0
      invariant done ==> Iteration(calls) || (|calls| < |ds| && ds[|calls|].Contents() == map[])
    {
      var d := ds[i];
      assert d in ds;
      var v', emitted := Scan(d, v);
      if d.ht0.Used() + d.ht1.Used() == 0 {
        EmptyUsed(d);
        done := true;
      } else {
        NotEmpty(d);
        ExpsInRange(d);
        CalledNext(ds, calls, batches, v, emitted);
        calls, batches := calls + [Call(v, SmallExp(d), LargeExp(d))], batches + [emitted];
        v := v';
        done := v == 0;
        CalledDone(ds, calls, batches);
      }
      i := i + 1;
    }
    if !done {
      CallsLeft(ds, calls, batches, v);
    }
    if done && (forall i :: 0 <= i < |calls| ==> calls[i].Safe()) {
      forall key | Throughout(ds, key)
        ensures Emitted(batches, key)
      {
        ThroughoutEmitted(ds, hash, calls, batches, key);
      }
    }
    StatesSafe(ds, calls, batches);
  }

  lemma ExpsInRange<K(!new), V(!new)>(d: Dict<K, V>)
    requires d.Valid() && d.Contents() != map[]
    ensures d.ht0.Table? && SmallExp(d) <= LargeExp(d) <= MAX_EXP
  {
    hide Bucket;
  }

  /** A call without bits of the cursor above the smaller mask is safe, and so is a call on one table. */
  lemma SafeCalls(c: Call)
    requires c.Sized()
    ensures And(c.v, Not(Mask(c.k0))) == 0 ==> c.Safe()
    ensures c.k0 == c.k1 ==> c.Safe()
  {
    hide Mask, Aligned, And, Not, IsMask;
    MasksOf(c);
    if And(c.v, Not(Mask(c.k0))) == 0 {
      LowIsAligned(c.v, Mask(c.k0), Mask(c.k1));
    }
    SingleIsAligned(c.v, Mask(c.k0));
  }

  /** While the dictionary only grows, every call is safe. */
  lemma {:induction false} GrowingIsSafe(calls: seq<Call>, i: nat)
    requires Chained(calls) && i < |calls|
    requires forall j :: 0 <= j < |calls| - 1 ==> calls[j].k0 <= calls[j + 1].k0
    ensures calls[i].Safe() && And(calls[i].v, Not(Mask(calls[i].k0))) == 0
  {
    hide Mask, Aligned, And, Not, IsMask, Next;
    if i == 0 {
      ZeroIsLow(Mask(calls[0].k0));
    } else {
      var before, c := calls[i - 1], calls[i];
      MasksOf(before);
      NextIsLow(before.v, Mask(before.k0));
      MasksNestAnd(before.k0, c.k0);
      LowUnderLarger(c.v, Mask(before.k0), Mask(c.k0));
    }
    SafeCalls(calls[i]);
  }

  lemma MasksNestAnd(j: nat, k: nat)
    requires j <= k
    ensures And(Mask(j), Mask(k)) == Mask(j)
  {
    MasksNest(j, k);
  }

  lemma {:induction false} ZeroIsLow(m: bv64)
    ensures And(0, Not(m)) == 0
  {
  }

  /** Every call returns 0, or a cursor that is strictly later in reversed order: every iteration ends. */
  lemma CursorAdvances(c: Call)
    ensures c.Result() == 0 || Less(Rev(c.v), Rev(c.Result()))
  {
    hide Rev, Last, Less, Succ, Mask, Leq;
    var last := Rev(Last(c.v, Mask(c.k0)));
    RevTwice(Succ(last));
    RevOne();
    LastIsLast(c.v, Mask(c.k0));
    NotLessIsLeq(last, Rev(c.v));
    if c.Result() != 0 {
      SuccAfter(Rev(c.v), last);
    }
  }

  lemma {:induction false} NotLessIsLeq(a: bv64, b: bv64)
    requires !Less(a, b)
    ensures Leq(b, a)
  {
  }

  lemma {:induction false} SuccAfter(a: bv64, b: bv64)
    requires Leq(a, b) && Succ(b) != 0
    ensures Less(a, Succ(b))
  {
    hide Leq, Less, Succ;
    SuccLarger(b);
    LeqLess(a, b, Succ(b));
  }

  lemma {:induction false} SuccLarger(b: bv64)
    requires Succ(b) != 0
    ensures Less(b, Succ(b))
  {
  }

  lemma {:induction false} LeqLess(a: bv64, b: bv64, c: bv64)
    requires Leq(a, b) && Less(b, c)
    ensures Less(a, c)
  {
  }

  /** A dictionary of 16 buckets that starts to shrink to 4 while the cursor is 8. */
  function ShrinkingRun(): seq<Call> {
    [Call(0, 4, 4), Call(8, 2, 4), Call(2, 2, 4), Call(1, 2, 4), Call(3, 2, 4)]
  }

  ghost predicate Sixteen<K(!new), V(!new)>(d: Dict<K, V>, key: K)
    reads d
  {
    d.Valid() && !d.IsRehashing() && d.ht0.Table? && d.ht0.exp == 4 && key in d.Contents() && |d.Contents()| <= 4
  }

  /** What dictResize makes of it: no bucket has been moved yet. */
  ghost predicate Shrinking<K(!new), V(!new)>(d: Dict<K, V>, key: K)
    reads d
  {
    && d.Valid() && d.rehashidx == 0 && d.ht0.Table? && d.ht0.exp == 4 && d.ht1.Table? && d.ht1.exp == 2
    && key in d.m0 && |d.Contents()| <= 4
  }

  /**
   Coverage does not hold of every scan: when 16 buckets start to shrink to 4 after the first call, a key of bucket 4
   is there throughout and is never reported, because the second call has a cursor that is not aligned.
   */
  lemma ShrinkingMisses<K(!new), V(!new)>(ds: seq<Dict<K, V>>, hash: K -> bv64, key: K, done: bool, calls: seq<Call>,
                          batches: seq<seq<Entry<K, V>>>)
    requires |ds| == 5 && Sixteen(ds[0], key) && forall i :: 1 <= i < 5 ==> Shrinking(ds[i], key)
    requires (forall d :: d in ds ==> d.hash == hash) && Bucket(hash(key), 4) == 4
    requires Called(ds, calls, batches) && Ended(ds, calls, done)
    ensures done && calls == ShrinkingRun() && !calls[1].Safe()
    ensures Throughout(ds, key) && !Emitted(batches, key)
  {
    hide Bucket, Visits, Reported, Next, Mask, Aligned, Holds, Chained, Sixteen, Shrinking;
    ShrinkingUnsafe();
    ShrinkingCalls(ds, key, done, calls, batches);
    forall i | 0 <= i < 5
      ensures forall e :: e in batches[i] ==> e.key != key
    {
      assert ds[i] in ds && calls[i] == ShrinkingRun()[i];
      NotThere(ds[i], calls[i], key);
    }
  }

  lemma ShrinkingUnsafe()
    ensures !ShrinkingRun()[1].Safe()
  {
    assert Mask(2) == 3 && Mask(4) == 15;
  }

  lemma RunOfShrink()
    ensures Next(0, Mask(4)) == 8 && Next(8, Mask(2)) == 2 && Next(2, Mask(2)) == 1
    ensures Next(1, Mask(2)) == 3 && Next(3, Mask(2)) == 0
  {
    assert Mask(2) == 3 && Mask(4) == 15;
  }

  /** The first call is made unless the dictionary is empty, and another one unless the cursor is back at 0. */
  lemma CallFollows<K(!new), V(!new)>(ds: seq<Dict<K, V>>, done: bool, calls: seq<Call>,
                      batches: seq<seq<Entry<K, V>>>, i: nat, v: bv64)
    requires Called(ds, calls, batches) && Ended(ds, calls, done) && i < |ds| && ds[i].Contents() != map[]
    requires i > 0 ==> i - 1 < |calls| && calls[i - 1].Result() == v != 0
    requires i == 0 ==> v == 0
    ensures i < |calls| && calls[i] == Call(v, SmallExp(ds[i]), LargeExp(ds[i]))
  {
    hide Next, Mask, Reported;
    if 0 < i < |calls| {
      assert calls[i - 1 + 1].v == calls[i - 1].Result();
    }
  }

  lemma ShrinkingCalls<K(!new), V(!new)>(ds: seq<Dict<K, V>>, key: K, done: bool, calls: seq<Call>,
                         batches: seq<seq<Entry<K, V>>>)
    requires |ds| == 5 && Sixteen(ds[0], key) && forall i :: 1 <= i < 5 ==> Shrinking(ds[i], key)
    requires Called(ds, calls, batches) && Ended(ds, calls, done)
    ensures done && calls == ShrinkingRun() && Throughout(ds, key)
  {
    hide Reported, Next, Mask, Sixteen, Shrinking, Called, SmallExp, LargeExp, Chained, Dict.Contents;
    RunOfShrink();
    SixteenSizes(ds[0], key);
    forall i | 1 <= i < 5
      ensures key in ds[i].Contents() && SmallExp(ds[i]) == 2 && LargeExp(ds[i]) == 4
    {
      ShrinkingSizes(ds[i], key);
    }
    CallFollows(ds, done, calls, batches, 0, 0);
    CallFollows(ds, done, calls, batches, 1, 8);
    CallFollows(ds, done, calls, batches, 2, 2);
    CallFollows(ds, done, calls, batches, 3, 1);
    CallFollows(ds, done, calls, batches, 4, 3);
    CallsBound(ds, calls, batches);
  }

  lemma SixteenSizes<K(!new), V(!new)>(d: Dict<K, V>, key: K)
    requires Sixteen(d, key)
    ensures d.Valid() && key in d.Contents() && SmallExp(d) == LargeExp(d) == 4
  {
    hide Holds;
  }

  lemma ShrinkingSizes<K(!new), V(!new)>(d: Dict<K, V>, key: K)
    requires Shrinking(d, key)
    ensures d.Valid() && key in d.Contents() && SmallExp(d) == 2 && LargeExp(d) == 4
  {
    hide Holds;
  }

  lemma CallsBound<K(!new), V(!new)>(ds: seq<Dict<K, V>>, calls: seq<Call>, batches: seq<seq<Entry<K, V>>>)
    requires Called(ds, calls, batches)
    ensures |batches| == |calls| <= |ds|
  {
  }

  lemma NotThere<K(!new), V(!new)>(d: Dict<K, V>, c: Call, key: K)
    requires Bucket(d.hash(key), 4) == 4
    requires (c == Call(0, 4, 4) && Sixteen(d, key)) || (c in ShrinkingRun()[1..] && Shrinking(d, key))
    ensures forall e :: Reported(d, c.v, e) ==> e.key != key
  {
    hide Bucket, Holds;
    SmallBuckets();
    LowerBucket(d.hash(key), 4, 2, 4);
  }

  /** Such dictionaries exist: this builds them with the operations of dict.c, and scans them. */
  method ShrinkingScan<K(==, !new), V(!new)>(hash: K -> bv64, key: K, val: V)
    returns (ds: seq<Dict<K, V>>, calls: seq<Call>, batches: seq<seq<Entry<K, V>>>)
    requires Bucket(hash(key), 4) == 4
    ensures |ds| == 5 && Sixteen(ds[0], key) && forall i :: 1 <= i < 5 ==> Shrinking(ds[i], key)
    ensures Called(ds, calls, batches) && Iteration(calls) && Throughout(ds, key) && !Emitted(batches, key)
  {
    hide *;
    var before := SixteenBuckets(hash, key, val);
    var after := ShrunkBuckets(hash, key, val);
    SixteenSizes(before, key);
    ShrinkingSizes(after, key);
    ds := [before, after, after, after, after];
    var done;
    done, calls, batches := Iterate(ds, hash);
    ShrinkingMisses(ds, hash, key, done, calls, batches);
    ShrinkingIteration(ds, calls, batches);
  }

  lemma ShrinkingIteration<K(!new), V(!new)>(ds: seq<Dict<K, V>>, calls: seq<Call>, batches: seq<seq<Entry<K, V>>>)
    requires Called(ds, calls, batches) && calls == ShrinkingRun()
    ensures Iteration(calls)
  {
    hide Next, Mask, Reported;
    RunOfShrink();
  }

  method ShrunkBuckets<K(==, !new), V(!new)>(hash: K -> bv64, key: K, val: V) returns (d: Dict<K, V>)
    ensures fresh(d) && d.hash == hash && Shrinking(d, key)
  {
    hide Bucket, Holds, Pow2, Snug, AllEmpty, Layout;
    d := SixteenBuckets(hash, key, val);
    SmallPowers();
    NoTableEmpty(d.hash, d.ht1, d.m1);
    var ok := d.Resize();
    SnugExp(d.ht1, 4, 2);
  }

  method SixteenBuckets<K(==, !new), V(!new)>(hash: K -> bv64, key: K, val: V) returns (d: Dict<K, V>)
    ensures fresh(d) && d.hash == hash && d.canResize && Sixteen(d, key) && d.Contents() == map[key := val]
  {
    hide Bucket, Holds, Pow2, Snug, AllEmpty, Layout;
    d := OneTable(hash, key, val);
    SmallPowers();
    var ok := d.Expand(16);
    SnugExp(d.ht1, 16, 4);
    RehashAll(d);
    assert d.Contents().Keys == {key};
    if d.ht0.exp < 4 {
      SizesDiffer(d.ht0.exp, 4);
    } else if d.ht0.exp > 4 {
      SizesDiffer(4, d.ht0.exp);
    }
  }

  method OneTable<K(==, !new), V(!new)>(hash: K -> bv64, key: K, val: V) returns (d: Dict<K, V>)
    ensures fresh(d) && d.Valid() && d.hash == hash && d.canResize && d.Contents() == map[key := val]
    ensures !d.IsRehashing() && d.ht0.Table? && d.ht0.Used() == 1
  {
    hide *;
    d := new Dict(hash);
    SizeOfFirst(d);
    var added := d.Add(key, val);
    assert d.Contents() == map[key := val] && d.Contents().Keys == {key};
    d.HasTable(key);
    RehashAll(d);
    UsedIsSize(d);
  }

  /** Rehashes until there is one table. */
  method RehashAll<K(==, !new), V(!new)>(d: Dict<K, V>)
    requires d.Valid() && d.ht0.Table?
    modifies d`ht0, d`ht1, d`m0, d`m1, d`rehashidx
    ensures d.Valid() && !d.IsRehashing() && d.Contents() == old(d.Contents()) && d.ht0.Table?
    ensures old(d.IsRehashing()) ==> d.ht0.Size() == old(d.ht1.Size())
  {
    hide Holds, Pow2;
    HoldsShape(d.hash, d.ht0, d.m0);
    var more := d.Rehash(|d.ht0.buckets| + 1);
    if more {
      HoldsShape(d.hash, d.ht0, d.m0);
    }
  }

  lemma SizeOfFirst<K(!new), V(!new)>(d: Dict<K, V>)
    requires d.Contents() == map[]
    ensures d.Roomy()
  {
  }

  lemma UsedIsSize<K(!new), V(!new)>(d: Dict<K, V>)
    requires d.Valid() && !d.IsRehashing()
    ensures d.ht0.Used() == |d.Contents()|
  {
    hide Bucket;
    assert d.m0 + d.m1 == d.m0;
    HoldsShape(d.hash, d.ht0, d.m0);
  }

  lemma SnugExp<K, V>(t: Table<K, V>, size: nat, exp: nat)
    requires Snug(t, size) && size == Pow2(exp) && exp >= 2
    ensures t.exp == exp
  {
    hide Pow2;
    if t.exp < exp {
      SizesDiffer(t.exp, exp);
    } else if t.exp > exp {
      Pow2Grows(exp, t.exp - 1);
    }
  }

  lemma SizesDiffer(a: nat, b: nat)
    requires a < b
    ensures Pow2(a) < Pow2(b)
  {
    Pow2Grows(a, b - 1);
  }

  lemma SmallPowers()
    ensures Pow2(2) == 4 && Pow2(4) == 16 && Pow2(MAX_EXP) > 16
  {
    LargestSize();
  }

  lemma SmallBuckets()
    ensures Bucket(4, 2) == 0 && Bucket(4, 4) == 4 && Bucket(0, 4) == 0 && Bucket(8, 4) == 8 && Bucket(8, 2) == 0
    ensures Bucket(2, 2) == 2 && Bucket(1, 2) == 1 && Bucket(3, 2) == 3
  {
    hide Bucket;
    OfSixteen();
    OfFour();
  }

  lemma OfSixteen()
    ensures Bucket(4, 4) == 4 && Bucket(0, 4) == 0 && Bucket(8, 4) == 8
  {
  }

  lemma OfFour()
    ensures Bucket(4, 2) == 0 && Bucket(8, 2) == 0 && Bucket(2, 2) == 2 && Bucket(1, 2) == 1 && Bucket(3, 2) == 3
  {
  }

  // ----- A dictionary that does not change -----

  lemma {:induction false} CursorsGrow(calls: seq<Call>, i: nat, j: nat)
    requires Chained(calls) && i < j < |calls|
    ensures Less(Rev(calls[i].v), Rev(calls[j].v))
    decreases j
  {
    hide Rev, Less, Mask;
    CursorAdvances(calls[j - 1]);
    if i < j - 1 {
      CursorsGrow(calls, i, j - 1);
      LessLess(Rev(calls[i].v), Rev(calls[j - 1].v), Rev(calls[j].v));
    }
  }

  lemma {:induction false} LessLess(a: bv64, b: bv64, c: bv64)
    requires Less(a, b) && Less(b, c)
    ensures Less(a, c)
  {
  }

  lemma {:induction false} LowWordsEqual(a: bv64, b: bv64, m: bv64)
    requires And(a, Not(m)) == 0 && And(b, Not(m)) == 0 && And(a, m) == And(b, m)
    ensures a == b
  {
  }

  lemma DifferentBuckets(calls: seq<Call>, k: nat, i: nat, j: nat)
    requires Chained(calls) && i < j < |calls| && k <= MAX_EXP
    requires And(calls[i].v, Not(Mask(k))) == 0 && And(calls[j].v, Not(Mask(k))) == 0
    ensures Bucket(calls[i].v, k) != Bucket(calls[j].v, k)
  {
    hide Rev, Less, Mask, And, Not, Bucket, Next;
    CursorsGrow(calls, i, j);
    SameBucket(calls[i].v, calls[j].v, k);
    if Bucket(calls[i].v, k) == Bucket(calls[j].v, k) {
      LowWordsEqual(calls[i].v, calls[j].v, Mask(k));
      NotSelf(Rev(calls[i].v));
    }
  }

  /** Cursors have no bits above the mask of the largest table that there can be. */
  lemma CursorsLow(calls: seq<Call>, i: nat)
    requires Chained(calls) && i < |calls|
    ensures And(calls[i].v, Not(Mask(MAX_EXP))) == 0
  {
    hide Mask, And, Not, IsMask, Next;
    if i == 0 {
      ZeroIsLow(Mask(MAX_EXP));
    } else {
      var before := calls[i - 1];
      MasksOf(before);
      NextIsLow(before.v, Mask(before.k0));
      MasksNestAnd(before.k0, MAX_EXP);
      assert calls[i - 1 + 1].v == before.Result();
      LowUnderLarger(calls[i].v, Mask(before.k0), Mask(MAX_EXP));
    }
  }

  lemma AtMost(calls: seq<Call>, k: nat)
    requires forall i, j :: 0 <= i < j < |calls| ==> Bucket(calls[i].v, k) != Bucket(calls[j].v, k)
    ensures |calls| <= Pow2(k)
  {
    hide Bucket;
    BucketsCount(calls, k);
    forall i | 0 <= i < |calls|
      ensures Bucket(calls[i].v, k) < Pow2(k)
    {
      BucketBound(calls[i].v, k);
    }
    SubsetSize(BucketsOf(calls, k), Numbers(Pow2(k)));
  }

  lemma {:induction false} SubsetSize<T>(a: set<T>, b: set<T>)
    requires a <= b
    ensures |a| <= |b|
  {
    if a != {} {
      var x :| x in a;
      SubsetSize(a - {x}, b - {x});
    }
  }

  /** Whatever resizes happen, a scan is over after at most 2^31 calls. */
  lemma RunsEnd(calls: seq<Call>)
    requires Chained(calls)
    ensures |calls| <= Pow2(MAX_EXP)
  {
    hide Bucket, Mask, And, Not, Next, Pow2;
    forall i, j | 0 <= i < j < |calls|
      ensures Bucket(calls[i].v, MAX_EXP) != Bucket(calls[j].v, MAX_EXP)
    {
      CursorsLow(calls, i);
      CursorsLow(calls, j);
      DifferentBuckets(calls, MAX_EXP, i, j);
    }
    AtMost(calls, MAX_EXP);
  }

  /** A word in bucket `b`. */
  function Word(b: nat, k: nat): bv64
    decreases k
  {
    if k == 0 then 0 else Join(Word(b / 2, k - 1), if b % 2 == 1 then 1 else 0)
  }

  lemma {:induction false} WordBucket(b: nat, k: nat)
    requires k <= MAX_EXP && b < Pow2(k)
    ensures Bucket(Word(b, k), k) == b
    decreases k
  {
    hide Join, Bucket;
    BucketPeel(Word(b, k), k);
    if k > 0 {
      WordBucket(b / 2, k - 1);
      BucketJoin(Word(b / 2, k - 1), if b % 2 == 1 then 1 else 0, k);
    }
  }

  ghost function BucketsOf(calls: seq<Call>, k: nat): set<nat> {
    set i: nat | i < |calls| :: Bucket(calls[i].v, k)
  }

  ghost function Numbers(n: nat): (s: set<nat>)
    ensures |s| == n && forall b :: b in s <==> 0 <= b < n
  {
    if n == 0 then {} else Numbers(n - 1) + {n - 1}
  }

  ghost predicate InSomeCall(calls: seq<Call>, k: nat, b: nat) {
    exists i :: 0 <= i < |calls| && Bucket(calls[i].v, k) == b
  }

  lemma {:induction false} BucketsCount(calls: seq<Call>, k: nat)
    requires forall i, j :: 0 <= i < j < |calls| ==> Bucket(calls[i].v, k) != Bucket(calls[j].v, k)
    ensures |BucketsOf(calls, k)| == |calls|
  {
    hide Bucket;
    if calls != [] {
      var init, last := calls[..|calls| - 1], |calls| - 1;
      BucketsCount(init, k);
      assert forall i :: 0 <= i < last ==> init[i] == calls[i];
      assert BucketsOf(calls, k) == BucketsOf(init, k) + {Bucket(calls[last].v, k)};
    } else {
      assert BucketsOf(calls, k) == {};
    }
  }

  ghost predicate Static(calls: seq<Call>, k: nat) {
    forall i :: 0 <= i < |calls| ==> calls[i].k0 == calls[i].k1 == k
  }

  lemma BucketVisited(calls: seq<Call>, k: nat, b: nat)
    requires Iteration(calls) && Static(calls, k) && b < Pow2(k)
    ensures InSomeCall(calls, k, b)
  {
    hide Bucket, Mask, Aligned;
    assert calls[0].Sized();
    WordBucket(b, k);
    forall i | 0 <= i < |calls|
      ensures calls[i].Safe()
    {
      GrowingIsSafe(calls, i);
    }
    IterationVisitsAll(calls, Word(b, k));
  }

  lemma StaticDifferent(calls: seq<Call>, k: nat)
    requires Chained(calls) && Static(calls, k)
    ensures forall i, j :: 0 <= i < j < |calls| ==> Bucket(calls[i].v, k) != Bucket(calls[j].v, k)
    ensures |calls| <= Pow2(k)
  {
    hide Bucket, Mask, Aligned, And, Not, Next, Pow2;
    assert calls[0].Sized();
    forall i, j | 0 <= i < j < |calls|
      ensures Bucket(calls[i].v, k) != Bucket(calls[j].v, k)
    {
      GrowingIsSafe(calls, i);
      GrowingIsSafe(calls, j);
      DifferentBuckets(calls, k, i, j);
    }
    AtMost(calls, k);
  }

  /** On 2^k buckets that do not change, an iteration takes 2^k calls and visits each bucket in one of them. */
  lemma EachBucketOnce(calls: seq<Call>, k: nat)
    requires Iteration(calls) && Static(calls, k)
    ensures |calls| == Pow2(k)
    ensures forall b: nat :: b < Pow2(k) ==> InSomeCall(calls, k, b)
    ensures forall i, j :: 0 <= i < j < |calls| ==> Bucket(calls[i].v, k) != Bucket(calls[j].v, k)
  {
    hide Bucket, Mask, Aligned, Static, Chained;
    StaticDifferent(calls, k);
    forall b: nat | b < Pow2(k)
      ensures InSomeCall(calls, k, b)
    {
      BucketVisited(calls, k, b);
    }
    BucketsCount(calls, k);
    forall i | 0 <= i < |calls|
      ensures Bucket(calls[i].v, k) < Pow2(k)
    {
      BucketBound(calls[i].v, k);
    }
    AllNumbers(calls, k);
  }

  /** There is such an iteration for every table size. */
  lemma {:induction false} StaticIteration(k: nat, calls: seq<Call>) returns (all: seq<Call>)
    requires k <= MAX_EXP && Static(calls, k) && (calls == [] || Chained(calls))
    ensures Iteration(all) && Static(all, k) && calls <= all
    decreases Pow2(k) - |calls|
  {
    hide Bucket, Mask, Next, Pow2;
    if calls == [] {
      Some(k);
      all := StaticIteration(k, [Call(0, k, k)]);
    } else {
      StaticDifferent(calls, k);
      var v := calls[|calls| - 1].Result();
      if v == 0 {
        all := calls;
      } else {
        StaticDifferent(calls + [Call(v, k, k)], k);
        all := StaticIteration(k, calls + [Call(v, k, k)]);
      }
    }
  }

  /** The entry is at position `j` of batch `i`, and no other position has its key. */
  ghost predicate OnceAt<K(!new), V(!new)>(batches: seq<seq<Entry<K, V>>>, e: Entry<K, V>, i: nat, j: nat) {
    && i < |batches| && j < |batches[i]| && batches[i][j] == e
    && forall i': nat, j': nat :: i' < |batches| && j' < |batches[i']| && batches[i'][j'].key == e.key ==>
         i' == i && j' == j
  }

  /** A key is in one bucket of the smaller table, so one call alone reports it, once. */
  lemma ReportedOnce<K(!new), V(!new)>(d: Dict<K, V>, ds: seq<Dict<K, V>>, calls: seq<Call>,
                       batches: seq<seq<Entry<K, V>>>, i: nat, j: nat, i': nat, j': nat)
    requires Called(ds, calls, batches) && forall x :: x in ds ==> x == d
    requires i < |batches| && j < |batches[i]| && i' < |batches| && j' < |batches[i']|
    requires batches[i][j].key == batches[i'][j'].key
    ensures i == i' && j == j'
  {
    hide Bucket, Mask, Aligned, And, Not, Next, Visits, Dict.Contents, LargePart, SmallExp, LargeExp;
    assert ds[i] in ds && ds[i'] in ds;
    assert batches[i][j] in batches[i] && batches[i'][j'] in batches[i'];
    ReportedBucket(d, calls[i].v, batches[i][j]);
    ReportedBucket(d, calls[i'].v, batches[i'][j']);
    if i != i' {
      forall c | 0 <= c < |calls|
        ensures calls[c].k0 == SmallExp(d)
      {
        assert ds[c] in ds;
      }
      GrowingIsSafe(calls, i);
      GrowingIsSafe(calls, i');
      DifferentBuckets(calls, SmallExp(d), if i < i' then i else i', if i < i' then i' else i);
    }
  }

  lemma ReportedBucket<K(!new), V(!new)>(d: Dict<K, V>, v: bv64, e: Entry<K, V>)
    requires Reported(d, v, e)
    ensures e.key in d.Contents() && d.Contents()[e.key] == e.val
    ensures Bucket(d.hash(e.key), SmallExp(d)) == Bucket(v, SmallExp(d))
  {
    hide Bucket;
  }

  /**
   While a dictionary does not change, rehashing or not, the calls from cursor 0 back to 0 report its entries, all
   of them, each in one call and once.
   */
  lemma UnchangedOnceEach<K(!new), V(!new)>(d: Dict<K, V>, ds: seq<Dict<K, V>>, calls: seq<Call>,
                            batches: seq<seq<Entry<K, V>>>)
    requires d.Valid() && forall x :: x in ds ==> x == d
    requires Called(ds, calls, batches) && Ended(ds, calls, true)
    ensures forall key :: key in d.Contents() ==> exists i, j :: OnceAt(batches, Entry(key, d.Contents()[key]), i, j)
    ensures forall i, j :: 0 <= i < |batches| && 0 <= j < |batches[i]| ==>
      batches[i][j].key in d.Contents() && d.Contents()[batches[i][j].key] == batches[i][j].val
  {
    hide Bucket, Mask, Aligned, Next, Holds, Reported, SmallExp, LargeExp, Dict.Contents, Iteration, Chained;
    forall i, j | 0 <= i < |batches| && 0 <= j < |batches[i]|
      ensures batches[i][j].key in d.Contents() && d.Contents()[batches[i][j].key] == batches[i][j].val
    {
      assert ds[i] in ds && batches[i][j] in batches[i];
      ReportedBucket(d, calls[i].v, batches[i][j]);
    }
    forall i | 0 <= i < |ds| - 1
      ensures SmallExp(ds[i]) <= SmallExp(ds[i + 1])
    {
      assert ds[i] in ds && ds[i + 1] in ds;
    }
    StatesSafe(ds, calls, batches);
    forall key | key in d.Contents()
      ensures exists i, j :: OnceAt(batches, Entry(key, d.Contents()[key]), i, j)
    {
      ThroughoutEmitted(ds, d.hash, calls, batches, key);
      var i: nat, j: nat :| i < |batches| && j < |batches[i]| && batches[i][j].key == key;
      forall i': nat, j': nat | i' < |batches| && j' < |batches[i']| && batches[i'][j'].key == key
        ensures i' == i && j' == j
      {
        ReportedOnce(d, ds, calls, batches, i, j, i', j');
      }
      assert OnceAt(batches, Entry(key, d.Contents()[key]), i, j);
    }
  }

  lemma Some(k: nat)
    ensures Pow2(k) >= 1
  {
  }

  lemma AllNumbers(calls: seq<Call>, k: nat)
    requires forall b: nat :: b < Pow2(k) ==> InSomeCall(calls, k, b)
    requires forall i :: 0 <= i < |calls| ==> Bucket(calls[i].v, k) < Pow2(k)
    ensures BucketsOf(calls, k) == Numbers(Pow2(k)) && |BucketsOf(calls, k)| == Pow2(k)
  {
    hide Bucket;
    forall b: nat
      ensures b in BucketsOf(calls, k) <==> b in Numbers(Pow2(k))
    {
      if b in Numbers(Pow2(k)) {
        assert InSomeCall(calls, k, b);
      }
    }
  }
}
