/**
 The incrementally rehashed hash table (dict.c): two tables of chained buckets, between which entries
 move a bucket at a time while the dictionary is used. It is proved to behave as a map.
 */
module Dict {
  import opened Bits64
  import opened Wrappers

  const DICT_HT_INITIAL_EXP := 2  // DICT_HT_INITIAL_SIZE is 4
  const DICT_FORCE_RESIZE_RATIO := 5

  datatype Entry<K, V> = Entry(key: K, val: V)

  type Chain<K, V> = seq<Entry<K, V>>

  /** dictht: no table at all, or 2^exp chains and the number of entries in them. */
  datatype Table<K, V> = NoTable | Table(exp: nat, buckets: seq<Chain<K, V>>, used: nat) {
    function Size(): nat {
      if NoTable? then 0 else Pow2(exp)
    }

    function Used(): nat {
      if NoTable? then 0 else used
    }

    /** The table with another chain in one bucket. */
    function Put(i: nat, chain: Chain<K, V>, count: nat): Table<K, V>
      requires Table? && i < |buckets|
    {
      Table(exp, buckets[i := chain], count)
    }
  }

  // ----- Chains -----

  /** The value of the first entry with key `k`. */
  function Find<K(==), V>(chain: Chain<K, V>, k: K): Option<V> {
    if chain == [] then None
    else if chain[0].key == k then Some(chain[0].val)
    else Find(chain[1..], k)
  }

  ghost predicate Distinct<K, V>(chain: Chain<K, V>) {
    forall i, j :: 0 <= i < j < |chain| ==> chain[i].key != chain[j].key
  }

  lemma {:induction false} FindAt<K, V>(chain: Chain<K, V>, j: nat)
    requires Distinct(chain) && j < |chain|
    ensures Find(chain, chain[j].key) == Some(chain[j].val)
  {
    if j > 0 {
      assert chain[0].key != chain[j].key;
      FindAt(chain[1..], j - 1);
    }
  }

  lemma {:induction false} FindNone<K, V>(chain: Chain<K, V>, k: K)
    ensures Find(chain, k) == None <==> forall j :: 0 <= j < |chain| ==> chain[j].key != k
  {
    if chain != [] {
      FindNone(chain[1..], k);
      assert forall j :: 0 < j < |chain| ==> chain[j] == chain[1..][j - 1];
    }
  }

  lemma {:induction false} FindWithout<K, V>(chain: Chain<K, V>, j: nat, k: K)
    requires Distinct(chain) && j < |chain|
    ensures Find(chain[..j] + chain[j + 1..], k) == if k == chain[j].key then None else Find(chain, k)
  {
    var rest := chain[..j] + chain[j + 1..];
    if j == 0 {
      assert rest == chain[1..];
      FindNone(rest, chain[0].key);
    } else {
      assert rest[1..] == chain[1..][..j - 1] + chain[1..][j..];
      assert chain[0].key != chain[j].key;
      FindWithout(chain[1..], j - 1, k);
    }
  }

  lemma {:induction false} FindChanged<K, V>(chain: Chain<K, V>, j: nat, v: V, k: K)
    requires Distinct(chain) && j < |chain|
    ensures Find(chain[j := chain[j].(val := v)], k) == if k == chain[j].key then Some(v) else Find(chain, k)
  {
    var changed := chain[j := chain[j].(val := v)];
    if j > 0 {
      assert changed[1..] == chain[1..][j - 1 := chain[j].(val := v)];
      assert chain[0].key != chain[j].key;
      FindChanged(chain[1..], j - 1, v, k);
    } else {
      assert changed[1..] == chain[1..];
    }
  }

  // ----- Tables -----

  /** Bucket `i` holds distinct keys, all of which hash there. */
  ghost predicate ChainOk<K, V>(hash: K -> bv64, exp: nat, i: nat, chain: Chain<K, V>) {
    Distinct(chain) && forall j :: 0 <= j < |chain| ==> Bucket(hash(chain[j].key), exp) == i
  }

  function Get<K(==), V>(m: map<K, V>, k: K): Option<V> {
    if k in m then Some(m[k]) else None
  }

  /** Table `t` stores the map `m`, each key in the bucket its hash selects, and counts it right. */
  ghost predicate Holds<K(!new), V>(hash: K -> bv64, t: Table<K, V>, m: map<K, V>) {
    match t
    case NoTable => m == map[]
    case Table(exp, buckets, used) =>
      && |buckets| == Pow2(exp) && exp >= DICT_HT_INITIAL_EXP && used == |m|
      && (forall i :: 0 <= i < |buckets| ==> ChainOk(hash, exp, i, buckets[i]))
      && (forall k :: Find(buckets[Bucket(hash(k), exp)], k) == Get(m, k))
  }

  lemma HoldsInsert<K(!new), V>(hash: K -> bv64, t: Table<K, V>, m: map<K, V>, e: Entry<K, V>)
    requires t.Table? && Holds(hash, t, m) && e.key !in m
    ensures var i := Bucket(hash(e.key), t.exp);
            Holds(hash, t.Put(i, [e] + t.buckets[i], t.used + 1), m[e.key := e.val])
  {
    var i := Bucket(hash(e.key), t.exp);
    var chain := t.buckets[i];
    var t' := t.Put(i, [e] + chain, t.used + 1);
    var m' := m[e.key := e.val];
    assert Find(chain, e.key) == None;
    FindNone(chain, e.key);
    assert ([e] + chain)[1..] == chain;
    assert ChainOk(hash, t.exp, i, [e] + chain);
    forall k
      ensures Find(t'.buckets[Bucket(hash(k), t.exp)], k) == Get(m', k)
    {
      assert Find(t.buckets[Bucket(hash(k), t.exp)], k) == Get(m, k);
    }
    assert m'.Keys == m.Keys + {e.key};
  }

  lemma HoldsRemove<K(!new), V>(hash: K -> bv64, t: Table<K, V>, m: map<K, V>, i: nat, j: nat)
    requires t.Table? && Holds(hash, t, m) && i < |t.buckets| && j < |t.buckets[i]|
    ensures var chain := t.buckets[i];
            && chain[j].key in m && m[chain[j].key] == chain[j].val && t.used >= 1
            && Holds(hash, t.Put(i, chain[..j] + chain[j + 1..], t.used - 1), m - {chain[j].key})
  {
    var chain := t.buckets[i];
    var e, rest := chain[j], chain[..j] + chain[j + 1..];
    assert ChainOk(hash, t.exp, i, chain);
    FindAt(chain, j);
    assert Find(t.buckets[Bucket(hash(e.key), t.exp)], e.key) == Get(m, e.key);
    var m' := m - {e.key};
    assert m'.Keys == m.Keys - {e.key};
    assert |m| >= 1;
    var t' := t.Put(i, rest, t.used - 1);
    assert ChainOk(hash, t.exp, i, rest);
    forall k
      ensures Find(t'.buckets[Bucket(hash(k), t.exp)], k) == Get(m', k)
    {
      assert Find(t.buckets[Bucket(hash(k), t.exp)], k) == Get(m, k);
      FindWithout(chain, j, k);
    }
  }

  lemma HoldsChange<K(!new), V>(hash: K -> bv64, t: Table<K, V>, m: map<K, V>, i: nat, j: nat, v: V)
    requires t.Table? && Holds(hash, t, m) && i < |t.buckets| && j < |t.buckets[i]|
    ensures var chain := t.buckets[i];
            && chain[j].key in m
            && Holds(hash, t.Put(i, chain[j := chain[j].(val := v)], t.used), m[chain[j].key := v])
  {
    var chain := t.buckets[i];
    var e, changed := chain[j], chain[j := chain[j].(val := v)];
    assert ChainOk(hash, t.exp, i, chain);
    FindAt(chain, j);
    assert Find(t.buckets[Bucket(hash(e.key), t.exp)], e.key) == Get(m, e.key);
    var m' := m[e.key := v];
    assert m'.Keys == m.Keys;
    var t' := t.Put(i, changed, t.used);
    assert ChainOk(hash, t.exp, i, changed);
    forall k
      ensures Find(t'.buckets[Bucket(hash(k), t.exp)], k) == Get(m', k)
    {
      assert Find(t.buckets[Bucket(hash(k), t.exp)], k) == Get(m, k);
      FindChanged(chain, j, v, k);
    }
  }

  lemma HoldsFresh<K(!new), V>(hash: K -> bv64, exp: nat)
    requires exp >= DICT_HT_INITIAL_EXP
    ensures Holds<K, V>(hash, Table(exp, seq(Pow2(exp), _ => []), 0), map[])
  {
  }

  /** A table that holds something has a chain that is not empty. */
  lemma HoldsSomewhere<K(!new), V>(hash: K -> bv64, t: Table<K, V>, m: map<K, V>, k: K)
    requires t.Table? && Holds(hash, t, m) && k in m
    ensures t.buckets[Bucket(hash(k), t.exp)] != []
  {
    assert Find(t.buckets[Bucket(hash(k), t.exp)], k) == Get(m, k);
  }

  lemma SetInFirst<K, V>(m0: map<K, V>, m1: map<K, V>, k: K, v: V)
    requires k !in m1
    ensures m0[k := v] + m1 == (m0 + m1)[k := v]
  {
  }

  lemma SetInSecond<K, V>(m0: map<K, V>, m1: map<K, V>, k: K, v: V)
    ensures m0 + m1[k := v] == (m0 + m1)[k := v]
  {
  }

  lemma DropFromFirst<K, V>(m0: map<K, V>, m1: map<K, V>, k: K)
    requires k !in m1
    ensures (m0 - {k}) + m1 == (m0 + m1) - {k}
  {
  }

  lemma DropFromSecond<K, V>(m0: map<K, V>, m1: map<K, V>, k: K)
    requires k !in m0
    ensures m0 + (m1 - {k}) == (m0 + m1) - {k}
  {
  }

  lemma DropAbsent<K, V>(m: map<K, V>, k: K)
    requires k !in m
    ensures m - {k} == m
  {
  }

  lemma MoveKey<K, V>(m0: map<K, V>, m1: map<K, V>, k: K)
    requires k in m0 && m0.Keys !! m1.Keys
    ensures (m0 - {k}) + m1[k := m0[k]] == m0 + m1
    ensures (m0 - {k}).Keys !! m1[k := m0[k]].Keys
  {
  }

  /** Taking the head off a chain. */
  lemma HoldsBehead<K(!new), V>(hash: K -> bv64, t: Table<K, V>, m: map<K, V>, i: nat)
    requires t.Table? && Holds(hash, t, m) && i < |t.buckets| && t.buckets[i] != []
    ensures var e := t.buckets[i][0];
            && e.key in m && m[e.key] == e.val && t.used >= 1
            && Holds(hash, t.Put(i, t.buckets[i][1..], t.used - 1), m - {e.key})
  {
    hide Holds;
    var chain := t.buckets[i];
    HoldsRemove(hash, t, m, i, 0);
    assert chain[..0] + chain[1..] == chain[1..];
  }

  /** At least one entry a bucket, or more than five where resizing is to be avoided. */
  predicate Crowded<K, V>(t: Table<K, V>, used: nat, canResize: bool) {
    t.Table? && t.Size() > 0 && used >= t.Size() && (canResize || used / t.Size() > DICT_FORCE_RESIZE_RATIO)
  }

  /** The smallest table of at least 4 buckets that has `size` of them. */
  predicate Snug<K, V>(t: Table<K, V>, size: nat) {
    t.Table? && Pow2(t.exp) >= size && t.exp >= DICT_HT_INITIAL_EXP
    && (t.exp > DICT_HT_INITIAL_EXP ==> Pow2(t.exp - 1) < size)
  }

  // ----- The keys of a table, bucket by bucket -----

  function KeysOf<K, V>(chain: Chain<K, V>): (s: seq<K>)
    ensures |s| == |chain| && forall j :: 0 <= j < |chain| ==> s[j] == chain[j].key
  {
    seq(|chain|, j requires 0 <= j < |chain| => chain[j].key)
  }

  function Layout<K, V>(t: Table<K, V>): (s: seq<seq<K>>)
    ensures |s| == if t.NoTable? then 0 else |t.buckets|
    ensures t.Table? ==> forall i :: 0 <= i < |t.buckets| ==> s[i] == KeysOf(t.buckets[i])
  {
    if t.NoTable? then [] else seq(|t.buckets|, i requires 0 <= i < |t.buckets| => KeysOf(t.buckets[i]))
  }

  /** At most the key `k` was put in front of a chain. */
  ghost predicate Prepended<K>(s: seq<seq<K>>, t: seq<seq<K>>, k: K) {
    |t| == |s| && forall i :: 0 <= i < |s| ==> t[i] == s[i] || t[i] == [k] + s[i]
  }

  /** At most the key `k` was taken out of a chain. */
  ghost predicate Removed<K>(s: seq<seq<K>>, t: seq<seq<K>>, k: K) {
    |t| == |s| && forall i :: 0 <= i < |s| ==> t[i] == s[i] || Cut(s[i], t[i], k)
  }

  ghost predicate Cut<K>(s: seq<K>, t: seq<K>, k: K) {
    exists j :: 0 <= j < |s| && s[j] == k && t == s[..j] + s[j + 1..]
  }

  /** No key but `k`. */
  ghost predicate Sprouted<K>(s: seq<seq<K>>, k: K) {
    forall i :: 0 <= i < |s| ==> s[i] == [] || s[i] == [k]
  }

  lemma PrependedSame<K>(s: seq<seq<K>>, k: K)
    ensures Prepended(s, s, k)
  {
  }

  lemma SproutedFrom<K>(s: seq<seq<K>>, t: seq<seq<K>>, k: K)
    requires AllEmpty(s) && Prepended(s, t, k)
    ensures Sprouted(t, k)
  {
    forall i | 0 <= i < |t|
      ensures t[i] == [] || t[i] == [k]
    {
      assert s[i] == [];
    }
  }

  ghost predicate AllEmpty<K>(s: seq<seq<K>>) {
    forall i :: 0 <= i < |s| ==> s[i] == []
  }

  lemma RemovedSame<K>(s: seq<seq<K>>, k: K)
    ensures Removed(s, s, k)
  {
  }

  lemma LayoutPrepended<K, V>(t: Table<K, V>, i: nat, e: Entry<K, V>, n: nat)
    requires t.Table? && i < |t.buckets|
    ensures Prepended(Layout(t), Layout(t.Put(i, [e] + t.buckets[i], n)), e.key)
  {
    assert KeysOf([e] + t.buckets[i]) == [e.key] + KeysOf(t.buckets[i]);
  }

  lemma LayoutRemoved<K, V>(t: Table<K, V>, i: nat, j: nat, n: nat)
    requires t.Table? && i < |t.buckets| && j < |t.buckets[i]|
    ensures Removed(Layout(t), Layout(t.Put(i, t.buckets[i][..j] + t.buckets[i][j + 1..], n)), t.buckets[i][j].key)
  {
    var chain := t.buckets[i];
    var s, r := KeysOf(chain), KeysOf(chain[..j] + chain[j + 1..]);
    assert s[j] == chain[j].key && r == s[..j] + s[j + 1..];
    assert Cut(s, r, chain[j].key);
  }

  lemma LayoutChanged<K, V>(t: Table<K, V>, i: nat, j: nat, v: V, n: nat)
    requires t.Table? && i < |t.buckets| && j < |t.buckets[i]|
    ensures Layout(t.Put(i, t.buckets[i][j := t.buckets[i][j].(val := v)], n)) == Layout(t)
  {
    var chain := t.buckets[i];
    assert KeysOf(chain[j := chain[j].(val := v)]) == KeysOf(chain);
  }

  // ----- The dictionary -----

  class Dict<K(==, !new), V> {
    const hash: K -> bv64
    var ht0: Table<K, V>
    var ht1: Table<K, V>
    var rehashidx: int     // -1 when no rehashing is in progress
    var iterators: nat     // safe iterators that are running
    var canResize: bool    // dict_can_resize
    ghost var m0: map<K, V>
    ghost var m1: map<K, V>

    ghost predicate Valid()
      reads this
    {
      && Holds(hash, ht0, m0) && Holds(hash, ht1, m1) && m0.Keys !! m1.Keys
      && (ht0.Table? ==> ht0.exp <= MAX_EXP) && (ht1.Table? ==> ht1.exp <= MAX_EXP)
      && (rehashidx == -1 ==> ht1.NoTable?)
      && (rehashidx != -1 ==>
            && ht0.Table? && ht1.Table? && 0 <= rehashidx <= |ht0.buckets|
            && forall i :: 0 <= i < rehashidx ==> ht0.buckets[i] == [])
    }

    /** The map that the dictionary stands for. */
    ghost function Contents(): map<K, V>
      reads this
    {
      m0 + m1
    }

    predicate IsRehashing()
      reads this
    {
      rehashidx != -1
    }

    /**
     The expansion that an insertion may start is to at most 2^31 buckets: _dictKeyIndex returns the number
     of a bucket as an int.
     */
    ghost predicate Roomy()
      reads this
    {
      Crowded(if IsRehashing() then ht1 else ht0, |Contents()|, canResize) ==> 2 * |Contents()| <= Pow2(MAX_EXP)
    }

    constructor (hash: K -> bv64)
      ensures Valid() && Contents() == map[] && this.hash == hash && !IsRehashing() && iterators == 0 && canResize
    {
      this.hash := hash;
      ht0, ht1, rehashidx, iterators, canResize := NoTable, NoTable, -1, 0, true;
      m0, m1 := map[], map[];
    }

    /** Empties the bucket at rehashidx into the new table. */
    method MoveBucket()
      requires Valid() && IsRehashing() && rehashidx < |ht0.buckets|
      modifies this`ht0, this`ht1, this`m0, this`m1, this`rehashidx
      ensures Valid() && Contents() == old(Contents()) && rehashidx == old(rehashidx) + 1
      ensures ht0.Table? && ht0.exp == old(ht0.exp) && ht1.Table? && ht1.exp == old(ht1.exp)
      ensures ht0.buckets == old(ht0.buckets)[old(rehashidx) := []]
    {
      hide Holds;
      ht0, ht1, m0, m1 := MoveChain(hash, ht0, ht1, rehashidx, m0, m1);
      rehashidx := rehashidx + 1;
    }

    /** The old table is empty: the new one takes its place. */
    method FinishRehash()
      requires Valid() && IsRehashing() && ht0.Used() == 0
      modifies this`ht0, this`ht1, this`m0, this`m1, this`rehashidx
      ensures Valid() && Contents() == old(Contents()) && !IsRehashing() && ht0 == old(ht1)
    {
      hide Holds;
      HoldsShape(hash, ht0, m0);
      assert m0 == map[];
      assert m0 + m1 == m1;
      ht0 := ht1;
      m0, m1 := m1, map[];
      assert m0 + m1 == m0;
      ht1 := NoTable;
      NoTableHolds(hash, m1);
      rehashidx := -1;
    }

    /**
     Skips empty buckets up to the next one to move. The search stays inside the table because
     entries remain in it.
     */
    method SkipEmpty()
      requires Valid() && IsRehashing() && ht0.Used() > 0
      modifies this`rehashidx
      ensures Valid() && IsRehashing() && old(rehashidx) <= rehashidx < |ht0.buckets|
    {
      hide Holds;
      ghost var last := Occupied(hash, ht0, m0, rehashidx);
      while ht0.buckets[rehashidx] == []
        invariant Valid() && old(rehashidx) <= rehashidx <= last
        decreases last - rehashidx
      {
        rehashidx := rehashidx + 1;
      }
    }

    /** dictRehash: up to `n` buckets are moved; false when the dictionary is not rehashing any more. */
    method Rehash(n: nat) returns (more: bool)
      requires Valid()
      modifies this`ht0, this`ht1, this`m0, this`m1, this`rehashidx
      ensures Valid() && Contents() == old(Contents())
      ensures more == IsRehashing()
      ensures more ==> old(IsRehashing()) && rehashidx >= old(rehashidx) + n
      ensures more ==> ht0.Size() == old(ht0.Size()) && ht1.Size() == old(ht1.Size())
      ensures !more && old(IsRehashing()) ==> ht0.Size() == old(ht1.Size())
      ensures old(ht0).Table? ==> ht0.Table?
      ensures !old(IsRehashing()) ==> unchanged(this)
    {
      hide Holds;
      if !IsRehashing() {
        return false;
      }
      var left := n;
      while left > 0
        invariant Valid() && IsRehashing() && Contents() == old(Contents()) && left <= n
        invariant rehashidx >= old(rehashidx) + (n - left)
        invariant ht0.Size() == old(ht0.Size()) && ht1.Size() == old(ht1.Size())
      {
        left := left - 1;
        if ht0.Used() == 0 {
          FinishRehash();
          return false;
        }
        SkipEmpty();
        MoveBucket();
      }
      return true;
    }

    /** _dictRehashStep: one bucket, unless a safe iterator is running. */
    method RehashStep()
      requires Valid()
      modifies this`ht0, this`ht1, this`m0, this`m1, this`rehashidx
      ensures Valid() && Contents() == old(Contents())
      ensures iterators > 0 ==> unchanged(this)
      ensures iterators == 0 && old(IsRehashing()) && IsRehashing() ==> rehashidx > old(rehashidx)
      ensures old(IsRehashing()) && !IsRehashing() ==> ht0.Size() == old(ht1.Size())
      ensures old(ht0).Table? ==> ht0.Table?
    {
      if iterators == 0 {
        var more := Rehash(1);
      }
    }

    /** dictExpand: creates the first table, or starts rehashing into a new one. */
    method Expand(size: nat) returns (ok: bool)
      requires Valid() && size <= Pow2(MAX_EXP)
      modifies this`ht0, this`ht1, this`rehashidx
      ensures Valid() && Contents() == old(Contents())
      ensures ok == (!old(IsRehashing()) && old(ht0).Used() <= size)
      ensures !ok ==> unchanged(this)
      ensures ok ==> ht0.Table?
      ensures ok && old(ht0).NoTable? ==> !IsRehashing() && Snug(ht0, size)
      ensures ok && old(ht0).Table? ==> ht0 == old(ht0) && rehashidx == 0 && Snug(ht1, size)
      ensures ok && old(ht0).Table? ==> AllEmpty(Layout(ht1))
    {
      hide Holds, Pow2, Snug, AllEmpty, Layout;
      var n: Table<K, V> := NewTable(hash, size);
      if IsRehashing() || ht0.Used() > size {
        return false;
      }
      NoTableEmpty(hash, ht1, m1);
      if ht0.NoTable? {
        NoTableEmpty(hash, ht0, m0);
        ht0 := n;
        return true;
      }
      ht1 := n;
      rehashidx := 0;
      return true;
    }

    /** dictResize: to the smallest table that holds what is there. */
    method Resize() returns (ok: bool)
      requires Valid() && |Contents()| <= Pow2(MAX_EXP)
      modifies this`ht0, this`ht1, this`rehashidx
      ensures Valid() && Contents() == old(Contents())
      ensures ok == (canResize && !old(IsRehashing()))
      ensures ok && old(ht0).Table? ==> ht0 == old(ht0) && rehashidx == 0 && ht1.Table?
      ensures ok ==> Snug(if old(ht0).Table? then ht1 else ht0, if old(|Contents()|) < 4 then 4 else old(|Contents()|))
    {
      hide Holds;
      if !canResize || IsRehashing() {
        return false;
      }
      HoldsShape(hash, ht0, m0);
      HoldsShape(hash, ht1, m1);
      assert m1 == map[] && m0 + m1 == m0;
      Pow2Grows(2, MAX_EXP);
      var minimal := ht0.Used();
      if minimal < 4 {
        minimal := 4;
      }
      ok := Expand(minimal);
    }

    /** _dictExpandIfNeeded: the first table, or an expansion exactly when the table is crowded. */
    method ExpandIfNeeded()
      requires Valid() && (!IsRehashing() ==> Roomy())
      modifies this`ht0, this`ht1, this`rehashidx
      ensures Valid() && Contents() == old(Contents()) && ht0.Table?
      ensures old(IsRehashing()) ==> unchanged(this)
      ensures old(ht0).Table? ==> ht0 == old(ht0)
      ensures old(ht0).Table? && !old(IsRehashing()) ==> (IsRehashing() <==> Crowded(ht0, ht0.Used(), canResize))
      ensures old(ht0).Table? && !old(IsRehashing()) && IsRehashing() ==>
        AllEmpty(Layout(ht1)) && Snug(ht1, 2 * ht0.Used())
    {
      hide Holds;
      if IsRehashing() {
        return;
      }
      HoldsShape(hash, ht0, m0);
      NoTableEmpty(hash, ht1, m1);
      assert m0 + m1 == m0;
      LargestSize();
      hide Pow2, AllEmpty, Layout, Snug;
      if ht0.Size() == 0 {
        var ok := Expand(4);
        return;
      }
      if ht0.Used() >= ht0.Size() && (canResize || ht0.Used() / ht0.Size() > DICT_FORCE_RESIZE_RATIO) {
        var ok := Expand(ht0.Used() * 2);
      }
    }

    /** The search in the first table and then, while rehashing, in the second. */
    method Locate(key: K) returns (found: bool, second: bool, i: nat, j: nat)
      requires Valid() && ht0.Table?
      ensures found <==> key in Contents()
      ensures !found ==> i == Bucket(hash(key), if IsRehashing() then ht1.exp else ht0.exp)
      ensures found && second ==> IsRehashing()
      ensures found ==>
                var t := if second then ht1 else ht0;
                i < |t.buckets| && j < |t.buckets[i]| && t.buckets[i][j] == Entry(key, Contents()[key])
      ensures found ==> if second then key in m1 && key !in m0 else key in m0 && key !in m1
    {
      hide Holds;
      second := false;
      found, i, j := SearchTable(hash, ht0, key, m0);
      if found || !IsRehashing() {
        HoldsShape(hash, ht1, m1);
        return;
      }
      second := true;
      found, i, j := SearchTable(hash, ht1, key, m1);
    }

    /** dictFind. */
    method Lookup(key: K) returns (val: Option<V>)
      requires Valid()
      modifies this`ht0, this`ht1, this`m0, this`m1, this`rehashidx
      ensures Valid() && Contents() == old(Contents())
      ensures val == Get(Contents(), key)
      ensures iterators > 0 ==> unchanged(this)
    {
      hide Holds;
      NoEntries();
      if ht0.Size() == 0 {
        return None;
      }
      if IsRehashing() {
        RehashStep();
      }
      var found, second, i, j := Locate(key);
      if found {
        return Some((if second then ht1 else ht0).buckets[i][j].val);
      }
      return None;
    }

    /**
     What an insertion of `key` does to a dictionary that a safe iterator holds still: at most one chain gets a new
     head, and the new table of an expansion that starts now holds nothing else.
     */
    twostate predicate Grown(key: K)
      requires old(ht0).Table?
      reads this
    {
      && ht0.Table? && Prepended(Layout(old(ht0)), Layout(ht0), key)
      && (old(IsRehashing()) ==> IsRehashing() && Prepended(Layout(old(ht1)), Layout(ht1), key))
      && (!old(IsRehashing()) && IsRehashing() ==> Sprouted(Layout(ht1), key))
    }

    /** No key moved; if an expansion starts now, its table is empty. */
    twostate predicate Held()
      requires old(ht0).Table?
      reads this
    {
      && ht0.Table? && Layout(ht0) == Layout(old(ht0))
      && (old(IsRehashing()) ==> IsRehashing() && Layout(ht1) == Layout(old(ht1)))
      && (!old(IsRehashing()) && IsRehashing() ==> AllEmpty(Layout(ht1)))
    }

    /** dictAdd: fails exactly on a key that is present. */
    method Add(key: K, val: V) returns (ok: bool)
      requires Valid() && Roomy()
      modifies this`ht0, this`ht1, this`m0, this`m1, this`rehashidx
      ensures Valid()
      ensures ok == (key !in old(Contents()))
      ensures Contents() == if ok then old(Contents())[key := val] else old(Contents())
      ensures iterators > 0 && old(ht0).Table? ==> Grown(key) && (!ok ==> Held())
    {
      hide Valid, Contents, Holds, Prepended, Layout, AllEmpty, Sprouted, Bucket, Pow2;
      Prepare();
      ghost var s0, s1 := Layout(ht0), Layout(ht1);
      PrependedSame(s0, key);
      PrependedSame(s1, key);
      var found, second, index, j := Locate(key);
      if !found {
        AddEntry(index, key, val);
      }
      if AllEmpty(s1) {
        SproutedFrom(s1, Layout(ht1), key);
      }
      return !found;
    }

    /** The rehash step and the expansion that come before an insertion. */
    method Prepare()
      requires Valid() && Roomy()
      modifies this`ht0, this`ht1, this`m0, this`m1, this`rehashidx
      ensures Valid() && Contents() == old(Contents()) && ht0.Table?
      ensures iterators > 0 && old(ht0).Table? ==> ht0 == old(ht0)
      ensures iterators > 0 && old(IsRehashing()) ==> IsRehashing() && ht1 == old(ht1)
      ensures iterators > 0 && old(ht0).Table? && !old(IsRehashing()) && IsRehashing() ==> AllEmpty(Layout(ht1))
    {
      hide Holds, Layout, AllEmpty;
      if IsRehashing() {
        RehashStep();
      }
      ExpandIfNeeded();
    }

    /** The new entry goes to the head of its chain, in the new table while rehashing. */
    method AddEntry(index: nat, key: K, val: V)
      requires Valid() && ht0.Table? && key !in Contents()
      requires index == Bucket(hash(key), if IsRehashing() then ht1.exp else ht0.exp)
      modifies this`ht0, this`ht1, this`m0, this`m1
      ensures Valid() && Contents() == old(Contents())[key := val] && ht0.Table?
      ensures Prepended(Layout(old(ht0)), Layout(ht0), key) && Prepended(Layout(old(ht1)), Layout(ht1), key)
    {
      hide Holds, Prepended, Layout, Bucket;
      PrependedSame(Layout(ht0), key);
      PrependedSame(Layout(ht1), key);
      if IsRehashing() {
        InsertSecond(index, key, val);
      } else {
        InsertFirst(index, key, val);
      }
    }

    method InsertFirst(index: nat, key: K, val: V)
      requires Valid() && ht0.Table? && key !in Contents() && !IsRehashing()
      requires index == Bucket(hash(key), ht0.exp)
      modifies this`ht0, this`m0
      ensures Valid() && Contents() == old(Contents())[key := val]
      ensures ht0.Table? && Prepended(Layout(old(ht0)), Layout(ht0), key)
    {
      hide Holds, Bucket, Prepended;
      HoldsShape(hash, ht0, m0);
      BucketBound(hash(key), ht0.exp);
      LayoutPrepended(ht0, index, Entry(key, val), ht0.used + 1);
      HoldsInsert(hash, ht0, m0, Entry(key, val));
      SetInFirst(m0, m1, key, val);
      ht0 := ht0.Put(index, [Entry(key, val)] + ht0.buckets[index], ht0.used + 1);
      m0 := m0[key := val];
    }

    method InsertSecond(index: nat, key: K, val: V)
      requires Valid() && ht1.Table? && key !in Contents()
      requires index == Bucket(hash(key), ht1.exp)
      modifies this`ht1, this`m1
      ensures Valid() && Contents() == old(Contents())[key := val]
      ensures ht1.Table? && Prepended(Layout(old(ht1)), Layout(ht1), key)
    {
      hide Holds, Bucket, Prepended;
      HoldsShape(hash, ht1, m1);
      BucketBound(hash(key), ht1.exp);
      LayoutPrepended(ht1, index, Entry(key, val), ht1.used + 1);
      HoldsInsert(hash, ht1, m1, Entry(key, val));
      SetInSecond(m0, m1, key, val);
      ht1 := ht1.Put(index, [Entry(key, val)] + ht1.buckets[index], ht1.used + 1);
      m1 := m1[key := val];
    }

    /** The entry that was located gets another value. */
    method SetVal(second: bool, i: nat, j: nat, val: V)
      requires Valid() && (if second then ht1.Table? else ht0.Table?)
      requires var t := if second then ht1 else ht0; i < |t.buckets| && j < |t.buckets[i]|
      modifies this`ht0, this`ht1, this`m0, this`m1
      ensures Valid()
      ensures var key := (if second then old(ht1) else old(ht0)).buckets[i][j].key;
              Contents() == old(Contents())[key := val]
      ensures Layout(ht0) == Layout(old(ht0)) && Layout(ht1) == Layout(old(ht1)) && (old(ht0).Table? ==> ht0.Table?)
    {
      hide Holds, Bucket, Layout;
      if second {
        var chain := ht1.buckets[i];
        HoldsChange(hash, ht1, m1, i, j, val);
        LayoutChanged(ht1, i, j, val, ht1.used);
        ht1 := ht1.Put(i, chain[j := chain[j].(val := val)], ht1.used);
        SetInSecond(m0, m1, chain[j].key, val);
        m1 := m1[chain[j].key := val];
      } else {
        var chain := ht0.buckets[i];
        EmptyStays(i);
        HoldsChange(hash, ht0, m0, i, j, val);
        LayoutChanged(ht0, i, j, val, ht0.used);
        ht0 := ht0.Put(i, chain[j := chain[j].(val := val)], ht0.used);
        SetInFirst(m0, m1, chain[j].key, val);
        m0 := m0[chain[j].key := val];
      }
    }

    lemma EmptyStays(i: nat)
      requires Valid() && ht0.Table? && i < |ht0.buckets| && ht0.buckets[i] != []
      ensures IsRehashing() ==> i >= rehashidx
    {
    }

    /** An entry of the old table is unlinked. */
    method UnlinkFirst(i: nat, j: nat)
      requires Valid() && ht0.Table? && i < |ht0.buckets| && j < |ht0.buckets[i]|
      modifies this`ht0, this`m0
      ensures Valid() && Contents() == old(Contents()) - {old(ht0).buckets[i][j].key}
      ensures ht0.Table? && Removed(Layout(old(ht0)), Layout(ht0), old(ht0).buckets[i][j].key)
    {
      hide Holds, Bucket, Removed;
      var chain := ht0.buckets[i];
      EmptyStays(i);
      HoldsRemove(hash, ht0, m0, i, j);
      LayoutRemoved(ht0, i, j, ht0.used - 1);
      DropFromFirst(m0, m1, chain[j].key);
      ht0 := ht0.Put(i, chain[..j] + chain[j + 1..], ht0.used - 1);
      m0 := m0 - {chain[j].key};
    }

    /** An entry of the new table is unlinked. */
    method UnlinkSecond(i: nat, j: nat)
      requires Valid() && ht1.Table? && i < |ht1.buckets| && j < |ht1.buckets[i]|
      modifies this`ht1, this`m1
      ensures Valid() && Contents() == old(Contents()) - {old(ht1).buckets[i][j].key}
      ensures Removed(Layout(old(ht1)), Layout(ht1), old(ht1).buckets[i][j].key)
    {
      hide Holds, Bucket, Removed;
      var chain := ht1.buckets[i];
      HoldsRemove(hash, ht1, m1, i, j);
      LayoutRemoved(ht1, i, j, ht1.used - 1);
      DropFromSecond(m0, m1, chain[j].key);
      ht1 := ht1.Put(i, chain[..j] + chain[j + 1..], ht1.used - 1);
      m1 := m1 - {chain[j].key};
    }

    /** dictReplace: true when the key is new, false when only its value changed. */
    method Replace(key: K, val: V) returns (added: bool)
      requires Valid() && Roomy()
      modifies this`ht0, this`ht1, this`m0, this`m1, this`rehashidx
      ensures Valid() && added == (key !in old(Contents()))
      ensures Contents() == old(Contents())[key := val]
      ensures iterators > 0 && old(ht0).Table? ==> Grown(key) && (!added ==> Held())
    {
      hide Valid, Contents, Holds, Prepended, Layout, AllEmpty, Sprouted, Bucket, Pow2;
      added := Add(key, val);
      if !added {
        Overwrite(key, val);
      }
    }

    /** The part of dictReplace for a key that is present. */
    method Overwrite(key: K, val: V)
      requires Valid() && key in Contents()
      modifies this`ht0, this`ht1, this`m0, this`m1, this`rehashidx
      ensures Valid() && Contents() == old(Contents())[key := val]
      ensures iterators > 0 ==>
        && rehashidx == old(rehashidx) && (old(ht0).Table? ==> ht0.Table?)
        && Layout(ht0) == Layout(old(ht0)) && Layout(ht1) == Layout(old(ht1))
    {
      hide Valid, Contents, Holds, Layout, Bucket, Pow2;
      HasTable(key);
      if IsRehashing() {
        RehashStep();
      }
      var found, second, i, j := Locate(key);
      SecondExists(second);
      SetVal(second, i, j, val);
    }

    lemma HasTable(key: K)
      requires Valid() && key in Contents()
      ensures ht0.Table?
    {
    }

    lemma SecondExists(second: bool)
      requires Valid() && (second ==> IsRehashing())
      ensures second ==> ht1.Table?
    {
    }

    lemma NoEntries()
      requires Valid()
      ensures ht0.Size() == 0 ==> Contents() == map[]
    {
    }

    /** dictDelete: fails exactly on a key that is absent. */
    method Delete(key: K) returns (ok: bool)
      requires Valid()
      modifies this`ht0, this`ht1, this`m0, this`m1, this`rehashidx
      ensures Valid() && ok == (key in old(Contents()))
      ensures Contents() == old(Contents()) - {key}
      ensures iterators > 0 ==>
        && rehashidx == old(rehashidx) && (old(ht0).Table? ==> ht0.Table?)
        && Removed(Layout(old(ht0)), Layout(ht0), key) && Removed(Layout(old(ht1)), Layout(ht1), key)
    {
      hide Holds, Bucket, Removed, Layout;
      RemovedSame(Layout(ht0), key);
      RemovedSame(Layout(ht1), key);
      if key !in Contents() {
        DropAbsent(Contents(), key);
      }
      NoEntries();
      if ht0.Size() == 0 {
        return false;
      }
      if IsRehashing() {
        RehashStep();
      }
      var found, second, i, j := Locate(key);
      if found {
        if second {
          UnlinkSecond(i, j);
        } else {
          UnlinkFirst(i, j);
        }
      }
      return found;
    }
  }

  /** The new table of an expansion. */
  method NewTable<K(==, !new), V>(hash: K -> bv64, size: nat) returns (n: Table<K, V>)
    requires size <= Pow2(MAX_EXP)
    ensures Snug(n, size) && n.exp <= MAX_EXP && Holds(hash, n, map[]) && AllEmpty(Layout(n))
  {
    var realsize, exp := NextPower(size);
    SizeFits(size, exp);
    n := Table(exp, seq(realsize, _ => []), 0);
    HoldsFresh<K, V>(hash, exp);
  }

  lemma NoTableEmpty<K(!new), V>(hash: K -> bv64, t: Table<K, V>, m: map<K, V>)
    requires Holds(hash, t, m)
    ensures t.NoTable? ==> m == map[]
  {
  }

  const LONG_MAX := 0x7FFF_FFFF_FFFF_FFFF

  /** _dictNextPower: the smallest power of two, from 4 upwards, that is at least `size`. */
  method NextPower(size: nat) returns (i: nat, exp: nat)
    ensures size >= LONG_MAX ==> i == LONG_MAX
    ensures size < LONG_MAX ==>
      && i == Pow2(exp) >= size && exp >= DICT_HT_INITIAL_EXP
      && (exp > DICT_HT_INITIAL_EXP ==> Pow2(exp - 1) < size)
  {
    i, exp := 4, DICT_HT_INITIAL_EXP;
    assert Pow2(2) == 4;
    if size >= LONG_MAX {
      return LONG_MAX, exp;
    }
    while i < size
      invariant i == Pow2(exp) && exp >= DICT_HT_INITIAL_EXP
      invariant exp > DICT_HT_INITIAL_EXP ==> Pow2(exp - 1) < size
      decreases size - i
    {
      i, exp := i * 2, exp + 1;
    }
  }

  lemma LargestSize()
    ensures Pow2(MAX_EXP) == 0x8000_0000
  {
    assert Pow2(8) == 0x100;
    assert Pow2(16) == 0x1_0000;
    assert Pow2(24) == 0x100_0000;
  }

  lemma SizeFits(size: nat, exp: nat)
    requires size <= Pow2(MAX_EXP)
    ensures size < LONG_MAX
    ensures exp > MAX_EXP ==> Pow2(exp - 1) >= size
  {
    LargestSize();
    if exp > MAX_EXP {
      Pow2Grows(MAX_EXP, exp - 1);
    }
  }

  /** Entries that are left in a table are in or after the first bucket that is not known to be empty. */
  ghost function Occupied<K(!new), V>(hash: K -> bv64, t: Table<K, V>, m: map<K, V>, from: nat): (i: nat)
    requires t.Table? && Holds(hash, t, m) && t.used > 0 && from <= |t.buckets|
    requires forall i :: 0 <= i < from ==> t.buckets[i] == []
    ensures from <= i < |t.buckets| && t.buckets[i] != []
  {
    assert m != map[];
    var k :| k in m;
    HoldsSomewhere(hash, t, m, k);
    Bucket(hash(k), t.exp)
  }

  lemma NoTableHolds<K(!new), V>(hash: K -> bv64, m: map<K, V>)
    requires m == map[]
    ensures Holds<K, V>(hash, NoTable, m)
  {
  }

  /** Walks down the chain that `key` hashes to. */
  method SearchTable<K(==, !new), V>(hash: K -> bv64, t: Table<K, V>, key: K, ghost m: map<K, V>)
    returns (found: bool, i: nat, j: nat)
    requires t.Table? && Holds(hash, t, m)
    ensures |t.buckets| == Pow2(t.exp) && i == Bucket(hash(key), t.exp)
    ensures found <==> key in m
    ensures found ==> j < |t.buckets[i]| && t.buckets[i][j] == Entry(key, m[key])
  {
    i, j := Bucket(hash(key), t.exp), 0;
    var he := t.buckets[i];
    assert Find(he, key) == Get(m, key);
    FindNone(he, key);
    while j < |he|
      invariant 0 <= j <= |he|
      invariant forall l :: 0 <= l < j ==> he[l].key != key
    {
      if he[j].key == key {
        assert ChainOk(hash, t.exp, i, he);
        FindAt(he, j);
        return true, i, j;
      }
      j := j + 1;
    }
    return false, i, j;
  }

  /** Moves the entries of one bucket, one by one, to the heads of their chains in the other table. */
  method MoveChain<K(==, !new), V>(hash: K -> bv64, from: Table<K, V>, to: Table<K, V>, r: nat, ghost m0: map<K, V>,
                     ghost m1: map<K, V>)
    returns (from': Table<K, V>, to': Table<K, V>, ghost m0': map<K, V>, ghost m1': map<K, V>)
    requires from.Table? && to.Table? && r < |from.buckets|
    requires Holds(hash, from, m0) && Holds(hash, to, m1) && m0.Keys !! m1.Keys
    ensures from'.Table? && from'.exp == from.exp && to'.Table? && to'.exp == to.exp
    ensures from'.buckets == from.buckets[r := []]
    ensures Holds(hash, from', m0') && Holds(hash, to', m1') && m0'.Keys !! m1'.Keys && m0' + m1' == m0 + m1
  {
    hide Holds, Bucket;
    from', to', m0', m1' := from, to, m0, m1;
    var de := from.buckets[r];
    assert from'.Put(r, de, from'.used) == from';
    while de != []
      invariant from'.Table? && to'.Table? && from'.exp == from.exp && to'.exp == to.exp
      invariant from'.buckets == from.buckets
      invariant Holds(hash, from'.Put(r, de, from'.used), m0') && Holds(hash, to', m1')
      invariant m0'.Keys !! m1'.Keys && m0' + m1' == m0 + m1
      decreases |de|
    {
      ghost var view := from'.Put(r, de, from'.used);
      HoldsBehead(hash, view, m0', r);
      HoldsShape(hash, to', m1');
      BucketBound(hash(de[0].key), to'.exp);
      HoldsInsert(hash, to', m1', de[0]);
      MoveKey(m0', m1', de[0].key);
      var nextde := de[1..];
      var h := Bucket(hash(de[0].key), to'.exp);
      m0', m1' := m0' - {de[0].key}, m1'[de[0].key := de[0].val];
      to' := to'.Put(h, [de[0]] + to'.buckets[h], to'.used + 1);
      from' := from'.(used := from'.used - 1);
      assert view.Put(r, nextde, view.used - 1) == from'.Put(r, nextde, from'.used);
      de := nextde;
    }
    from' := from'.Put(r, [], from'.used);
  }

  lemma BucketBound(v: bv64, k: nat)
    ensures Bucket(v, k) < Pow2(k)
  {
  }

  lemma HoldsShape<K(!new), V>(hash: K -> bv64, t: Table<K, V>, m: map<K, V>)
    requires Holds(hash, t, m)
    ensures t.Used() == |m|
    ensures t.Table? ==> |t.buckets| == Pow2(t.exp) && t.used == |m| && t.exp >= DICT_HT_INITIAL_EXP
  {
  }
}
