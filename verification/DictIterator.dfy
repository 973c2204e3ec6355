/**
 Safe iterators (dictGetSafeIterator, dictNext). While one runs the dictionary does not rehash, and its user may
 find, add and replace entries and delete the one that was returned last. Entries are named by their keys.
 */
module DictIterator {
  import opened Bits64
  import opened Dict
  import opened Wrappers

  // ----- What an iterator has still to return -----

  /** The chain from the entry with key `k` on. */
  function Suffix<K(==)>(s: seq<K>, k: K): (r: seq<K>)
    ensures forall x :: x in r ==> x in s
  {
    if s == [] then [] else if s[0] == k then s else Suffix(s[1..], k)
  }

  lemma SuffixPrepend<K>(s: seq<K>, x: K, k: K)
    requires x != k
    ensures Suffix([x] + s, k) == Suffix(s, k)
  {
    assert ([x] + s)[1..] == s;
  }

  /** Taking out an entry in front of `k` leaves the rest of the chain. */
  lemma {:induction false} SuffixCut<K>(s: seq<K>, j: nat, k: K)
    requires j < |s| && s[j] !in Suffix(s, k)
    ensures Suffix(s[..j] + s[j + 1..], k) == Suffix(s, k)
  {
    var t := s[..j] + s[j + 1..];
    if s[0] == k {
    } else if j == 0 {
      assert t == s[1..];
    } else {
      assert t[0] == s[0] && t[1..] == s[1..][..j - 1] + s[1..][j..];
      SuffixCut(s[1..], j - 1, k);
    }
  }

  /** The suffix at `k` is `k` and the suffix at the entry behind it. */
  lemma {:induction false} SuffixNext<K>(s: seq<K>, k: K)
    requires NoDuplicates(s) && k in s
    ensures var r := Suffix(s, k);
            && r != [] && r[0] == k && k !in r[1..] && (|r| > 1 ==> Suffix(s, r[1]) == r[1..])
  {
    if s[0] == k {
      assert forall x :: x in s[1..] ==> x != k;
      if |s| > 1 {
        assert Suffix(s, s[1]) == Suffix(s[1..], s[1]);
      }
    } else {
      assert forall x :: x in s ==> x == s[0] || x in s[1..];
      SuffixNext(s[1..], k);
      var r := Suffix(s, k);
      assert r == Suffix(s[1..], k);
      if |r| > 1 {
        assert r[1] in s[1..];
        assert Suffix(s, r[1]) == Suffix(s[1..], r[1]);
      }
    }
  }

  ghost predicate Somewhere<K>(l: seq<seq<K>>, from: int, k: K) {
    exists i :: from <= i < |l| && 0 <= i && k in l[i]
  }

  /** The keys of both tables, and a position: after it come the chain from `next` on and all later buckets. */
  datatype View<K> = View(l0: seq<seq<K>>, l1: seq<seq<K>>, rehashing: bool, second: bool, index: int,
                          next: Option<K>) {
    function Current(): seq<seq<K>> { if second then l1 else l0 }
  }

  ghost predicate Pending<K>(v: View<K>, k: K) {
    || Somewhere(v.Current(), v.index + 1, k)
    || (v.next.Some? && 0 <= v.index < |v.Current()| && k in Suffix(v.Current()[v.index], v.next.value))
    || (!v.second && v.rehashing && Somewhere(v.l1, 0, k))
  }

  /** No key is in two places. */
  ghost predicate Unique<K>(l0: seq<seq<K>>, l1: seq<seq<K>>) {
    && (forall i :: 0 <= i < |l0| ==> NoDuplicates(l0[i]))
    && (forall i :: 0 <= i < |l1| ==> NoDuplicates(l1[i]))
    && (forall i, j, k :: 0 <= i < |l0| && 0 <= j < |l0| && k in l0[i] && k in l0[j] ==> i == j)
    && (forall i, j, k :: 0 <= i < |l1| && 0 <= j < |l1| && k in l1[i] && k in l1[j] ==> i == j)
    && (forall i, j, k :: 0 <= i < |l0| && 0 <= j < |l1| && k in l0[i] ==> k !in l1[j])
  }

  ghost predicate InView<K>(v: View<K>) {
    && (v.second ==> v.rehashing) && -1 <= v.index
    && (v.next.Some? ==> 0 <= v.index < |v.Current()| && v.next.value in v.Current()[v.index])
  }

  // ----- Steps of the iterator -----

  function Head<K>(s: seq<K>): Option<K> { if s == [] then None else Some(s[0]) }

  lemma SuffixHead<K>(s: seq<K>)
    requires s != []
    ensures Suffix(s, s[0]) == s
  {
  }

  /** On to the next bucket. */
  lemma NextBucket<K>(v: View<K>, k: K)
    requires InView(v) && v.next == None && v.index + 1 < |v.Current()|
    ensures var w := v.(index := v.index + 1, next := Head(v.Current()[v.index + 1]));
            InView(w) && (Pending(w, k) <==> Pending(v, k))
  {
    var i := v.index + 1;
    var chain := v.Current()[i];
    if chain != [] {
      SuffixHead(chain);
    }
    assert Somewhere(v.Current(), i, k) <==> k in chain || Somewhere(v.Current(), i + 1, k);
  }

  /** From the end of the first table to the start of the second. */
  lemma NextTable<K>(v: View<K>, k: K)
    requires InView(v) && v.next == None && v.index + 1 >= |v.l0| && !v.second && v.rehashing && |v.l1| > 0
    ensures var w := v.(second := true, index := 0, next := Head(v.l1[0]));
            InView(w) && (Pending(w, k) <==> Pending(v, k))
  {
    if v.l1[0] != [] {
      SuffixHead(v.l1[0]);
    }
    assert Somewhere(v.l1, 0, k) <==> k in v.l1[0] || Somewhere(v.l1, 1, k);
  }

  /** Nothing is left at the end. */
  lemma Finished<K>(v: View<K>, k: K)
    requires v.next == None && v.index + 1 >= |v.Current()| && (v.second || !v.rehashing)
    ensures !Pending(v, k)
  {
  }

  function Behind<K(==)>(s: seq<K>, e: K): Option<K> {
    var r := Suffix(s, e);
    if |r| > 1 then Some(r[1]) else None
  }

  /** Returning an entry takes it, and only it, off what is pending. */
  lemma Take<K>(v: View<K>, k: K)
    requires InView(v) && v.next.Some? && Unique(v.l0, v.l1)
    ensures var e := v.next.value;
            var w := v.(next := Behind(v.Current()[v.index], e));
            InView(w) && (Pending(v, k) <==> k == e || Pending(w, k)) && !Pending(w, e)
  {
    var chain, e := v.Current()[v.index], v.next.value;
    SuffixNext(chain, e);
    var r := Suffix(chain, e);
    assert k in r <==> k == e || k in r[1..];
    if |r| > 1 {
      assert r[1] in chain;
    }
  }

  // ----- Steps of its user -----

  lemma GrownSomewhere<K>(s: seq<seq<K>>, t: seq<seq<K>>, x: K, from: int, k: K)
    requires Prepended(s, t, x) && k != x
    ensures Somewhere(t, from, k) <==> Somewhere(s, from, k)
  {
  }

  /** Adding `x` changes nothing for the other keys. */
  lemma GrownPending<K>(v: View<K>, w: View<K>, x: K, k: K)
    requires InView(v) && w == v.(l0 := w.l0, l1 := w.l1, rehashing := w.rehashing) && k != x && v.next != Some(x)
    requires Prepended(v.l0, w.l0, x) && (v.rehashing ==> w.rehashing && Prepended(v.l1, w.l1, x))
    requires !v.rehashing && w.rehashing ==> Sprouted(w.l1, x)
    ensures InView(w) && (Pending(w, k) <==> Pending(v, k))
  {
    hide Suffix;
    GrownSomewhere(v.l0, w.l0, x, v.index + 1, k);
    if v.rehashing {
      GrownSomewhere(v.l1, w.l1, x, v.index + 1, k);
      GrownSomewhere(v.l1, w.l1, x, 0, k);
    }
    if v.next.Some? {
      assert w.Current()[v.index] == v.Current()[v.index] || w.Current()[v.index] == [x] + v.Current()[v.index];
      SuffixPrepend(v.Current()[v.index], x, v.next.value);
    }
  }

  /** An insertion that fails leaves all keys where they are. */
  lemma HeldPending<K>(v: View<K>, w: View<K>, k: K)
    requires InView(v) && w == v.(l1 := w.l1, rehashing := w.rehashing)
    requires v.rehashing ==> w.rehashing && w.l1 == v.l1
    requires !v.rehashing && w.rehashing ==> AllEmpty(w.l1)
    ensures InView(w) && (Pending(w, k) <==> Pending(v, k))
  {
  }

  lemma CutSomewhere<K>(s: seq<seq<K>>, t: seq<seq<K>>, x: K, from: int, k: K)
    requires Removed(s, t, x) && k != x
    ensures Somewhere(t, from, k) <==> Somewhere(s, from, k)
  {
    forall i | 0 <= i < |s|
      ensures k in t[i] <==> k in s[i]
    {
      if t[i] != s[i] {
        CutMembers(s[i], t[i], x, k);
      }
    }
  }

  lemma CutMembers<K>(s: seq<K>, t: seq<K>, x: K, k: K)
    requires Cut(s, t, x) && k != x
    ensures k in t <==> k in s
  {
    var j :| 0 <= j < |s| && s[j] == x && t == s[..j] + s[j + 1..];
    assert s == s[..j] + [x] + s[j + 1..];
  }

  /** Deleting `x`, which is not pending, changes nothing for the other keys. */
  lemma RemovedPending<K>(v: View<K>, w: View<K>, x: K, k: K)
    requires InView(v) && w == v.(l0 := w.l0, l1 := w.l1) && !Pending(v, x) && k != x && v.next != Some(x)
    requires Removed(v.l0, w.l0, x) && Removed(v.l1, w.l1, x)
    ensures InView(w) && (Pending(w, k) <==> Pending(v, k))
  {
    hide Suffix;
    CutSomewhere(v.l0, w.l0, x, v.index + 1, k);
    CutSomewhere(v.l1, w.l1, x, v.index + 1, k);
    CutSomewhere(v.l1, w.l1, x, 0, k);
    if v.next.Some? {
      var s, t := v.Current()[v.index], w.Current()[v.index];
      if t != s {
        assert Cut(s, t, x);
        CutMembers(s, t, x, v.next.value);
        var j :| 0 <= j < |s| && s[j] == x && t == s[..j] + s[j + 1..];
        SuffixCut(s, j, v.next.value);
      }
    }
  }

  // ----- The keys of a dictionary -----

  lemma HoldsLayout<K(!new), V>(hash: K -> bv64, t: Table<K, V>, m: map<K, V>)
    requires Holds(hash, t, m)
    ensures forall i :: 0 <= i < |Layout(t)| ==> NoDuplicates(Layout(t)[i])
    ensures forall i, k :: 0 <= i < |Layout(t)| && k in Layout(t)[i] ==>
      k in m && t.Table? && i == Bucket(hash(k), t.exp)
    ensures forall k :: k in m ==> Somewhere(Layout(t), 0, k)
  {
    hide Bucket;
    forall i | 0 <= i < |Layout(t)|
      ensures NoDuplicates(Layout(t)[i])
    {
      assert ChainOk(hash, t.exp, i, t.buckets[i]);
    }
    forall i, k | 0 <= i < |Layout(t)| && k in Layout(t)[i]
      ensures k in m && t.Table? && i == Bucket(hash(k), t.exp)
    {
      MemberHeld(hash, t, m, i, k);
    }
    forall k | k in m
      ensures Somewhere(Layout(t), 0, k)
    {
      HeldMember(hash, t, m, k);
    }
  }

  lemma MemberHeld<K(!new), V>(hash: K -> bv64, t: Table<K, V>, m: map<K, V>, i: nat, k: K)
    requires Holds(hash, t, m) && i < |Layout(t)| && k in Layout(t)[i]
    ensures k in m && t.Table? && i == Bucket(hash(k), t.exp)
  {
    hide Bucket;
    var chain := t.buckets[i];
    assert ChainOk(hash, t.exp, i, chain);
    var j :| 0 <= j < |chain| && KeysOf(chain)[j] == k;
    FindAt(chain, j);
    assert Find(t.buckets[Bucket(hash(k), t.exp)], k) == Get(m, k);
  }

  lemma HeldMember<K(!new), V>(hash: K -> bv64, t: Table<K, V>, m: map<K, V>, k: K)
    requires Holds(hash, t, m) && k in m
    ensures Somewhere(Layout(t), 0, k)
  {
    hide Bucket;
    BucketBound(hash(k), t.exp);
    var i := Bucket(hash(k), t.exp);
    assert Find(t.buckets[i], k) == Get(m, k);
    FindNone(t.buckets[i], k);
    var j :| 0 <= j < |t.buckets[i]| && t.buckets[i][j].key == k;
    assert Layout(t)[i][j] == k;
  }

  lemma DictUnique<K(!new), V>(d: Dict<K, V>)
    requires d.Valid()
    ensures Unique(Layout(d.ht0), Layout(d.ht1))
    ensures forall k :: k in d.Contents() <==> Somewhere(Layout(d.ht0), 0, k) || Somewhere(Layout(d.ht1), 0, k)
  {
    hide Holds, Bucket, Layout, NoDuplicates;
    HoldsLayout(d.hash, d.ht0, d.m0);
    HoldsLayout(d.hash, d.ht1, d.m1);
    var l0, l1 := Layout(d.ht0), Layout(d.ht1);
    forall i, j, k | 0 <= i < |l0| && 0 <= j < |l1| && k in l0[i]
      ensures k !in l1[j]
    {
      assert k in d.m0.Keys && k !in d.m1.Keys;
    }
    forall i, j, k | 0 <= i < |l0| && 0 <= j < |l0| && k in l0[i] && k in l0[j]
      ensures i == j
    {
      assert i == Bucket(d.hash(k), d.ht0.exp);
    }
    forall i, j, k | 0 <= i < |l1| && 0 <= j < |l1| && k in l1[i] && k in l1[j]
      ensures i == j
    {
      assert i == Bucket(d.hash(k), d.ht1.exp);
    }
  }

  // ----- What has been returned -----

  /** `k` occurs at most once. */
  ghost predicate Once<K>(s: seq<K>, k: K) {
    forall i, j :: 0 <= i < j < |s| ==> !(s[i] == k && s[j] == k)
  }

  lemma OncePush<K>(s: seq<K>, e: K, k: K)
    ensures Once(s, k) && (e == k ==> k !in s) ==> Once(s + [e], k)
  {
  }

  /**
     Every key that was there at the first step was returned or is pending, and if it was not deleted it is not
     both, and was returned at most once.
   */
  ghost predicate Tracked<K(!new)>(v: View<K>, start: set<K>, returned: seq<K>, deleted: set<K>) {
    forall k :: k in start ==>
      && (k in returned || Pending(v, k))
      && (k !in deleted ==> Once(returned, k) && (k in returned ==> !Pending(v, k)))
  }

  lemma TrackedSame<K(!new)>(v: View<K>, w: View<K>, start: set<K>, returned: seq<K>, deleted: set<K>)
    requires Tracked(v, start, returned, deleted)
    requires forall k :: k in start ==> (Pending(w, k) <==> Pending(v, k)) || (k in deleted && k in returned)
    ensures Tracked(w, start, returned, deleted)
  {
    hide Pending, Once;
  }

  lemma TrackedTake<K(!new)>(v: View<K>, start: set<K>, returned: seq<K>, deleted: set<K>)
    requires Tracked(v, start, returned, deleted) && InView(v) && v.next.Some? && Unique(v.l0, v.l1)
    ensures var e := v.next.value;
            var w := v.(next := Behind(v.Current()[v.index], e));
            InView(w) && Tracked(w, start, returned + [e], deleted) && !Pending(w, e)
  {
    hide Once, Unique, InView, Pending;
    var e := v.next.value;
    NextPending(v);
    Take(v, e);
    forall k | k in start
      ensures k in returned + [e] || Pending(v.(next := Behind(v.Current()[v.index], e)), k)
      ensures k !in deleted ==> Once(returned + [e], k)
                                && (k in returned + [e] ==> !Pending(v.(next := Behind(v.Current()[v.index], e)), k))
    {
      Take(v, k);
      OncePush(returned, e, k);
    }
  }

  lemma NextPending<K>(v: View<K>)
    requires InView(v) && v.next.Some? && Unique(v.l0, v.l1)
    ensures 0 <= v.index < |v.Current()| && Pending(v, v.next.value)
  {
    SuffixNext(v.Current()[v.index], v.next.value);
    var r := Suffix(v.Current()[v.index], v.next.value);
    assert r[0] in r;
  }

  /** What the end of the iteration promises. */
  ghost predicate Complete<K(!new)>(start: set<K>, returned: seq<K>, deleted: set<K>) {
    forall k :: k in start ==> k in returned && (k !in deleted ==> Once(returned, k))
  }

  lemma TrackedEnd<K(!new)>(v: View<K>, start: set<K>, returned: seq<K>, deleted: set<K>)
    requires Tracked(v, start, returned, deleted)
    requires v.next == None && v.index + 1 >= |v.Current()| && (v.second || !v.rehashing)
    ensures Complete(start, returned, deleted)
  {
    hide Pending, Once;
    forall k | k in start
      ensures !Pending(v, k)
    {
      Finished(v, k);
    }
  }

  lemma TrackedBucket<K(!new)>(v: View<K>, start: set<K>, returned: seq<K>, deleted: set<K>)
    requires Tracked(v, start, returned, deleted) && InView(v) && v.next == None && v.index + 1 < |v.Current()|
    ensures var w := v.(index := v.index + 1, next := Head(v.Current()[v.index + 1]));
            InView(w) && Tracked(w, start, returned, deleted)
  {
    hide Tracked, Pending, InView;
    InViewBounds(v);
    var w := v.(index := v.index + 1, next := Head(v.Current()[v.index + 1]));
    forall k
      ensures InView(w) && (Pending(w, k) <==> Pending(v, k))
    {
      NextBucket(v, k);
    }
    BucketInView(v);
    TrackedSame(v, w, start, returned, deleted);
  }

  lemma BucketInView<K>(v: View<K>)
    requires InView(v) && v.next == None && v.index + 1 < |v.Current()|
    ensures 0 <= v.index + 1 && InView(v.(index := v.index + 1, next := Head(v.Current()[v.index + 1])))
  {
  }

  lemma TableInView<K>(v: View<K>)
    requires InView(v) && !v.second && v.rehashing && |v.l1| > 0
    ensures InView(v.(second := true, index := 0, next := Head(v.l1[0])))
  {
  }

  lemma TrackedTable<K(!new)>(v: View<K>, start: set<K>, returned: seq<K>, deleted: set<K>)
    requires Tracked(v, start, returned, deleted) && InView(v) && v.next == None
    requires v.index + 1 >= |v.l0| && !v.second && v.rehashing && |v.l1| > 0
    ensures var w := v.(second := true, index := 0, next := Head(v.l1[0]));
            InView(w) && Tracked(w, start, returned, deleted)
  {
    hide Tracked, Pending, InView;
    var w := v.(second := true, index := 0, next := Head(v.l1[0]));
    forall k
      ensures Pending(w, k) <==> Pending(v, k)
    {
      NextTable(v, k);
    }
    TableInView(v);
    TrackedSame(v, w, start, returned, deleted);
  }

  lemma AfterGrown<K(!new)>(v: View<K>, w: View<K>, x: K, start: set<K>, returned: seq<K>, deleted: set<K>, cur: K)
    requires Tracked(v, start, returned, deleted) && InView(v)
    requires w == v.(l0 := w.l0, l1 := w.l1, rehashing := w.rehashing) && v.next != Some(x)
    requires Prepended(v.l0, w.l0, x) && (v.rehashing ==> w.rehashing && Prepended(v.l1, w.l1, x))
    requires !v.rehashing && w.rehashing ==> Sprouted(w.l1, x)
    requires x in start ==> x in deleted && x in returned
    ensures InView(w) && Tracked(w, start, returned, deleted)
    ensures cur != x && !Pending(v, cur) ==> !Pending(w, cur)
  {
    hide Tracked, Pending, InView, Prepended, Sprouted;
    forall k | k != x
      ensures InView(w) && (Pending(w, k) <==> Pending(v, k))
    {
      GrownPending(v, w, x, k);
    }
    GrownInView(v, w, x);
    TrackedSame(v, w, start, returned, deleted);
  }

  lemma GrownInView<K>(v: View<K>, w: View<K>, x: K)
    requires InView(v) && w == v.(l0 := w.l0, l1 := w.l1, rehashing := w.rehashing)
    requires Prepended(v.l0, w.l0, x) && (v.rehashing ==> w.rehashing && Prepended(v.l1, w.l1, x))
    ensures InView(w)
  {
    if v.next.Some? {
      assert w.Current()[v.index] == v.Current()[v.index] || w.Current()[v.index] == [x] + v.Current()[v.index];
    }
  }

  lemma AfterHeld<K(!new)>(v: View<K>, w: View<K>, start: set<K>, returned: seq<K>, deleted: set<K>, cur: K)
    requires Tracked(v, start, returned, deleted) && InView(v) && w == v.(l1 := w.l1, rehashing := w.rehashing)
    requires v.rehashing ==> w.rehashing && w.l1 == v.l1
    requires !v.rehashing && w.rehashing ==> AllEmpty(w.l1)
    ensures InView(w) && Tracked(w, start, returned, deleted)
    ensures !Pending(v, cur) ==> !Pending(w, cur)
  {
    hide Tracked, Pending, InView, AllEmpty;
    forall k
      ensures InView(w) && (Pending(w, k) <==> Pending(v, k))
    {
      HeldPending(v, w, k);
    }
    HeldPending(v, w, cur);
    TrackedSame(v, w, start, returned, deleted);
  }

  lemma AfterRemoved<K(!new)>(v: View<K>, w: View<K>, x: K, start: set<K>, returned: seq<K>, deleted: set<K>)
    requires Tracked(v, start, returned, deleted) && InView(v)
    requires w == v.(l0 := w.l0, l1 := w.l1) && !Pending(v, x) && v.next != Some(x)
    requires Removed(v.l0, w.l0, x) && Removed(v.l1, w.l1, x) && x in returned
    ensures InView(w) && Tracked(w, start, returned, deleted + {x})
  {
    hide Pending, InView, Removed, Once;
    forall k | k != x
      ensures Pending(w, k) <==> Pending(v, k)
    {
      RemovedPending(v, w, x, k);
    }
    RemovedInView(v, w, x);
  }

  lemma RemovedInView<K>(v: View<K>, w: View<K>, x: K)
    requires InView(v) && w == v.(l0 := w.l0, l1 := w.l1) && v.next != Some(x)
    requires Removed(v.l0, w.l0, x) && Removed(v.l1, w.l1, x)
    ensures InView(w)
  {
    if v.next.Some? {
      var s, t := v.Current()[v.index], w.Current()[v.index];
      if t != s {
        assert Cut(s, t, x);
        CutMembers(s, t, x, v.next.value);
      }
    }
  }

  lemma BetweenEnd<K(!new)>(v: View<K>, start: set<K>, returned: seq<K>, deleted: set<K>, keys: set<K>)
    requires Between(v, start, returned, deleted, keys)
    requires v.next == None && v.index + 1 >= |v.Current()| && (v.second || !v.rehashing)
    ensures Complete(start, returned, deleted)
  {
    hide InView, Tracked, Complete;
    TrackedEnd(v, start, returned, deleted);
  }

  lemma BetweenBucket<K(!new)>(v: View<K>, start: set<K>, returned: seq<K>, deleted: set<K>, keys: set<K>)
    requires Between(v, start, returned, deleted, keys) && v.next == None && v.index + 1 < |v.Current()|
    ensures 0 <= v.index + 1
    ensures Between(v.(index := v.index + 1, next := Head(v.Current()[v.index + 1])), start, returned, deleted, keys)
  {
    hide InView, Tracked;
    InViewBounds(v);
    TrackedBucket(v, start, returned, deleted);
  }

  lemma BetweenTable<K(!new)>(v: View<K>, start: set<K>, returned: seq<K>, deleted: set<K>, keys: set<K>)
    requires Between(v, start, returned, deleted, keys) && v.next == None
    requires v.index + 1 >= |v.l0| && !v.second && v.rehashing && |v.l1| > 0
    ensures Between(v.(second := true, index := 0, next := Head(v.l1[0])), start, returned, deleted, keys)
  {
    hide InView, Tracked;
    TrackedTable(v, start, returned, deleted);
  }

  lemma BetweenBounds<K(!new)>(v: View<K>, start: set<K>, returned: seq<K>, deleted: set<K>, keys: set<K>)
    requires Between(v, start, returned, deleted, keys)
    ensures v.second ==> v.rehashing
    ensures -1 <= v.index && (v.next.Some? ==> 0 <= v.index < |v.Current()|)
  {
  }

  lemma InViewBounds<K>(v: View<K>)
    requires InView(v)
    ensures -1 <= v.index && (v.next.Some? ==> 0 <= v.index < |v.Current()|)
  {
  }

  lemma NextInView<K>(v: View<K>)
    requires InView(v) && v.next.Some?
    ensures 0 <= v.index < |v.Current()| && Somewhere(v.Current(), 0, v.next.value)
  {
  }

  lemma Sizes<K(!new), V>(d: Dict<K, V>)
    requires d.Valid()
    ensures |Layout(d.ht0)| == d.ht0.Size() && |Layout(d.ht1)| == d.ht1.Size()
    ensures d.IsRehashing() ==> d.ht0.Table? && d.ht1.Table? && |Layout(d.ht1)| > 0
    ensures |Layout(d.ht0)| > 0 ==> d.ht0.Table?
  {
  }

  lemma LayoutAt<K, V>(t: Table<K, V>, i: nat)
    requires t.Table? && i < |t.buckets|
    ensures i < |Layout(t)| && Layout(t)[i] == KeysOf(t.buckets[i])
  {
  }

  /**
   Between two steps, `cur` being the entry that was returned last: the key behind it is another one that is present;
   unless it was deleted, `cur` is present and not pending.
   */
  ghost predicate Steady<K(!new)>(v: View<K>, cur: K, gone: bool, start: set<K>, returned: seq<K>, deleted: set<K>,
                           keys: set<K>) {
    && InView(v) && Tracked(v, start, returned, deleted) && cur in returned
    && (forall k :: k in deleted ==> k in returned)
    && (forall k :: k in start && k !in deleted ==> k in keys)
    && (v.next.Some? ==> v.next.value in keys)
    && (if gone then cur in deleted else !Pending(v, cur) && v.next != Some(cur) && cur in keys)
  }

  /** Inside a step, before an entry was loaded. */
  ghost predicate Between<K(!new)>(v: View<K>, start: set<K>, returned: seq<K>, deleted: set<K>, keys: set<K>) {
    && InView(v) && Tracked(v, start, returned, deleted)
    && (forall k :: k in deleted ==> k in returned)
    && (forall k :: k in start && k !in deleted ==> k in keys)
  }

  lemma SteadyBetween<K(!new)>(v: View<K>, cur: K, gone: bool, start: set<K>, returned: seq<K>, deleted: set<K>,
                        keys: set<K>)
    requires Steady(v, cur, gone, start, returned, deleted, keys)
    ensures Between(v, start, returned, deleted, keys)
  {
  }

  /** At the first step everything is pending. */
  lemma BetweenStart<K(!new)>(v: View<K>, keys: set<K>)
    requires v.index == -1 && v.next == None && !v.second && (v.rehashing || v.l1 == [])
    requires forall k :: k in keys ==> Somewhere(v.l0, 0, k) || Somewhere(v.l1, 0, k)
    ensures Between(v, keys, [], {}, keys)
  {
  }

  lemma SteadyTaken<K(!new)>(v: View<K>, start: set<K>, returned: seq<K>, deleted: set<K>, keys: set<K>)
    requires Between(v, start, returned, deleted, keys) && v.next.Some? && Unique(v.l0, v.l1)
    requires forall k :: Somewhere(v.Current(), 0, k) ==> k in keys
    ensures var e := v.next.value;
            var w := v.(next := Behind(v.Current()[v.index], e));
            Steady(w, e, false, start, returned + [e], deleted, keys) && e in keys
  {
    hide Pending, InView, Tracked, Unique, Suffix, Behind, Somewhere;
    var e := v.next.value;
    NextInView(v);
    TrackedTake(v, start, returned, deleted);
    var w := v.(next := Behind(v.Current()[v.index], e));
    if w.next.Some? {
      NextPending(w);
      NextInView(w);
    }
  }

  lemma SteadyGrown<K(!new)>(v: View<K>, w: View<K>, x: K, cur: K, gone: bool, start: set<K>, returned: seq<K>,
                      deleted: set<K>, keys: set<K>)
    requires Steady(v, cur, gone, start, returned, deleted, keys) && x !in keys
    requires w == v.(l0 := w.l0, l1 := w.l1, rehashing := w.rehashing)
    requires Prepended(v.l0, w.l0, x) && (v.rehashing ==> w.rehashing && Prepended(v.l1, w.l1, x))
    requires !v.rehashing && w.rehashing ==> Sprouted(w.l1, x)
    ensures Steady(w, cur, gone, start, returned, deleted, keys + {x})
  {
    hide Pending, InView, Tracked, Prepended, Sprouted;
    AfterGrown(v, w, x, start, returned, deleted, cur);
  }

  lemma SteadyHeld<K(!new)>(v: View<K>, w: View<K>, cur: K, gone: bool, start: set<K>, returned: seq<K>,
                     deleted: set<K>, keys: set<K>)
    requires Steady(v, cur, gone, start, returned, deleted, keys) && w == v.(l1 := w.l1, rehashing := w.rehashing)
    requires v.rehashing ==> w.rehashing && w.l1 == v.l1
    requires !v.rehashing && w.rehashing ==> AllEmpty(w.l1)
    ensures Steady(w, cur, gone, start, returned, deleted, keys)
  {
    hide Pending, InView, Tracked, AllEmpty;
    AfterHeld(v, w, start, returned, deleted, cur);
  }

  lemma SteadyRemoved<K(!new)>(v: View<K>, w: View<K>, cur: K, start: set<K>, returned: seq<K>, deleted: set<K>,
                        keys: set<K>)
    requires Steady(v, cur, false, start, returned, deleted, keys) && w == v.(l0 := w.l0, l1 := w.l1)
    requires Removed(v.l0, w.l0, cur) && Removed(v.l1, w.l1, cur)
    ensures Steady(w, cur, true, start, returned, deleted + {cur}, keys - {cur})
  {
    hide Pending, InView, Tracked, Removed;
    AfterRemoved(v, w, cur, start, returned, deleted);
  }

  // ----- The iterator -----

  class SafeIterator<K(==, !new), V> {
    const d: Dict<K, V>
    var table: nat
    var index: int
    var entry: Option<K>
    var nextEntry: Option<K>
    ghost var start: set<K>      // the keys at the first step
    ghost var returned: seq<K>
    ghost var deleted: set<K>    // keys whose entry was deleted after it was returned
    ghost var gone: bool         // the last entry returned has been deleted

    ghost function Now(): View<K>
      reads this, d
    {
      View(Layout(d.ht0), Layout(d.ht1), d.IsRehashing(), table == 1, index, if entry.Some? then nextEntry else None)
    }

    /** Before the first step. */
    ghost predicate Fresh()
      reads this, d
    {
      d.Valid() && table == 0 && index == -1 && entry == None
    }

    /** Between two steps. */
    ghost predicate Running()
      reads this, d
    {
      && d.Valid() && d.iterators > 0 && d.ht0.Table? && table <= 1 && 0 <= index && entry.Some?
      && Steady(Now(), entry.value, gone, start, returned, deleted, d.Contents().Keys)
    }

    constructor (d: Dict<K, V>)
      requires d.Valid()
      ensures Fresh() && this.d == d
    {
      this.d := d;
      table, index, entry, nextEntry := 0, -1, None, None;
      start, returned, deleted, gone := {}, [], {}, false;
    }

    /**
     dictNext of a safe iterator. Before the end it returns an entry of the dictionary; at the end every key that was
     there at the first step has been returned, and exactly once unless its entry was deleted.
     */
    method Next() returns (r: Option<K>)
      requires Fresh() || Running()
      modifies this, d`iterators
      ensures d.Valid() && d.Contents() == old(d.Contents())
      ensures if old(Fresh()) then start == old(d.Contents().Keys) && deleted == {}
              else start == old(start) && deleted == old(deleted)
      ensures r.Some? ==> Running() && r.value in d.Contents() && entry == r && !gone
      ensures returned == (if old(Fresh()) then [] else old(returned)) + (if r.Some? then [r.value] else [])
      ensures r == None ==> Complete(start, returned, deleted)
    {
      hide Layout, Steady, Between, Complete, Dict.Valid, Dict.Contents;
      if index == -1 && table == 0 {
        Begin();
      } else {
        SteadyBetween(Now(), entry.value, gone, start, returned, deleted, d.Contents().Keys);
      }
      ghost var st, re, de := start, returned, deleted;
      while true
        invariant d.Valid() && d.Contents() == old(d.Contents()) && d.iterators > 0 && table <= 1 && -1 <= index
        invariant start == st && returned == re && deleted == de
        invariant Between(Now(), start, returned, deleted, d.Contents().Keys)
        invariant entry.Some? ==> d.ht0.Table? && 0 <= index && InView(Now())
        decreases 1 - table, |Now().Current()| - index, if entry.Some? then 1 else 0
      {
        if entry == None {
          var more := Advance();
          if !more {
            return None;
          }
        } else {
          entry := nextEntry;
        }
        if entry.Some? {
          Return();
          return entry;
        }
      }
    }

    ghost function LoadedView(): View<K>
      reads this, d
    {
      Now().(next := entry)
    }

    /** To the head of the next bucket, over to the second table, or to the end. */
    method Advance() returns (more: bool)
      requires d.Valid() && entry == None && table <= 1 && -1 <= index
      requires Between(Now(), start, returned, deleted, d.Contents().Keys)
      modifies `table, `index, `entry
      ensures table <= 1 && 0 <= index
      ensures more ==> Between(LoadedView(), start, returned, deleted, d.Contents().Keys) && d.ht0.Table?
      ensures more ==> (table == old(table) && index > old(index)) || (table == 1 && old(table) == 0)
      ensures more ==> index < |Now().Current()|
      ensures !more ==> Complete(start, returned, deleted)
    {
      hide Layout, Between, Complete, Dict.Valid, Dict.Contents;
      ghost var v, keys := Now(), d.Contents().Keys;
      Sizes(d);
      BetweenBounds(v, start, returned, deleted, keys);
      index := index + 1;
      if index >= (if table == 0 then d.ht0 else d.ht1).Size() {
        if d.IsRehashing() && table == 0 {
          table := 1;
          index := 0;
          BetweenTable(v, start, returned, deleted, keys);
        } else {
          BetweenEnd(v, start, returned, deleted, keys);
          return false;
        }
      } else {
        BetweenBucket(v, start, returned, deleted, keys);
      }
      entry := Head(KeysOf((if table == 0 then d.ht0 else d.ht1).buckets[index]));
      LayoutAt(if table == 0 then d.ht0 else d.ht1, index);
      more := true;
    }

    /** The loaded entry is returned; the one behind it is remembered, because the user may delete this one. */
    method Return()
      requires d.Valid() && d.iterators > 0 && d.ht0.Table? && table <= 1 && 0 <= index && entry.Some?
      requires Between(LoadedView(), start, returned, deleted, d.Contents().Keys)
      modifies `nextEntry, `returned, `gone
      ensures Running() && returned == old(returned) + [entry.value] && entry.value in d.Contents() && !gone
    {
      hide Layout, Steady, Between, Unique, Behind, Somewhere, Dict.Valid, Dict.Contents;
      ghost var v := LoadedView();
      DictUnique(d);
      Sizes(d);
      BetweenBounds(v, start, returned, deleted, d.Contents().Keys);
      SteadyTaken(v, start, returned, deleted, d.Contents().Keys);
      LayoutAt(if table == 0 then d.ht0 else d.ht1, index);
      nextEntry := Behind(KeysOf((if table == 0 then d.ht0 else d.ht1).buckets[index]), entry.value);
      returned := returned + [entry.value];
      gone := false;
      assert Now() == v.(next := Behind(v.Current()[v.index], entry.value));
    }

    /** Any search by the user. */
    method Find(key: K) returns (val: Option<V>)
      requires Running()
      modifies d`ht0, d`ht1, d`m0, d`m1, d`rehashidx
      ensures Running() && d.Contents() == old(d.Contents()) && val == Get(d.Contents(), key)
    {
      hide Layout, Steady;
      val := d.Lookup(key);
    }

    /** An insertion by the user; it may start an expansion. */
    method Add(key: K, val: V) returns (ok: bool)
      requires Running() && d.Roomy()
      modifies d`ht0, d`ht1, d`m0, d`m1, d`rehashidx
      ensures Running() && ok == (key !in old(d.Contents()))
      ensures d.Contents() == if ok then old(d.Contents())[key := val] else old(d.Contents())
    {
      hide Layout, Steady, Prepended, Sprouted, AllEmpty, Pow2, Dict.Valid, Dict.Contents;
      ghost var v, keys := Now(), d.Contents().Keys;
      ok := d.Add(key, val);
      if ok {
        SteadyGrown(v, Now(), key, entry.value, gone, start, returned, deleted, keys);
        assert d.Contents().Keys == keys + {key};
      } else {
        SteadyHeld(v, Now(), entry.value, gone, start, returned, deleted, keys);
      }
    }

    /** An insertion or a change of a value by the user. */
    method Replace(key: K, val: V) returns (added: bool)
      requires Running() && d.Roomy()
      modifies d`ht0, d`ht1, d`m0, d`m1, d`rehashidx
      ensures Running() && added == (key !in old(d.Contents()))
      ensures d.Contents() == old(d.Contents())[key := val]
    {
      hide Layout, Steady, Prepended, Sprouted, AllEmpty, Pow2, Dict.Valid, Dict.Contents;
      ghost var v, keys := Now(), d.Contents().Keys;
      added := d.Replace(key, val);
      if added {
        SteadyGrown(v, Now(), key, entry.value, gone, start, returned, deleted, keys);
        assert d.Contents().Keys == keys + {key};
      } else {
        SteadyHeld(v, Now(), entry.value, gone, start, returned, deleted, keys);
        assert d.Contents().Keys == keys;
      }
    }

    /** The user deletes the entry that was returned last. */
    method DeleteCurrent()
      requires Running() && !gone
      modifies `deleted, `gone, d`ht0, d`ht1, d`m0, d`m1, d`rehashidx
      ensures Running() && gone && d.Contents() == old(d.Contents()) - {entry.value}
      ensures deleted == old(deleted) + {entry.value}
    {
      hide Layout, Steady, Removed, Dict.Valid, Dict.Contents;
      ghost var v, keys := Now(), d.Contents().Keys;
      var ok := d.Delete(entry.value);
      SteadyRemoved(v, Now(), entry.value, start, returned, deleted, keys);
      assert d.Contents().Keys == keys - {entry.value};
      deleted := deleted + {entry.value};
      gone := true;
    }

    lemma RunningOnce()
      requires Running()
      ensures forall k :: k in start && k !in deleted ==> Once(returned, k)
    {
      hide Layout, Once;
    }

    lemma GoneIsDeleted()
      requires Running() && gone
      ensures entry.value in deleted
    {
    }

    /** The first step counts the iterator. */
    method Begin()
      requires Fresh()
      modifies this, d`iterators
      ensures d.Valid() && d.iterators > 0 && d.Contents() == old(d.Contents())
      ensures table == 0 && index == -1 && entry == None
      ensures start == d.Contents().Keys && returned == [] && deleted == {}
      ensures Between(Now(), start, returned, deleted, d.Contents().Keys)
    {
      hide Layout, Between, Somewhere;
      d.iterators := d.iterators + 1;
      start, returned, deleted, gone := d.Contents().Keys, [], {}, false;
      DictUnique(d);
      Sizes(d);
      BetweenStart(Now(), start);
    }
  }

  // ----- Whole iterations -----

  /** What a user does next. A second deletion in a row of the same entry is ignored. */
  datatype Act<K, V> = Step | Search(key: K) | Insert(key: K, val: V) | Put(key: K, val: V) | DeleteLast

  function Steps<K, V>(acts: seq<Act<K, V>>): (n: nat)
    decreases |acts|
  {
    if acts == [] then 0 else Steps(acts[..|acts| - 1]) + if acts[|acts| - 1].Step? then 1 else 0
  }

  /** What the user has: the map, and whether the entry returned last was deleted. */
  datatype State<K, V> = State(m: map<K, V>, dropped: bool)

  /** What one act does to the map when `last` is the key returned last. */
  function Effect<K, V>(s: State<K, V>, last: K, act: Act<K, V>): State<K, V> {
    match act
    case Step => s.(dropped := false)
    case Search(key) => s
    case Insert(key, val) => if key in s.m then s else s.(m := s.m[key := val])
    case Put(key, val) => s.(m := s.m[key := val])
    case DeleteLast => if s.dropped then s else State(s.m - {last}, true)
  }

  /** The map after `acts`, when `keys` are returned: one before all acts and one for every step. */
  ghost function Applied<K(!new), V>(m: map<K, V>, acts: seq<Act<K, V>>, keys: seq<K>): State<K, V>
    requires Steps(acts) < |keys|
    decreases |acts|
  {
    if acts == [] then State(m, false)
    else
      var init := acts[..|acts| - 1];
      Effect(Applied(m, init, keys), keys[Steps(init)], acts[|acts| - 1])
  }

  /** The keys that the acts delete. */
  ghost function Removals<K(!new), V>(acts: seq<Act<K, V>>, keys: seq<K>): set<K> {
    set i: nat | i < |acts| && acts[i].DeleteLast? && Steps(acts[..i]) < |keys| :: keys[Steps(acts[..i])]
  }

  /** Every key was in the map when it was returned. */
  ghost predicate AllPresent<K(!new), V>(m: map<K, V>, acts: seq<Act<K, V>>, keys: seq<K>)
    requires |keys| == 1 + Steps(acts)
  {
    && keys[0] in m
    && forall i :: 0 < i <= |acts| && acts[i - 1].Step? ==> PresentAt(m, acts, keys, i)
  }

  ghost predicate PresentAt<K(!new), V>(m: map<K, V>, acts: seq<Act<K, V>>, keys: seq<K>, i: nat)
    requires i <= |acts| && |keys| == 1 + Steps(acts)
  {
    StepsGrow(acts, i, |acts|);
    assert acts[..|acts|] == acts;
    keys[Steps(acts[..i])] in Applied(m, acts[..i], keys).m
  }

  /**
   However steps and the permitted operations are mixed: the first step and every later one returns a key that is
   in the map, until a step finds the end after `used` acts. Then every key that was there at the first step has
   been returned, and exactly once unless it was deleted; before that no such key has been returned twice. The
   dictionary holds what the acts made of it.
   */
  method Traverse<K(==, !new), V>(d: Dict<K, V>, acts: seq<Act<K, V>>) returns (keys: seq<K>, used: nat, done: bool)
    requires d.Valid() && |d.Contents()| + |acts| <= Pow2(MAX_EXP - 1)
    modifies d
    ensures d.Valid() && used <= |acts| && (!done ==> used == |acts|)
    ensures keys == [] ==> done && used == 0 && d.Contents() == old(d.Contents()) == map[]
    ensures keys != [] ==>
      && |keys| == 1 + Steps(acts[..used]) && (done ==> used < |acts| && acts[used].Step?)
      && AllPresent(old(d.Contents()), acts[..used], keys)
      && d.Contents() == Applied(old(d.Contents()), acts[..used], keys).m
    ensures done ==> Complete(old(d.Contents().Keys), keys, Removals(acts[..used], keys))
    ensures forall k :: k in old(d.Contents()) && k !in Removals(acts[..used], keys) ==> Once(keys, k)
  {
    hide Complete, Layout, Steady, Pow2, Dict.Valid, Dict.Contents, Dict.Roomy, AllPresent, Applied, Effect, Once;
    var it := new SafeIterator(d);
    ghost var bound := Pow2(MAX_EXP - 1);
    keys, used, done := [], 0, false;
    var r := it.Next();
    assert acts[..0] == [];
    if r == None {
      NoRemovals<K, V>(acts[..0]);
      assert it.returned == keys;
      CompleteEmpty(d.Contents(), it.deleted);
      return keys, used, true;
    }
    keys := [r.value];
    var dropped := false;
    StartApplied(d.Contents(), acts[..0], r.value);
    while used < |acts|
      invariant 0 <= used <= |acts| && it.d == d && it.Running() && it.gone == dropped && fresh(it)
      invariant it.start == old(d.Contents().Keys) && |d.Contents()| + (|acts| - used) <= bound
      invariant keys == it.returned && |keys| == 1 + Steps(acts[..used]) && it.entry == Some(keys[|keys| - 1])
      invariant it.deleted == Removals(acts[..used], keys)
      invariant State(d.Contents(), dropped) == Applied(old(d.Contents()), acts[..used], keys)
      invariant AllPresent(old(d.Contents()), acts[..used], keys)
    {
      hide Steps, Removals;
      ghost var now := State(d.Contents(), dropped);
      r, dropped := Do(it, acts[used], dropped);
      RemovalsNext(acts, keys, r, used);
      if acts[used].Step? && r == None {
        assert it.returned == keys && it.deleted == Removals(acts[..used], keys);
        EffectOfStep(now, keys[|keys| - 1]);
        CompleteOnce(it.start, keys, it.deleted);
        return keys, used, true;
      }
      AppliedNext(old(d.Contents()), acts, keys, r, used, State(d.Contents(), dropped));
      if acts[used].Step? {
        keys := keys + [r.value];
      }
      used := used + 1;
    }
    it.RunningOnce();
  }

  /** One act. A step that finds the end returns nothing. */
  method Do<K(==, !new), V>(it: SafeIterator<K, V>, act: Act<K, V>, dropped: bool)
    returns (r: Option<K>, dropped': bool)
    requires it.Running() && it.gone == dropped && |it.d.Contents()| <= Pow2(MAX_EXP - 1)
    modifies it, it.d
    ensures it.d.Valid() && it.start == old(it.start) && |it.d.Contents()| <= old(|it.d.Contents()|) + 1
    ensures it.returned == old(it.returned) + if act.Step? && r.Some? then [r.value] else []
    ensures it.deleted == old(it.deleted) + if act.DeleteLast? then {old(it.entry).value} else {}
    ensures act.Step? && r == None ==> Complete(it.start, it.returned, it.deleted)
    ensures !act.Step? || r.Some? ==>
      it.Running() && it.gone == dropped' && it.entry == if act.Step? then r else old(it.entry)
    ensures State(it.d.Contents(), dropped') == Effect(State(old(it.d.Contents()), dropped), old(it.entry).value, act)
    ensures act.Step? && r.Some? ==> r.value in it.d.Contents()
  {
    hide Complete, Layout, Steady, Pow2, Dict.Valid, Dict.Contents, Dict.Roomy;
    RoomyBelow(it.d);
    ghost var before := it.d.Contents();
    r, dropped' := None, dropped;
    match act
    case Step =>
      r := it.Next();
      dropped' := false;
    case Search(key) =>
      var found := it.Find(key);
    case Insert(key, val) =>
      var ok := it.Add(key, val);
      SizeOfUpdate(before, key, val);
    case Put(key, val) =>
      var added := it.Replace(key, val);
      SizeOfUpdate(before, key, val);
    case DeleteLast =>
      if dropped {
        it.GoneIsDeleted();
      } else {
        it.DeleteCurrent();
        SizeOfDrop(before, it.entry.value);
        dropped' := true;
      }
  }

  /** What one more act adds to the keys deleted, and to the number of steps. */
  lemma RemovalsNext<K(!new), V>(acts: seq<Act<K, V>>, keys: seq<K>, r: Option<K>, i: nat)
    requires i < |acts| && |keys| == 1 + Steps(acts[..i])
    ensures Steps(acts[..i + 1]) == Steps(acts[..i]) + if acts[i].Step? then 1 else 0
    ensures acts[i].Step? && r.Some? ==> Removals(acts[..i + 1], keys + [r.value]) == Removals(acts[..i], keys)
    ensures !acts[i].Step? ==>
      Removals(acts[..i + 1], keys)
      == Removals(acts[..i], keys) + if acts[i].DeleteLast? then {keys[|keys| - 1]} else {}
  {
    hide Removals;
    assert acts[..i + 1][..i] == acts[..i];
    if acts[i].DeleteLast? {
      RemovalsDelete(acts, keys, i);
    } else if !acts[i].Step? {
      RemovalsOther(acts, keys, i);
    } else if r.Some? {
      RemovalsStep(acts, keys, r.value, i);
    }
  }

  lemma {:induction false} StepsGrow<K, V>(acts: seq<Act<K, V>>, i: nat, j: nat)
    requires i <= j <= |acts|
    ensures Steps(acts[..i]) <= Steps(acts[..j])
    decreases j
  {
    if i < j {
      assert acts[..j][..j - 1] == acts[..j - 1];
      StepsGrow(acts, i, j - 1);
    }
  }

  /** The key that act `j` deletes. */
  ghost predicate Deletes<K(!new), V>(acts: seq<Act<K, V>>, keys: seq<K>, j: nat, k: K)
    requires j < |acts|
  {
    acts[j].DeleteLast? && Steps(acts[..j]) < |keys| && keys[Steps(acts[..j])] == k
  }

  lemma RemovalsMeaning<K(!new), V>(acts: seq<Act<K, V>>, keys: seq<K>, i: nat)
    requires i <= |acts|
    ensures forall k :: k in Removals(acts[..i], keys) <==> exists j: nat :: j < i && Deletes(acts, keys, j, k)
  {
    hide Steps;
    assert forall j: nat :: j < i ==> acts[..i][..j] == acts[..j];
    forall k
      ensures k in Removals(acts[..i], keys) <==> exists j: nat :: j < i && Deletes(acts, keys, j, k)
    {
      if j: nat :| j < i && Deletes(acts, keys, j, k) {
        assert acts[..i][..j] == acts[..j] && acts[..i][j].DeleteLast?;
      }
      if k in Removals(acts[..i], keys) {
        var j: nat :| j < i && acts[..i][j].DeleteLast? && Steps(acts[..i][..j]) < |keys|
                      && keys[Steps(acts[..i][..j])] == k;
        assert Deletes(acts, keys, j, k);
      }
    }
  }

  lemma RemovalsOther<K(!new), V>(acts: seq<Act<K, V>>, keys: seq<K>, i: nat)
    requires i < |acts| && !acts[i].DeleteLast?
    ensures Removals(acts[..i + 1], keys) == Removals(acts[..i], keys)
  {
    hide Steps, Removals;
    RemovalsMeaning(acts, keys, i);
    RemovalsMeaning(acts, keys, i + 1);
  }

  lemma RemovalsDelete<K(!new), V>(acts: seq<Act<K, V>>, keys: seq<K>, i: nat)
    requires i < |acts| && acts[i].DeleteLast? && |keys| == 1 + Steps(acts[..i])
    ensures Removals(acts[..i + 1], keys) == Removals(acts[..i], keys) + {keys[|keys| - 1]}
  {
    hide Steps, Removals;
    RemovalsMeaning(acts, keys, i);
    RemovalsMeaning(acts, keys, i + 1);
    assert Deletes(acts, keys, i, keys[|keys| - 1]);
  }

  lemma RemovalsStep<K(!new), V>(acts: seq<Act<K, V>>, keys: seq<K>, k: K, i: nat)
    requires i < |acts| && acts[i].Step? && |keys| == 1 + Steps(acts[..i])
    ensures Removals(acts[..i + 1], keys + [k]) == Removals(acts[..i], keys)
  {
    RemovalsOther(acts, keys + [k], i);
    RemovalsMeaning(acts, keys, i);
    RemovalsMeaning(acts, keys + [k], i);
    forall j: nat | j < i
      ensures Steps(acts[..j]) < |keys|
    {
      StepsGrow(acts, j, i);
    }
    hide Steps, Removals;
    assert forall j: nat, x :: j < i ==> (Deletes(acts, keys, j, x) <==> Deletes(acts, keys + [k], j, x));
  }

  lemma EffectOfStep<K, V>(s: State<K, V>, last: K)
    ensures Effect(s, last, Step).m == s.m
  {
  }

  lemma CompleteEmpty<K(!new), V>(m: map<K, V>, deleted: set<K>)
    requires Complete(m.Keys, [], deleted)
    ensures m == map[]
  {
    assert m.Keys == {};
  }

  lemma CompleteOnce<K(!new)>(start: set<K>, keys: seq<K>, deleted: set<K>)
    requires Complete(start, keys, deleted)
    ensures forall k :: k in start && k !in deleted ==> Once(keys, k)
  {
    hide Once;
  }

  lemma StartApplied<K(!new), V>(m: map<K, V>, acts: seq<Act<K, V>>, k: K)
    requires acts == [] && k in m
    ensures Steps(acts) == 0 && Applied(m, acts, [k]) == State(m, false) && AllPresent(m, acts, [k])
  {
  }

  lemma {:induction false} AppliedExtend<K(!new), V>(m: map<K, V>, acts: seq<Act<K, V>>, keys: seq<K>, k: K)
    requires Steps(acts) < |keys|
    ensures Applied(m, acts, keys + [k]) == Applied(m, acts, keys)
    decreases |acts|
  {
    hide Effect;
    if acts != [] {
      AppliedExtend(m, acts[..|acts| - 1], keys, k);
    }
  }

  /** One more act, with the key it returned if it was a step. */
  lemma AppliedNext<K(!new), V>(m: map<K, V>, acts: seq<Act<K, V>>, keys: seq<K>, r: Option<K>, i: nat, s: State<K, V>)
    requires i < |acts| && |keys| == 1 + Steps(acts[..i]) && (acts[i].Step? ==> r.Some? && r.value in s.m)
    requires s == Effect(Applied(m, acts[..i], keys), keys[|keys| - 1], acts[i]) && AllPresent(m, acts[..i], keys)
    ensures var next := keys + if acts[i].Step? then [r.value] else [];
            && |next| == 1 + Steps(acts[..i + 1])
            && s == Applied(m, acts[..i + 1], next) && AllPresent(m, acts[..i + 1], next)
  {
    var next := keys + if acts[i].Step? then [r.value] else [];
    assert acts[..i + 1][..i] == acts[..i];
    if acts[i].Step? {
      AppliedExtend(m, acts[..i], keys, r.value);
    } else {
      assert next == keys;
    }
    assert s == Applied(m, acts[..i + 1], next);
    var a := acts[..i + 1];
    forall j | 0 < j <= |a| && a[j - 1].Step?
      ensures PresentAt(m, a, next, j)
    {
      PresentNext(m, acts, keys, next, i, j);
    }
  }

  lemma PresentNext<K(!new), V>(m: map<K, V>, acts: seq<Act<K, V>>, keys: seq<K>, next: seq<K>, i: nat, j: nat)
    requires i < |acts| && |keys| == 1 + Steps(acts[..i]) && 0 < j <= i + 1 && acts[j - 1].Step?
    requires |next| == 1 + Steps(acts[..i + 1]) && AllPresent(m, acts[..i], keys)
    requires if acts[i].Step? then |next| == |keys| + 1 && next[..|keys|] == keys else next == keys
    requires acts[i].Step? ==> next[|keys|] in Applied(m, acts[..i + 1], next).m
    ensures PresentAt(m, acts[..i + 1], next, j)
  {
    hide Applied, Steps;
    assert acts[..i + 1][..j] == acts[..j];
    assert acts[..|acts[..i + 1]|] == acts[..i + 1];
    if j == i + 1 {
      assert acts[..i + 1][..j] == acts[..i + 1];
    } else {
      assert acts[..i][..j] == acts[..j] && acts[..i][j - 1] == acts[j - 1];
      assert PresentAt(m, acts[..i], keys, j);
      StepsGrow(acts, j, i);
      if next != keys {
        assert next == keys + [next[|keys|]];
        AppliedExtend(m, acts[..j], keys, next[|keys|]);
      }
    }
  }

  lemma RoomyBelow<K(!new), V>(d: Dict<K, V>)
    requires |d.Contents()| <= Pow2(MAX_EXP - 1)
    ensures d.Roomy()
  {
  }

  lemma NoRemovals<K(!new), V>(acts: seq<Act<K, V>>)
    ensures Removals(acts, []) == {}
  {
  }

  lemma SizeOfUpdate<K, V>(m: map<K, V>, k: K, v: V)
    ensures |m[k := v]| <= |m| + 1
  {
    assert m[k := v].Keys == m.Keys + {k};
  }

  lemma SizeOfDrop<K, V>(m: map<K, V>, k: K)
    ensures |m - {k}| <= |m|
  {
    assert (m - {k}).Keys <= m.Keys;
    SubsetSize((m - {k}).Keys, m.Keys);
  }

  lemma {:induction false} SubsetSize<T>(a: set<T>, b: set<T>)
    requires a <= b
    ensures |a| <= |b|
  {
    if a != {} {
      var x :| x in a;
      SubsetSize(a - {x}, b - {x});
    }
  }
}
