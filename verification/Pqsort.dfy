/**
 The partial quicksort of pqsort.c: Bentley and McIlroy's three-way partition on an array in place, leaving
 alone the segments that hold no position of the requested range. Pointers are element indices; the range
 is compared in elements, where the source compares the addresses of their first and last bytes.
 */
module Pqsort {

  // ----- Order -----

  /** A comparison function for a total preorder, as the sign of its result tells. */
  ghost predicate IsOrder<T(!new)>(cmp: (T, T) -> int) {
    && (forall x, y :: cmp(x, y) < 0 <==> cmp(y, x) > 0)
    && (forall x, y, z :: cmp(x, y) <= 0 && cmp(y, z) <= 0 ==> cmp(x, z) <= 0)
  }

  lemma Flip<T(!new)>(cmp: (T, T) -> int, x: T, y: T)
    requires IsOrder(cmp)
    ensures cmp(x, y) < 0 <==> cmp(y, x) > 0
    ensures cmp(x, y) == 0 <==> cmp(y, x) == 0
    ensures cmp(x, x) == 0
  {
  }

  lemma Through<T(!new)>(cmp: (T, T) -> int, x: T, y: T, z: T)
    requires IsOrder(cmp) && cmp(x, y) <= 0 && cmp(y, z) <= 0
    ensures cmp(x, z) <= 0
  {
  }

  // ----- Permutations of a segment -----

  /** `t` is `s` with the elements of [lo, hi) permuted. */
  ghost predicate Permuted<T>(s: seq<T>, t: seq<T>, lo: int, hi: int) {
    && 0 <= lo <= hi <= |s| == |t|
    && t[..lo] == s[..lo] && t[hi..] == s[hi..]
    && multiset(t[lo..hi]) == multiset(s[lo..hi])
  }

  function Swapped<T>(s: seq<T>, i: nat, j: nat): (t: seq<T>)
    requires i < |s| && j < |s|
    ensures |t| == |s| && t[i] == s[j] && t[j] == s[i]
    ensures forall k :: 0 <= k < |s| && k != i && k != j ==> t[k] == s[k]
  {
    s[i := s[j]][j := s[i]]
  }

  lemma SwappedPermutes<T>(s: seq<T>, i: nat, j: nat, lo: nat, hi: nat)
    requires lo <= i < hi && lo <= j < hi && hi <= |s|
    ensures Permuted(s, Swapped(s, i, j), lo, hi)
  {
    var m := s[lo..hi];
    assert Swapped(s, i, j)[lo..hi] == m[i - lo := m[j - lo]][j - lo := m[i - lo]];
  }

  lemma PermutedChain<T>(s: seq<T>, t: seq<T>, u: seq<T>, lo: nat, hi: nat)
    requires Permuted(s, t, lo, hi) && Permuted(t, u, lo, hi)
    ensures Permuted(s, u, lo, hi)
  {
  }

  /** Elements outside the segment stay where they are. */
  lemma PermutedOutside<T>(s: seq<T>, t: seq<T>, lo: nat, hi: nat)
    requires Permuted(s, t, lo, hi)
    ensures forall k :: 0 <= k < lo || hi <= k < |s| ==> t[k] == s[k]
  {
    forall k | 0 <= k < lo || hi <= k < |s|
      ensures t[k] == s[k]
    {
      if k < lo {
        assert t[k] == t[..lo][k] && s[k] == s[..lo][k];
      } else {
        assert t[k] == t[hi..][k - hi] && s[k] == s[hi..][k - hi];
      }
    }
  }

  /** Every element of the segment was in it before. */
  lemma PermutedInside<T>(s: seq<T>, t: seq<T>, lo: nat, hi: nat, k: nat) returns (j: nat)
    requires Permuted(s, t, lo, hi) && lo <= k < hi
    ensures lo <= j < hi && t[k] == s[j]
  {
    assert t[k] == t[lo..hi][k - lo];
    assert t[k] in multiset(t[lo..hi]);
    assert t[k] in s[lo..hi];
    var i :| 0 <= i < hi - lo && s[lo..hi][i] == t[k];
    j := lo + i;
  }

  lemma SubPermuted<T>(s: seq<T>, t: seq<T>, lo: nat, x: nat, y: nat, hi: nat)
    requires Permuted(s, t, x, y) && lo <= x && y <= hi <= |s|
    ensures Permuted(s, t, lo, hi)
  {
    PermutedOutside(s, t, x, y);
    assert s[lo..hi] == s[lo..x] + s[x..y] + s[y..hi];
    assert t[lo..hi] == t[lo..x] + t[x..y] + t[y..hi];
    assert s[lo..x] == t[lo..x] && s[y..hi] == t[y..hi];
    assert s[..lo] == t[..lo] && s[hi..] == t[hi..];
  }

  method Swap<T>(a: array<T>, i: nat, j: nat)
    requires i < a.Length && j < a.Length
    modifies a
    ensures a[..] == Swapped(old(a[..]), i, j)
  {
    var t := a[i];
    a[i] := a[j];
    a[j] := t;
  }

  // ----- What the sort promises -----

  /** Positions i of the segment in [l, r] hold what sorting the segment would put there. */
  ghost predicate Placed<T>(s: seq<T>, cmp: (T, T) -> int, lo: int, hi: int, l: int, r: int)
    requires 0 <= lo <= hi <= |s|
  {
    forall i, j :: lo <= i < hi && l <= i <= r && lo <= j < hi ==>
      (j <= i ==> cmp(s[j], s[i]) <= 0) && (i <= j ==> cmp(s[i], s[j]) <= 0)
  }

  ghost predicate Sorted<T>(s: seq<T>, cmp: (T, T) -> int, lo: int, hi: int)
    requires 0 <= lo <= hi <= |s|
  {
    forall i, j :: lo <= i < j < hi ==> cmp(s[i], s[j]) <= 0
  }

  lemma SortedPlaced<T(!new)>(s: seq<T>, cmp: (T, T) -> int, lo: nat, hi: nat, l: int, r: int)
    requires IsOrder(cmp) && lo <= hi <= |s| && Sorted(s, cmp, lo, hi)
    ensures Placed(s, cmp, lo, hi, l, r)
  {
    forall i | lo <= i < hi
      ensures cmp(s[i], s[i]) == 0
    {
      Flip(cmp, s[i], s[i]);
    }
  }

  // ----- Insertion sort, for fewer than seven elements -----

  /** All but the element at `pl` is sorted, and that one is below what is behind it. */
  ghost predicate SortedBut<T>(s: seq<T>, cmp: (T, T) -> int, lo: int, hi: int, pl: int)
    requires 0 <= lo <= hi <= |s|
  {
    forall i, j :: lo <= i < j < hi && j != pl ==> cmp(s[i], s[j]) <= 0
  }

  lemma SinkStep<T(!new)>(s: seq<T>, cmp: (T, T) -> int, lo: nat, hi: nat, pl: nat)
    requires IsOrder(cmp) && lo < pl < hi <= |s| && SortedBut(s, cmp, lo, hi, pl) && cmp(s[pl - 1], s[pl]) > 0
    ensures SortedBut(Swapped(s, pl, pl - 1), cmp, lo, hi, pl - 1)
  {
    Flip(cmp, s[pl - 1], s[pl]);
  }

  lemma SinkStop<T(!new)>(s: seq<T>, cmp: (T, T) -> int, lo: nat, hi: nat, pl: nat)
    requires IsOrder(cmp) && lo <= pl < hi <= |s| && SortedBut(s, cmp, lo, hi, pl)
    requires pl > lo ==> cmp(s[pl - 1], s[pl]) <= 0
    ensures Sorted(s, cmp, lo, hi)
  {
    forall i | lo <= i < pl
      ensures cmp(s[i], s[pl]) <= 0
    {
      if i < pl - 1 {
        Through(cmp, s[i], s[pl - 1], s[pl]);
      }
    }
  }

  /** The inner loop: the element at `pm` sinks to its place among those before it. */
  method Sink<T(!new)>(a: array<T>, cmp: (T, T) -> int, lo: nat, pm: nat, ghost hi: nat)
    requires IsOrder(cmp) && lo <= pm < hi <= a.Length && Sorted(a[..], cmp, lo, pm)
    modifies a
    ensures Permuted(old(a[..]), a[..], lo, hi) && Sorted(a[..], cmp, lo, pm + 1)
  {
    hide IsOrder, Permuted, SortedBut, Sorted, Swapped;
    ghost var start := a[..];
    Unchanged(start, lo, hi);
    var pl := pm;
    SinkStart(a[..], cmp, lo, pm);
    while pl > lo && cmp(a[pl - 1], a[pl]) > 0
      invariant lo <= pl <= pm && SortedBut(a[..], cmp, lo, pm + 1, pl)
      invariant Permuted(start, a[..], lo, hi)
    {
      ghost var s := a[..];
      SinkStep(s, cmp, lo, pm + 1, pl);
      SwappedPermutes(s, pl, pl - 1, lo, hi);
      Swap(a, pl, pl - 1);
      PermutedChain(start, s, a[..], lo, hi);
      pl := pl - 1;
    }
    SinkStop(a[..], cmp, lo, pm + 1, pl);
  }

  method InsertionSort<T(!new)>(a: array<T>, cmp: (T, T) -> int, lo: nat, hi: nat)
    requires IsOrder(cmp) && lo <= hi <= a.Length
    modifies a
    ensures Permuted(old(a[..]), a[..], lo, hi) && Sorted(a[..], cmp, lo, hi)
  {
    hide IsOrder, Permuted;
    ghost var start := a[..];
    Unchanged(start, lo, hi);
    var pm := lo + 1;
    while pm < hi
      invariant lo + 1 <= pm && Sorted(a[..], cmp, lo, if pm < hi then pm else hi)
      invariant Permuted(start, a[..], lo, hi)
    {
      hide Sorted;
      ghost var s := a[..];
      Sink(a, cmp, lo, pm, hi);
      PermutedChain(start, s, a[..], lo, hi);
      pm := pm + 1;
    }
  }

  lemma SinkStart<T>(s: seq<T>, cmp: (T, T) -> int, lo: nat, pm: nat)
    requires lo <= pm < |s| && Sorted(s, cmp, lo, pm)
    ensures SortedBut(s, cmp, lo, pm + 1, pm)
  {
  }

  lemma Unchanged<T>(s: seq<T>, lo: nat, hi: nat)
    requires lo <= hi <= |s|
    ensures Permuted(s, s, lo, hi)
  {
  }

  // ----- Partition -----

  /** The middle one of three positions by value. */
  function Med3<T>(s: seq<T>, cmp: (T, T) -> int, a: nat, b: nat, c: nat): (m: nat)
    requires a < |s| && b < |s| && c < |s|
    ensures m == a || m == b || m == c
  {
    if cmp(s[a], s[b]) < 0 then
      if cmp(s[b], s[c]) < 0 then b else if cmp(s[a], s[c]) < 0 then c else a
    else
      if cmp(s[b], s[c]) > 0 then b else if cmp(s[a], s[c]) < 0 then a else c
  }

  predicate Between<T>(cmp: (T, T) -> int, x: T, y: T, z: T) {
    (cmp(x, y) <= 0 && cmp(y, z) <= 0) || (cmp(z, y) <= 0 && cmp(y, x) <= 0)
  }

  /** The element chosen is between the other two. */
  lemma Med3IsMedian<T(!new)>(s: seq<T>, cmp: (T, T) -> int, a: nat, b: nat, c: nat)
    requires IsOrder(cmp) && a < |s| && b < |s| && c < |s|
    ensures var m := Med3(s, cmp, a, b, c);
            || (m == a && Between(cmp, s[b], s[a], s[c]))
            || (m == b && Between(cmp, s[a], s[b], s[c]))
            || (m == c && Between(cmp, s[a], s[c], s[b]))
  {
    hide IsOrder;
    Flip(cmp, s[a], s[b]);
    Flip(cmp, s[b], s[c]);
    Flip(cmp, s[a], s[c]);
  }

  /** The pivot's position for seven or more elements: a median of three, or of three such medians. */
  method ChoosePivot<T>(a: array<T>, cmp: (T, T) -> int, lo: nat, hi: nat) returns (pm: nat)
    requires lo + 7 <= hi <= a.Length
    ensures lo <= pm < hi
  {
    var n := hi - lo;
    pm := lo + n / 2;
    if n > 7 {
      var pl, pn := lo, hi - 1;
      if n > 40 {
        var d := n / 8;
        pl := Med3(a[..], cmp, pl, pl + d, pl + 2 * d);
        pm := Med3(a[..], cmp, pm - d, pm, pm + d);
        pn := Med3(a[..], cmp, pn - 2 * d, pn - d, pn);
      }
      pm := Med3(a[..], cmp, pl, pm, pn);
    }
  }

  /** The pivot at `lo`, then equal, smaller, unknown, greater and equal elements. */
  ghost predicate Scanned<T>(s: seq<T>, cmp: (T, T) -> int, lo: int, pa: int, pb: int, pc: int, pd: int, hi: int) {
    && 0 <= lo < pa <= pb <= pc + 1 && pc <= pd < hi <= |s|
    && (forall k :: lo <= k < pa ==> cmp(s[k], s[lo]) == 0)
    && (forall k :: pa <= k < pb ==> cmp(s[k], s[lo]) < 0)
    && (forall k :: pc < k <= pd ==> cmp(s[k], s[lo]) > 0)
    && (forall k :: pd < k < hi ==> cmp(s[k], s[lo]) == 0)
  }

  lemma ScannedBounds<T>(s: seq<T>, cmp: (T, T) -> int, lo: int, pa: int, pb: int, pc: int, pd: int, hi: int)
    requires Scanned(s, cmp, lo, pa, pb, pc, pd, hi)
    ensures 0 <= lo < pa <= pb <= pc + 1 && pc <= pd < hi <= |s|
  {
  }

  lemma UpEqual<T>(s: seq<T>, cmp: (T, T) -> int, lo: int, pa: int, pb: int, pc: int, pd: int, hi: int)
    requires Scanned(s, cmp, lo, pa, pb, pc, pd, hi) && pb <= pc && cmp(s[pb], s[lo]) == 0
    ensures Scanned(Swapped(s, pa, pb), cmp, lo, pa + 1, pb + 1, pc, pd, hi)
  {
  }

  lemma UpSmaller<T>(s: seq<T>, cmp: (T, T) -> int, lo: int, pa: int, pb: int, pc: int, pd: int, hi: int)
    requires Scanned(s, cmp, lo, pa, pb, pc, pd, hi) && pb <= pc && cmp(s[pb], s[lo]) < 0
    ensures Scanned(s, cmp, lo, pa, pb + 1, pc, pd, hi)
  {
  }

  lemma DownEqual<T>(s: seq<T>, cmp: (T, T) -> int, lo: int, pa: int, pb: int, pc: int, pd: int, hi: int)
    requires Scanned(s, cmp, lo, pa, pb, pc, pd, hi) && pb <= pc && cmp(s[pc], s[lo]) == 0
    ensures Scanned(Swapped(s, pc, pd), cmp, lo, pa, pb, pc - 1, pd - 1, hi)
  {
  }

  lemma DownGreater<T>(s: seq<T>, cmp: (T, T) -> int, lo: int, pa: int, pb: int, pc: int, pd: int, hi: int)
    requires Scanned(s, cmp, lo, pa, pb, pc, pd, hi) && pb <= pc && cmp(s[pc], s[lo]) > 0
    ensures Scanned(s, cmp, lo, pa, pb, pc - 1, pd, hi)
  {
  }

  lemma Cross<T>(s: seq<T>, cmp: (T, T) -> int, lo: int, pa: int, pb: int, pc: int, pd: int, hi: int)
    requires Scanned(s, cmp, lo, pa, pb, pc, pd, hi) && pb <= pc && cmp(s[pb], s[lo]) > 0 && cmp(s[pc], s[lo]) < 0
    ensures pb < pc && Scanned(Swapped(s, pb, pc), cmp, lo, pa, pb + 1, pc - 1, pd, hi)
  {
  }

  /** The scan from the left: equal elements are collected in front. */
  method ScanUp<T(!new)>(a: array<T>, cmp: (T, T) -> int, lo: nat, pa0: nat, pb0: nat, pc: int, pd: int, hi: nat)
    returns (pa: nat, pb: nat)
    requires hi <= a.Length && Scanned(a[..], cmp, lo, pa0, pb0, pc, pd, hi)
    modifies a
    ensures Scanned(a[..], cmp, lo, pa, pb, pc, pd, hi) && pb >= pb0
    ensures pb <= pc ==> cmp(a[pb], a[lo]) > 0
    ensures Permuted(old(a[..]), a[..], lo, hi)
  {
    hide Permuted, Scanned, Swapped;
    ghost var start := a[..];
    ScannedBounds(start, cmp, lo, pa0, pb0, pc, pd, hi);
    Unchanged(start, lo, hi);
    pa, pb := pa0, pb0;
    while pb <= pc && cmp(a[pb], a[lo]) <= 0
      invariant Scanned(a[..], cmp, lo, pa, pb, pc, pd, hi) && pb >= pb0 && lo < pa <= pb
      invariant Permuted(start, a[..], lo, hi)
      decreases pc + 1 - pb
    {
      ghost var s := a[..];
      if cmp(a[pb], a[lo]) == 0 {
        UpEqual(s, cmp, lo, pa, pb, pc, pd, hi);
        SwappedPermutes(s, pa, pb, lo, hi);
        Swap(a, pa, pb);
        PermutedChain(start, s, a[..], lo, hi);
        pa := pa + 1;
      } else {
        UpSmaller(s, cmp, lo, pa, pb, pc, pd, hi);
      }
      pb := pb + 1;
    }
  }

  /** The scan from the right: equal elements are collected at the end. */
  method ScanDown<T(!new)>(a: array<T>, cmp: (T, T) -> int, lo: nat, pa: nat, pb: nat, pc0: int, pd0: int, hi: nat)
    returns (pc: int, pd: int)
    requires hi <= a.Length && Scanned(a[..], cmp, lo, pa, pb, pc0, pd0, hi)
    requires pb <= pc0 ==> cmp(a[pb], a[lo]) > 0
    modifies a
    ensures Scanned(a[..], cmp, lo, pa, pb, pc, pd, hi) && pc <= pc0
    ensures pb <= pc ==> cmp(a[pb], a[lo]) > 0 && cmp(a[pc], a[lo]) < 0
    ensures Permuted(old(a[..]), a[..], lo, hi)
  {
    hide Permuted, Scanned, Swapped;
    ghost var start := a[..];
    ScannedBounds(start, cmp, lo, pa, pb, pc0, pd0, hi);
    Unchanged(start, lo, hi);
    pc, pd := pc0, pd0;
    while pb <= pc && cmp(a[pc], a[lo]) >= 0
      invariant Scanned(a[..], cmp, lo, pa, pb, pc, pd, hi) && pc <= pc0 && pc <= pd < hi
      invariant pb <= pc ==> a[pb] == start[pb] && a[lo] == start[lo]
      invariant Permuted(start, a[..], lo, hi)
      decreases pc + 1 - pb
    {
      ghost var s := a[..];
      if cmp(a[pc], a[lo]) == 0 {
        DownEqual(s, cmp, lo, pa, pb, pc, pd, hi);
        SwappedPermutes(s, pc, pd, lo, hi);
        Swap(a, pc, pd);
        PermutedChain(start, s, a[..], lo, hi);
        pd := pd - 1;
      } else {
        DownGreater(s, cmp, lo, pa, pb, pc, pd, hi);
      }
      pc := pc - 1;
    }
  }

  /** The loop over both scans. */
  method Scan<T(!new)>(a: array<T>, cmp: (T, T) -> int, lo: nat, hi: nat) returns (pa: nat, pb: nat, pc: int, pd: int)
    requires IsOrder(cmp) && lo + 1 < hi <= a.Length
    modifies a
    ensures pb == pc + 1 && Scanned(a[..], cmp, lo, pa, pb, pc, pd, hi)
    ensures Permuted(old(a[..]), a[..], lo, hi)
  {
    hide IsOrder, Permuted, Swapped;
    ghost var start := a[..];
    Unchanged(start, lo, hi);
    Flip(cmp, a[lo], a[lo]);
    pa, pb, pc, pd := lo + 1, lo + 1, hi - 1, hi - 1;
    while true
      invariant Scanned(a[..], cmp, lo, pa, pb, pc, pd, hi)
      invariant Permuted(start, a[..], lo, hi)
      decreases pc + 1 - pb
    {
      hide Scanned;
      ghost var s := a[..];
      pa, pb := ScanUp(a, cmp, lo, pa, pb, pc, pd, hi);
      ghost var t := a[..];
      PermutedChain(start, s, t, lo, hi);
      pc, pd := ScanDown(a, cmp, lo, pa, pb, pc, pd, hi);
      ghost var u := a[..];
      PermutedChain(start, t, u, lo, hi);
      ScannedBounds(u, cmp, lo, pa, pb, pc, pd, hi);
      if pb > pc {
        break;
      }
      Cross(u, cmp, lo, pa, pb, pc, pd, hi);
      SwappedPermutes(u, pb, pc, lo, hi);
      Swap(a, pb, pc);
      PermutedChain(start, u, a[..], lo, hi);
      pb := pb + 1;
      pc := pc - 1;
    }
  }

  /** `t` is `s` with the `n` elements at `i` and those at `j` exchanged. */
  ghost predicate Exchanged<T>(s: seq<T>, t: seq<T>, i: nat, j: nat, n: nat) {
    && i + n <= j && j + n <= |s| == |t|
    && (forall k :: i <= k < i + n ==> t[k] == s[k + (j - i)])
    && (forall k :: j <= k < j + n ==> t[k] == s[k - (j - i)])
    && (forall k :: 0 <= k < |s| && !(i <= k < i + n) && !(j <= k < j + n) ==> t[k] == s[k])
  }

  lemma ExchangeNext<T>(s: seq<T>, t: seq<T>, i: nat, j: nat, n: nat)
    requires Exchanged(s, t, i, j, n) && i + n < j && j + n < |s|
    ensures Exchanged(s, Swapped(t, i + n, j + n), i, j, n + 1)
  {
  }

  /** vecswap: the `n` elements at `i` change places with those at `j`. */
  method VecSwap<T>(a: array<T>, i: nat, j: nat, n: nat, ghost lo: nat, ghost hi: nat)
    requires lo <= i && i + n <= j && j + n <= hi <= a.Length
    modifies a
    ensures Exchanged(old(a[..]), a[..], i, j, n)
    ensures Permuted(old(a[..]), a[..], lo, hi)
  {
    hide Permuted, Swapped;
    ghost var start := a[..];
    Unchanged(start, lo, hi);
    var c := 0;
    while c < n
      invariant 0 <= c <= n && Exchanged(start, a[..], i, j, c)
      invariant Permuted(start, a[..], lo, hi)
    {
      hide Exchanged;
      ghost var s := a[..];
      ExchangeNext(start, s, i, j, c);
      SwappedPermutes(s, i + c, j + c, lo, hi);
      Swap(a, i + c, j + c);
      PermutedChain(start, s, a[..], lo, hi);
      c := c + 1;
    }
  }

  function Min(a: nat, b: nat): nat { if a < b then a else b }

  /** Smaller elements, elements equal to `v`, greater ones. */
  ghost predicate Parted<T>(s: seq<T>, cmp: (T, T) -> int, v: T, lo: int, k1: int, k2: int, hi: int) {
    && 0 <= lo <= k1 < k2 <= hi <= |s|
    && (forall k :: lo <= k < k1 ==> cmp(s[k], v) < 0)
    && (forall k :: k1 <= k < k2 ==> cmp(s[k], v) == 0)
    && (forall k :: k2 <= k < hi ==> cmp(s[k], v) > 0)
  }

  lemma FrontParted<T>(s: seq<T>, t: seq<T>, cmp: (T, T) -> int, v: T, lo: int, pa: int, pb: int, pd: int, hi: int)
    requires Scanned(s, cmp, lo, pa, pb, pb - 1, pd, hi) && v == s[lo]
    requires var r := Min(pa - lo, pb - pa); Exchanged(s, t, lo, pb - r, r)
    ensures forall k :: lo <= k < lo + (pb - pa) ==> cmp(t[k], v) < 0
    ensures forall k :: lo + (pb - pa) <= k < pb ==> cmp(t[k], v) == 0
    ensures forall k :: pb <= k < hi ==> t[k] == s[k]
  {
  }

  lemma BackParted<T>(s: seq<T>, t: seq<T>, u: seq<T>, cmp: (T, T) -> int, v: T, lo: int, pa: int, pb: int, pd: int,
                      hi: int)
    requires Scanned(s, cmp, lo, pa, pb, pb - 1, pd, hi) && v == s[lo] && |t| == |s|
    requires forall k :: pb <= k < hi ==> t[k] == s[k]
    requires var r := Min(pd - (pb - 1), hi - 1 - pd); Exchanged(t, u, pb, hi - r, r)
    ensures forall k :: pb <= k < hi - (pd - (pb - 1)) ==> cmp(u[k], v) == 0
    ensures forall k :: hi - (pd - (pb - 1)) <= k < hi ==> cmp(u[k], v) > 0
    ensures forall k :: lo <= k < pb ==> u[k] == t[k]
  {
  }

  /** One round of the loop up to the recursion. */
  method Partition<T(!new)>(a: array<T>, cmp: (T, T) -> int, lo: nat, hi: nat) returns (k1: nat, k2: nat, ghost v: T)
    requires IsOrder(cmp) && lo + 7 <= hi <= a.Length
    modifies a
    ensures Parted(a[..], cmp, v, lo, k1, k2, hi)
    ensures Permuted(old(a[..]), a[..], lo, hi)
  {
    hide IsOrder, Permuted, Swapped, Scanned, Exchanged;
    ghost var start := a[..];
    var pm := ChoosePivot(a, cmp, lo, hi);
    SwappedPermutes(start, lo, pm, lo, hi);
    Swap(a, lo, pm);
    ghost var s := a[..];
    var pa, pb, pc, pd := Scan(a, cmp, lo, hi);
    v := a[lo];
    ghost var t := a[..];
    ScannedBounds(t, cmp, lo, pa, pb, pc, pd, hi);
    PermutedChain(start, s, t, lo, hi);
    var r := Min(pa - lo, pb - pa);
    VecSwap(a, lo, pb - r, r, lo, hi);
    ghost var u := a[..];
    PermutedChain(start, t, u, lo, hi);
    r := Min(pd - pc, hi - 1 - pd);
    VecSwap(a, pb, hi - r, r, lo, hi);
    PermutedChain(start, u, a[..], lo, hi);
    k1, k2 := lo + (pb - pa), hi - (pd - pc);
    FrontParted(t, u, cmp, v, lo, pa, pb, pd, hi);
    BackParted(t, u, a[..], cmp, v, lo, pa, pb, pd, hi);
  }

  // ----- The sort -----

  /** Elements before `b` are in place and none is above an element from `b` on. */
  ghost predicate Done<T>(s: seq<T>, cmp: (T, T) -> int, lo: int, b: int, hi: int, l: int, r: int) {
    && 0 <= lo <= b <= hi <= |s|
    && (forall i, j :: lo <= i < b <= j < hi ==> cmp(s[i], s[j]) <= 0)
    && Placed(s, cmp, lo, b, l, r)
  }

  /** The last segment in place puts everything in place. */
  lemma Finish<T(!new)>(s: seq<T>, t: seq<T>, cmp: (T, T) -> int, lo: nat, b: nat, hi: nat, l: int, r: int)
    requires IsOrder(cmp) && Done(s, cmp, lo, b, hi, l, r) && Permuted(s, t, b, hi) && Placed(t, cmp, b, hi, l, r)
    ensures Placed(t, cmp, lo, hi, l, r)
  {
    PermutedOutside(s, t, b, hi);
    forall i, j | lo <= i < b <= j < hi
      ensures cmp(t[i], t[j]) <= 0
    {
      var k := PermutedInside(s, t, b, hi, j);
    }
  }

  lemma SinglePlaced<T(!new)>(s: seq<T>, cmp: (T, T) -> int, lo: nat, hi: nat, l: int, r: int)
    requires IsOrder(cmp) && lo <= hi <= |s|
    requires hi <= lo + 1 || (l < lo && r < lo) || (l >= hi && r >= hi)
    ensures Placed(s, cmp, lo, hi, l, r)
  {
    if lo < hi {
      Flip(cmp, s[lo], s[lo]);
    }
  }

  /** A permutation of the smaller elements alone keeps the partition. */
  lemma PartedKept<T(!new)>(s: seq<T>, t: seq<T>, cmp: (T, T) -> int, v: T, lo: nat, k1: nat, k2: nat, hi: nat)
    requires Parted(s, cmp, v, lo, k1, k2, hi) && Permuted(s, t, lo, k1)
    ensures Parted(t, cmp, v, lo, k1, k2, hi)
  {
    PermutedOutside(s, t, lo, k1);
    forall k | lo <= k < k1
      ensures cmp(t[k], v) < 0
    {
      var j := PermutedInside(s, t, lo, k1, k);
    }
  }

  /** The three parts are in order. */
  lemma PartedOrder<T(!new)>(s: seq<T>, cmp: (T, T) -> int, v: T, lo: nat, k1: nat, k2: nat, hi: nat, i: nat, j: nat)
    requires IsOrder(cmp) && Parted(s, cmp, v, lo, k1, k2, hi)
    requires lo <= i < k2 && k1 <= j < hi && (i < k1 || j < k2 || k2 <= j)
    ensures cmp(s[i], s[j]) <= 0
  {
    hide IsOrder;
    Flip(cmp, s[i], v);
    Flip(cmp, s[j], v);
    Through(cmp, s[i], v, s[j]);
  }

  /** One round of the loop: from `b` to the segment of the greater elements. */
  lemma Advance<T(!new)>(s: seq<T>, t: seq<T>, cmp: (T, T) -> int, v: T, lo: nat, b: nat, k1: nat, k2: nat, hi: nat,
                  l: int, r: int)
    requires IsOrder(cmp) && Done(s, cmp, lo, b, hi, l, r) && Permuted(s, t, b, hi)
    requires Parted(t, cmp, v, b, k1, k2, hi) && Placed(t, cmp, b, k1, l, r)
    ensures Done(t, cmp, lo, k2, hi, l, r)
  {
    hide IsOrder;
    PermutedOutside(s, t, b, hi);
    forall i, j | lo <= i < b <= j < hi
      ensures cmp(t[i], t[j]) <= 0
    {
      var k := PermutedInside(s, t, b, hi, j);
    }
    forall i, j | b <= i < k2 && k1 <= j < hi
      ensures cmp(t[i], t[j]) <= 0
    {
      PartedOrder(t, cmp, v, b, k1, k2, hi, i, j);
    }
  }

  /** _pqsort: recursion on the smaller elements, iteration on the greater ones. */
  method SortSegment<T(!new)>(a: array<T>, cmp: (T, T) -> int, lo: nat, hi: nat, l: int, r: int)
    requires IsOrder(cmp) && lo <= hi <= a.Length
    modifies a
    ensures Permuted(old(a[..]), a[..], lo, hi) && Placed(a[..], cmp, lo, hi, l, r)
    decreases hi - lo
  {
    hide IsOrder, Permuted;
    ghost var start := a[..];
    Unchanged(start, lo, hi);
    var b := lo;
    while true
      invariant lo <= b <= hi && Done(a[..], cmp, lo, b, hi, l, r)
      invariant Permuted(start, a[..], lo, hi)
      decreases hi - b
    {
      hide Done, Placed, Sorted, Parted;
      ghost var s := a[..];
      if hi - b < 7 {
        InsertionSort(a, cmp, b, hi);
        SortedPlaced(a[..], cmp, b, hi, l, r);
        SubPermuted(s, a[..], lo, b, hi, hi);
        PermutedChain(start, s, a[..], lo, hi);
        Finish(s, a[..], cmp, lo, b, hi, l, r);
        return;
      }
      var k1, k2, v := Partition(a, cmp, b, hi);
      ghost var t := a[..];
      PartedBounds(t, cmp, v, b, k1, k2, hi);
      SubPermuted(s, t, lo, b, hi, hi);
      PermutedChain(start, s, t, lo, hi);
      if k1 - b > 1 && !((l < b && r < b) || (l > k1 - 1 && r > k1 - 1)) {
        SortSegment(a, cmp, b, k1, l, r);
      } else {
        Unchanged(t, b, k1);
        SinglePlaced(t, cmp, b, k1, l, r);
      }
      ghost var u := a[..];
      SubPermuted(t, u, b, b, k1, hi);
      PermutedChain(s, t, u, b, hi);
      SubPermuted(t, u, lo, b, k1, hi);
      PermutedChain(start, t, u, lo, hi);
      PartedKept(t, u, cmp, v, b, k1, k2, hi);
      Advance(s, u, cmp, v, lo, b, k1, k2, hi, l, r);
      b := k2;
      if !(hi - b > 1 && !((l < b && r < b) || (l > hi - 1 && r > hi - 1))) {
        SinglePlaced(u, cmp, b, hi, l, r);
        Unchanged(u, b, hi);
        Finish(u, u, cmp, lo, b, hi, l, r);
        return;
      }
    }
  }

  lemma PartedBounds<T>(s: seq<T>, cmp: (T, T) -> int, v: T, lo: int, k1: int, k2: int, hi: int)
    requires Parted(s, cmp, v, lo, k1, k2, hi)
    ensures 0 <= lo <= k1 < k2 <= hi <= |s|
  {
  }

  /** pqsort. */
  method Pqsort<T(!new)>(a: array<T>, cmp: (T, T) -> int, lrange: nat, rrange: nat)
    requires IsOrder(cmp)
    modifies a
    ensures multiset(a[..]) == multiset(old(a[..]))
    ensures Placed(a[..], cmp, 0, a.Length, lrange, rrange)
  {
    hide IsOrder, Placed;
    ghost var start := a[..];
    SortSegment(a, cmp, 0, a.Length, lrange, rrange);
    assert start[0..a.Length] == start && a[..][0..a.Length] == a[..];
  }

  // ----- Agreement with a full sort -----

  /** How many elements are not above `v`. */
  function CountLe<T>(s: seq<T>, cmp: (T, T) -> int, v: T): nat {
    if s == [] then 0 else (if cmp(s[0], v) <= 0 then 1 else 0) + CountLe(s[1..], cmp, v)
  }

  lemma {:induction false} CountAppend<T>(s: seq<T>, t: seq<T>, cmp: (T, T) -> int, v: T)
    ensures CountLe(s + t, cmp, v) == CountLe(s, cmp, v) + CountLe(t, cmp, v)
  {
    if s == [] {
      assert s + t == t;
    } else {
      assert (s + t)[1..] == s[1..] + t;
      CountAppend(s[1..], t, cmp, v);
    }
  }

  lemma {:induction false} CountOne<T>(x: T, cmp: (T, T) -> int, v: T)
    ensures CountLe([x], cmp, v) == if cmp(x, v) <= 0 then 1 else 0
  {
  }

  lemma {:induction false} CountAround<T>(pre: seq<T>, x: T, post: seq<T>, cmp: (T, T) -> int, v: T)
    ensures CountLe(pre + [x] + post, cmp, v) == (if cmp(x, v) <= 0 then 1 else 0) + CountLe(pre + post, cmp, v)
  {
    CountOne(x, cmp, v);
    hide CountLe;
    CountAppend(pre + [x], post, cmp, v);
    CountAppend(pre, [x], cmp, v);
    CountAppend(pre, post, cmp, v);
  }

  lemma MultisetAround<T>(pre: seq<T>, x: T, post: seq<T>)
    ensures multiset(pre + post) == multiset(pre + [x] + post) - multiset{x}
  {
  }

  lemma CountWithout<T>(t: seq<T>, i: nat, cmp: (T, T) -> int, v: T)
    requires i < |t|
    ensures CountLe(t, cmp, v) == (if cmp(t[i], v) <= 0 then 1 else 0) + CountLe(t[..i] + t[i + 1..], cmp, v)
  {
    hide CountLe;
    assert t == t[..i] + [t[i]] + t[i + 1..];
    CountAround(t[..i], t[i], t[i + 1..], cmp, v);
  }

  lemma MultisetWithout<T>(t: seq<T>, i: nat)
    requires i < |t|
    ensures multiset(t[..i] + t[i + 1..]) == multiset(t) - multiset{t[i]}
  {
    assert t == t[..i] + [t[i]] + t[i + 1..];
    MultisetAround(t[..i], t[i], t[i + 1..]);
  }

  lemma Occurs<T>(x: T, t: seq<T>) returns (i: nat)
    requires x in multiset(t)
    ensures i < |t| && t[i] == x
  {
    i :| 0 <= i < |t| && t[i] == x;
  }

  lemma NothingLeft<T>(t: seq<T>)
    requires multiset(t) == multiset{}
    ensures t == []
  {
    assert |multiset(t)| == 0;
  }

  lemma {:induction false} CountOfPermutation<T>(s: seq<T>, t: seq<T>, cmp: (T, T) -> int, v: T)
    requires multiset(s) == multiset(t)
    ensures CountLe(s, cmp, v) == CountLe(t, cmp, v)
    decreases |s|
  {
    hide CountLe;
    if s == [] {
      NothingLeft(t);
    } else {
      var i := Occurs(s[0], t);
      MultisetWithout(t, i);
      MultisetWithout(s, 0);
      CountOfPermutation(s[..0] + s[1..], t[..i] + t[i + 1..], cmp, v);
      CountWithout(t, i, cmp, v);
      CountWithout(s, 0, cmp, v);
    }
  }

  lemma {:induction false} CountAll<T>(s: seq<T>, cmp: (T, T) -> int, v: T)
    ensures CountLe(s, cmp, v) <= |s|
    ensures (forall k :: 0 <= k < |s| ==> cmp(s[k], v) <= 0) ==> CountLe(s, cmp, v) == |s|
    ensures (forall k :: 0 <= k < |s| ==> cmp(s[k], v) > 0) ==> CountLe(s, cmp, v) == 0
  {
    if s != [] {
      CountAll(s[1..], cmp, v);
    }
  }

  /** At least i + 1 elements are not above that of position i when those before it are not. */
  lemma CountAtLeast<T(!new)>(s: seq<T>, cmp: (T, T) -> int, i: nat, v: T)
    requires i < |s| && forall j :: 0 <= j <= i ==> cmp(s[j], v) <= 0
    ensures CountLe(s, cmp, v) >= i + 1
  {
    assert s == s[..i + 1] + s[i + 1..];
    CountAppend(s[..i + 1], s[i + 1..], cmp, v);
    CountAll(s[..i + 1], cmp, v);
  }

  lemma CountAtMost<T(!new)>(s: seq<T>, cmp: (T, T) -> int, i: nat, v: T)
    requires i < |s| && forall j :: i <= j < |s| ==> cmp(s[j], v) > 0
    ensures CountLe(s, cmp, v) <= i
  {
    assert s == s[..i] + s[i..];
    CountAppend(s[..i], s[i..], cmp, v);
    CountAll(s[..i], cmp, v);
    CountAll(s[i..], cmp, v);
  }

  /** Two arrangements of the same elements, in both of which position i is in place. */
  lemma PlaceNotAbove<T(!new)>(s: seq<T>, t: seq<T>, cmp: (T, T) -> int, i: nat)
    requires IsOrder(cmp) && multiset(s) == multiset(t) && i < |s| == |t|
    requires forall j :: 0 <= j <= i ==> cmp(s[j], s[i]) <= 0
    requires forall j :: i <= j < |t| ==> cmp(t[i], t[j]) <= 0
    ensures cmp(t[i], s[i]) <= 0
  {
    hide IsOrder;
    if cmp(t[i], s[i]) > 0 {
      Flip(cmp, t[i], s[i]);
      forall j | i <= j < |t|
        ensures cmp(t[j], s[i]) > 0
      {
        Flip(cmp, t[j], s[i]);
        if cmp(t[j], s[i]) <= 0 {
          Through(cmp, t[i], t[j], s[i]);
        }
      }
      CountAtLeast(s, cmp, i, s[i]);
      CountAtMost(t, cmp, i, s[i]);
      CountOfPermutation(s, t, cmp, s[i]);
    }
  }

  /** Inside [l, r] the result agrees with every full sort of the same elements, up to equivalence. */
  lemma AgreesWithSort<T(!new)>(s: seq<T>, sorted: seq<T>, cmp: (T, T) -> int, l: int, r: int, i: nat)
    requires IsOrder(cmp) && multiset(s) == multiset(sorted) && |s| == |sorted|
    requires Placed(s, cmp, 0, |s|, l, r) && Sorted(sorted, cmp, 0, |sorted|)
    requires i < |s| && l <= i <= r
    ensures cmp(s[i], sorted[i]) == 0
  {
    hide IsOrder;
    forall k | 0 <= k < |sorted|
      ensures cmp(sorted[k], sorted[k]) == 0
    {
      Flip(cmp, sorted[k], sorted[k]);
    }
    Flip(cmp, s[i], sorted[i]);
    PlaceNotAbove(s, sorted, cmp, i);
    PlaceNotAbove(sorted, s, cmp, i);
    Flip(cmp, sorted[i], s[i]);
  }
}
