/**
 The sorted set of integers of intset.c, down to its bytes: elements of 2, 4 or 8 bytes, little endian,
 widened in place when a value does not fit.
 */
module Intset {
  import opened Bytes
  import opened Endian

  const INT16 := 2
  const INT32 := 4
  const INT64 := 8

  predicate IsEncoding(e: nat) { e == INT16 || e == INT32 || e == INT64 }

  type Int64 = v: int | -0x8000_0000_0000_0000 <= v < 0x8000_0000_0000_0000

  /** _intsetValueEncoding. */
  function ValueEncoding(v: Int64): (e: nat)
    ensures IsEncoding(e)
  {
    if v < -0x8000_0000 || v > 0x7fff_ffff then INT64
    else if v < -0x8000 || v > 0x7fff then INT32
    else INT16
  }

  /** The encoding of a value is the least that holds it. */
  lemma EncodingFits(v: Int64, e: nat)
    requires IsEncoding(e)
    ensures FitsBytes(v, e) <==> ValueEncoding(v) <= e
  {
    assert Power256(1) == 0x100 && Power256(2) == 0x1_0000;
    assert Power256(3) == 0x100_0000 && Power256(4) == 0x1_0000_0000;
    assert Power256(5) == 0x100_0000_0000 && Power256(6) == 0x1_0000_0000_0000;
    assert Power256(7) == 0x100_0000_0000_0000 && Power256(8) == 0x1_0000_0000_0000_0000;
  }

  // ----- Elements in bytes -----

  /** Element `pos` of width `e` lies inside `b`. */
  predicate Inside(b: seq<byte>, pos: nat, e: nat) {
    pos * e + e <= |b|
  }

  /** _intsetGetEncoded. */
  function Get(b: seq<byte>, pos: nat, e: nat): (v: Int64)
    requires IsEncoding(e) && Inside(b, pos, e)
    ensures FitsBytes(v, e)
  {
    SignedFits(b[pos * e..pos * e + e]);
    EightIsEnough(e);
    ToSigned(FromLittleEndian(b[pos * e..pos * e + e]), e)
  }

  lemma EightIsEnough(e: nat)
    requires IsEncoding(e)
    ensures Power256(e) <= 0x1_0000_0000_0000_0000
  {
    assert Power256(2) == 0x1_0000 && Power256(4) == 0x1_0000_0000;
    assert Power256(6) == 0x1_0000_0000_0000 && Power256(8) == 0x1_0000_0000_0000_0000;
  }

  /** `c` is `b` with the bytes of element `pos` replaced by those of `v`. */
  ghost predicate Written(b: seq<byte>, c: seq<byte>, pos: nat, e: nat, v: int) {
    && Inside(b, pos, e) && |c| == |b|
    && c[pos * e..pos * e + e] == LittleEndian(ToUnsigned(v, e), e)
    && SameOutside(b, c, pos * e, pos * e + e)
  }

  ghost predicate SameOutside(b: seq<byte>, c: seq<byte>, lo: int, hi: int) {
    |c| == |b| && forall k :: 0 <= k < |b| && !(lo <= k < hi) ==> c[k] == b[k]
  }

  lemma WrittenRead(b: seq<byte>, c: seq<byte>, pos: nat, e: nat, v: Int64)
    requires IsEncoding(e) && Written(b, c, pos, e, v) && FitsBytes(v, e)
    ensures Get(c, pos, e) == v
  {
    SignedRoundTrip(v, e);
  }

  /** Elements that do not overlap the changed bytes keep their value, in whatever width they are read. */
  lemma ReadOutside(b: seq<byte>, c: seq<byte>, lo: nat, hi: nat, pos: nat, e: nat)
    requires SameOutside(b, c, lo, hi) && IsEncoding(e) && Inside(b, pos, e)
    requires pos * e + e <= lo || hi <= pos * e
    ensures Inside(c, pos, e) && Get(c, pos, e) == Get(b, pos, e)
  {
    assert c[pos * e..pos * e + e] == b[pos * e..pos * e + e];
  }

  lemma {:induction false} Scale(i: nat, j: nat, e: nat)
    requires i <= j
    ensures i * e <= j * e
    ensures i < j ==> i * e + e <= j * e
    decreases j
  {
    if i < j {
      Scale(i, j - 1, e);
      assert j * e == (j - 1) * e + e;
    }
  }

  /** The first `n` elements. */
  function Elements(b: seq<byte>, n: nat, e: nat): (s: seq<Int64>)
    requires IsEncoding(e) && n * e <= |b|
    ensures |s| == n && forall i :: 0 <= i < n ==> Inside(b, i, e) && s[i] == Get(b, i, e)
  {
    InsideAll(b, n, e);
    seq(n, i requires 0 <= i < n && Inside(b, i, e) => Get(b, i, e))
  }

  lemma InsideAll(b: seq<byte>, n: nat, e: nat)
    requires n * e <= |b|
    ensures forall i :: 0 <= i < n ==> Inside(b, i, e)
  {
    forall i | 0 <= i < n
      ensures Inside(b, i, e)
    {
      Scale(i, n, e);
    }
  }

  ghost predicate Increasing(s: seq<Int64>) {
    forall i, j :: 0 <= i < j < |s| ==> s[i] < s[j]
  }

  /** One element written: the sequence has it at its place. */
  lemma ElementsWritten(b: seq<byte>, c: seq<byte>, n: nat, pos: nat, e: nat, v: Int64)
    requires IsEncoding(e) && Written(b, c, pos, e, v) && FitsBytes(v, e) && pos < n && n * e <= |b|
    ensures n * e <= |c| && Elements(c, n, e) == Elements(b, n, e)[pos := v]
  {
    hide Get, Inside;
    forall i | 0 <= i < n
      ensures Elements(c, n, e)[i] == Elements(b, n, e)[pos := v][i]
    {
      InsideAll(b, n, e);
      if i == pos {
        WrittenRead(b, c, pos, e, v);
      } else {
        if i < pos {
          Scale(i, pos, e);
        } else {
          Scale(pos, i, e);
        }
        ReadOutside(b, c, pos * e, pos * e + e, i, e);
      }
    }
  }

  lemma SliceOfSlice(b: seq<byte>, lo: nat, hi: nat, x: nat, y: nat)
    requires x <= y && lo + y <= hi <= |b|
    ensures b[lo..hi][x..y] == b[lo + x..lo + y]
  {
    SliceOfSuffix(b[..hi], lo, x, y);
    assert b[..hi][lo..] == b[lo..hi];
    assert b[..hi][lo + x..lo + y] == b[lo + x..lo + y];
  }

  lemma ElementMoved(b: seq<byte>, c: seq<byte>, from: nat, to: nat, n: nat, e: nat, i: nat)
    requires IsEncoding(e) && (from + n) * e <= |b| && (to + n) * e <= |c| && i < n
    requires from * e <= (from + n) * e && to * e <= (to + n) * e
    requires c[to * e..(to + n) * e] == b[from * e..(from + n) * e]
    ensures Inside(c, to + i, e) && Inside(b, from + i, e) && Get(c, to + i, e) == Get(b, from + i, e)
  {
    Offset(from, i, n, e);
    Offset(to, i, n, e);
    var ie := i * e;
    SliceOfSlice(b, from * e, (from + n) * e, ie, ie + e);
    SliceOfSlice(c, to * e, (to + n) * e, ie, ie + e);
  }

  /** A block of `n` elements moved from `from` to `to`. */
  lemma ElementsMoved(b: seq<byte>, c: seq<byte>, from: nat, to: nat, n: nat, e: nat)
    requires IsEncoding(e) && (from + n) * e <= |b| && (to + n) * e <= |c|
    requires from * e <= (from + n) * e && to * e <= (to + n) * e
    requires c[to * e..(to + n) * e] == b[from * e..(from + n) * e]
    ensures Elements(c, to + n, e)[to..] == Elements(b, from + n, e)[from..]
  {
    hide Inside, Get;
    var x, y := Elements(c, to + n, e)[to..], Elements(b, from + n, e)[from..];
    forall k | 0 <= k < n
      ensures x[k] == y[k]
    {
      ElementMoved(b, c, from, to, n, e, k);
    }
  }

  lemma Offset(from: nat, i: nat, n: nat, e: nat)
    requires i < n
    ensures (from + i) * e == from * e + i * e && i * e + e <= n * e && (from + n) * e == from * e + n * e
  {
    Scale(i, n, e);
  }

  lemma ElementsPrefix(b: seq<byte>, c: seq<byte>, m: nat, n: nat, e: nat)
    requires IsEncoding(e) && m <= n && n * e <= |b| && m * e <= |c|
    requires forall k :: 0 <= k < m * e ==> c[k] == b[k]
    ensures m * e <= n * e && Elements(c, m, e) == Elements(b, n, e)[..m]
  {
    hide Inside;
    Scale(m, n, e);
    forall i | 0 <= i < m
      ensures Elements(c, m, e)[i] == Elements(b, n, e)[i]
    {
      Scale(i, m, e);
      assert c[i * e..i * e + e] == b[i * e..i * e + e];
    }
  }

  // ----- Sorted sequences -----

  lemma InsertIncreasing(s: seq<Int64>, pos: nat, v: Int64)
    requires Increasing(s) && pos <= |s|
    requires (forall i :: 0 <= i < pos ==> s[i] < v) && (forall i :: pos <= i < |s| ==> v < s[i])
    ensures Increasing(s[..pos] + [v] + s[pos..])
  {
  }

  lemma RemoveIncreasing(s: seq<Int64>, pos: nat)
    requires Increasing(s) && pos < |s|
    ensures Increasing(s[..pos] + s[pos + 1..])
    ensures forall x :: x in s[..pos] + s[pos + 1..] <==> x in s && x != s[pos]
  {
    var t := s[..pos] + s[pos + 1..];
    forall x | x in s && x != s[pos]
      ensures x in t
    {
      var i :| 0 <= i < |s| && s[i] == x;
      assert x == if i < pos then t[i] else t[i - 1];
    }
  }

  /** A value that needs a wider encoding lies beyond all elements, on the side of its sign. */
  lemma WiderIsOutside(v: Int64, e: nat, s: seq<Int64>)
    requires IsEncoding(e) && ValueEncoding(v) > e && forall i :: 0 <= i < |s| ==> FitsBytes(s[i], e)
    ensures if v < 0 then forall i :: 0 <= i < |s| ==> v < s[i] else forall i :: 0 <= i < |s| ==> s[i] < v
  {
    EncodingFits(v, e);
  }

  // ----- Widening -----

  /** Elements before `n` still have width `cur`; from `n` on they are `pre` places up in width `wide`. */
  ghost predicate Halfway(b: seq<byte>, s: seq<Int64>, n: nat, cur: nat, wide: nat, pre: nat) {
    && IsEncoding(cur) && IsEncoding(wide) && cur < wide && pre <= 1 && n <= |s|
    && |b| == (|s| + 1) * wide
    && (forall i :: 0 <= i < n ==> Inside(b, i, cur) && Get(b, i, cur) == s[i])
    && (forall i :: n <= i < |s| ==> InPlace(b, s, i, wide, pre))
  }

  ghost predicate InPlace(b: seq<byte>, s: seq<Int64>, i: nat, wide: nat, pre: nat)
    requires IsEncoding(wide) && i < |s|
  {
    Inside(b, i + pre, wide) && Get(b, i + pre, wide) == s[i]
  }

  lemma WidenStart(a: seq<byte>, b: seq<byte>, n: nat, cur: nat, wide: nat, pre: nat)
    requires IsEncoding(cur) && IsEncoding(wide) && cur < wide && pre <= 1
    requires |a| == n * cur && |b| == (n + 1) * wide && forall k :: 0 <= k < |a| && k < |b| ==> b[k] == a[k]
    ensures Halfway(b, Elements(a, n, cur), n, cur, wide, pre)
  {
    hide Get, Inside;
    Wider(n, cur, wide, 1);
    ElementsPrefix(a, b, n, n, cur);
    var none := Elements(b, n, cur);
    assert none == Elements(a, n, cur);
  }

  lemma Wider(n: nat, cur: nat, wide: nat, pre: nat)
    requires IsEncoding(cur) && IsEncoding(wide) && cur < wide
    ensures n * cur <= (n + pre) * wide
  {
    Distribute(n, pre, wide);
    Scale(cur, wide, n);
  }

  /** Writing element `n` wide does not touch a narrow element that is still to be read. */
  lemma WidenStep(b: seq<byte>, c: seq<byte>, s: seq<Int64>, n: nat, cur: nat, wide: nat, pre: nat)
    requires n < |s| && Halfway(b, s, n + 1, cur, wide, pre) && FitsBytes(s[n], wide)
    requires Written(b, c, n + pre, wide, s[n])
    ensures Halfway(c, s, n, cur, wide, pre)
  {
    hide Get, Inside, FitsBytes, LittleEndian, ToUnsigned;
    var lo, hi := (n + pre) * wide, (n + pre) * wide + wide;
    Wider(n, cur, wide, pre);
    forall i | 0 <= i < n
      ensures Inside(c, i, cur) && Get(c, i, cur) == s[i]
    {
      Scale(i, n, cur);
      ReadOutside(b, c, lo, hi, i, cur);
    }
    forall i | n <= i < |s|
      ensures InPlace(c, s, i, wide, pre)
    {
      WrittenInside(b, c, n + pre, wide, s[n]);
      if i == n {
        WrittenRead(b, c, n + pre, wide, s[n]);
      } else {
        assert InPlace(b, s, i, wide, pre);
        Scale(n + pre, i + pre, wide);
        ReadOutside(b, c, lo, hi, i + pre, wide);
      }
    }
  }

  lemma WrittenInside(b: seq<byte>, c: seq<byte>, pos: nat, e: nat, v: int)
    requires Written(b, c, pos, e, v)
    ensures Inside(b, pos, e) && Inside(c, pos, e)
  {
  }

  /** The new value at the free end. */
  lemma WidenDone(b: seq<byte>, c: seq<byte>, s: seq<Int64>, cur: nat, wide: nat, pre: nat, v: Int64)
    requires Halfway(b, s, 0, cur, wide, pre) && FitsBytes(v, wide)
    requires Written(b, c, if pre == 1 then 0 else |s|, wide, v)
    ensures |c| == (|s| + 1) * wide
    ensures Elements(c, |s| + 1, wide) == if pre == 1 then [v] + s else s + [v]
  {
    hide Get, Inside, FitsBytes, LittleEndian, ToUnsigned;
    var n, at := |s| + 1, if pre == 1 then 0 else |s|;
    ElementsWritten(b, c, n, at, wide, v);
    var all := Elements(b, n, wide);
    forall i | 0 <= i < |s|
      ensures all[i + pre] == s[i]
    {
      assert InPlace(b, s, i, wide, pre);
    }
  }

  /** Inserting at `pos`: room at the end, the tail moved up by one, the value written. */
  lemma InsertBytes(a: seq<byte>, b: seq<byte>, c: seq<byte>, d: seq<byte>, n: nat, pos: nat, e: nat, v: Int64)
    requires IsEncoding(e) && FitsBytes(v, e) && pos <= n && |a| == n * e && |b| == (n + 1) * e
    requires forall k :: 0 <= k < |a| && k < |b| ==> b[k] == a[k]
    requires if pos < n then Shifted(b, c, pos, pos + 1, n - pos, e) else c == b
    requires Written(c, d, pos, e, v)
    ensures |d| == (n + 1) * e && Elements(d, n + 1, e) == Elements(a, n, e)[..pos] + [v] + Elements(a, n, e)[pos..]
  {
    hide Get, Inside, FitsBytes, LittleEndian, ToUnsigned;
    Scale(n, n + 1, e);
    ElementsPrefix(a, b, n, n, e);
    assert Elements(a, n, e)[..n] == Elements(a, n, e);
    Scale(pos, n, e);
    Scale(pos, pos + 1, e);
    ElementsPrefix(b, c, pos, n, e);
    if pos < n {
      ElementsMoved(b, c, pos, pos + 1, n - pos, e);
    }
    ElementsPrefix(c, c, pos, n + 1, e);
    ElementsWritten(c, d, n + 1, pos, e, v);
  }

  /** What MoveTail does to the bytes. */
  ghost predicate Shifted(b: seq<byte>, c: seq<byte>, from: nat, to: nat, n: nat, e: nat) {
    && from * e <= (from + n) * e <= |b| && to * e <= (to + n) * e <= |c|
    && c[to * e..(to + n) * e] == b[from * e..(from + n) * e]
    && SameOutside(b, c, to * e, (to + n) * e)
  }

  /** Removing at `pos`: the tail moved down by one, the last element cut off. */
  lemma RemoveBytes(a: seq<byte>, b: seq<byte>, c: seq<byte>, n: nat, pos: nat, e: nat)
    requires IsEncoding(e) && pos < n && |a| == n * e && |c| == (n - 1) * e
    requires if pos < n - 1 then Shifted(a, b, pos + 1, pos, n - 1 - pos, e) else b == a
    requires |b| == |a| && forall k :: 0 <= k < |c| && k < |b| ==> c[k] == b[k]
    ensures Elements(c, n - 1, e) == Elements(a, n, e)[..pos] + Elements(a, n, e)[pos + 1..]
  {
    hide Get, Inside;
    Scale(n - 1, n, e);
    Scale(pos, n - 1, e);
    ElementsPrefix(b, c, n - 1, n, e);
    ElementsPrefix(a, b, pos, n, e);
    ElementsPrefix(b, b, pos, n, e);
    if pos < n - 1 {
      ElementsMoved(a, b, pos + 1, pos, n - 1 - pos, e);
      ElementsPrefix(b, b, n - 1, n, e);
    }
  }

  // ----- The set -----

  /** memmove: the blocks may overlap. */
  method MemMove(a: array<byte>, dst: nat, src: nat, n: nat)
    requires dst + n <= a.Length && src + n <= a.Length
    modifies a
    ensures a[dst..dst + n] == old(a[src..src + n])
    ensures SameOutside(old(a[..]), a[..], dst, dst + n)
  {
    forall k | dst <= k < dst + n {
      a[k] := a[k - dst + src];
    }
  }

  const UINT32_MAX := 0xffff_ffff

  class IntSet {
    var encoding: nat
    var length: nat
    var contents: array<byte>

    ghost predicate Shape()
      reads this
    {
      IsEncoding(encoding) && contents.Length == length * encoding
    }

    /** The elements in order. */
    ghost function Elems(): (s: seq<Int64>)
      requires Shape()
      reads this, contents
      ensures |s| == length
    {
      Elements(contents[..], length, encoding)
    }

    ghost predicate Valid()
      reads this, contents
    {
      Shape() && contents.Length <= UINT32_MAX && Increasing(Elems())
    }

    /** The byte count after one more element, in the encoding that `value` needs, is within 32 bits. */
    predicate Room(value: Int64)
      reads this
    {
      (length + 1) * (if ValueEncoding(value) > encoding then ValueEncoding(value) else encoding) <= UINT32_MAX
    }

    constructor ()
      ensures Valid() && fresh(contents) && Elems() == []
    {
      encoding, length, contents := INT16, 0, new byte[0];
    }

    /** _intsetGetEncoded on the set's bytes. */
    method GetAt(pos: nat, e: nat) returns (v: Int64)
      requires IsEncoding(e) && Inside(contents[..], pos, e)
      ensures v == Get(contents[..], pos, e)
    {
      v := Get(contents[..], pos, e);
    }

    /** _intsetSet: the bytes of one element change. */
    method SetAt(pos: nat, v: Int64)
      requires IsEncoding(encoding) && Inside(contents[..], pos, encoding)
      modifies contents
      ensures Written(old(contents[..]), contents[..], pos, encoding, v)
    {
      hide LittleEndian, ToUnsigned;
      var bytes := LittleEndian(ToUnsigned(v, encoding), encoding);
      var at := pos * encoding;
      forall k | 0 <= k < encoding {
        contents[at + k] := bytes[k];
      }
      assert contents[at..at + encoding] == bytes;
    }

    /** intsetResize: the bytes in front are kept. */
    method Resize(len: nat)
      requires len * encoding <= UINT32_MAX
      modifies `contents
      ensures fresh(contents) && contents.Length == len * encoding
      ensures forall k :: 0 <= k < contents.Length && k < old(contents.Length) ==> contents[k] == old(contents[k])
    {
      var size := len * encoding % (UINT32_MAX + 1);
      var grown := new byte[size];
      forall k | 0 <= k < size && k < contents.Length {
        grown[k] := contents[k];
      }
      contents := grown;
    }

    /** intsetMoveTail: memmove, whose source and destination overlap. */
    method MoveTail(from: nat, to: nat)
      requires IsEncoding(encoding) && from <= length && length * encoding <= contents.Length
      requires (to + (length - from)) * encoding <= contents.Length
      modifies contents
      ensures Shifted(old(contents[..]), contents[..], from, to, length - from, encoding)
    {
      hide SameOutside;
      ghost var before := contents[..];
      var bytes := length - from;
      bytes := bytes * encoding;
      Block(from, length - from, encoding, bytes);
      Block(to, length - from, encoding, bytes);
      MemMove(contents, to * encoding, from * encoding, bytes);
      assert before[from * encoding..from * encoding + bytes] == old(contents[from * encoding..from * encoding + bytes]);
    }

    /** _intsetGet. */
    method GetElement(pos: nat) returns (v: Int64)
      requires Shape() && pos < length
      ensures v == Elems()[pos]
    {
      InsideAll(contents[..], length, encoding);
      v := GetAt(pos, encoding);
    }

    /** intsetSearch: where the value is, or where it belongs. */
    method Search(value: Int64) returns (found: bool, pos: nat)
      requires Valid()
      ensures found <==> value in Elems()
      ensures found ==> pos < length && Elems()[pos] == value
      ensures !found ==> pos <= length && forall i :: 0 <= i < pos ==> Elems()[i] < value
      ensures !found ==> forall i :: pos <= i < length ==> value < Elems()[i]
    {
      hide Elems;
      var min, max, mid, cur: Int64 := 0, length - 1, -1, -1;
      if length == 0 {
        return false, 0;
      } else {
        var last := GetElement(length - 1);
        if value > last {
          return false, length;
        }
        var front := GetElement(0);
        if value < front {
          return false, 0;
        }
      }
      while max >= min
        invariant 0 <= min <= max + 1 <= length
        invariant forall i :: 0 <= i < min ==> Elems()[i] < value
        invariant forall i :: max < i < length ==> value < Elems()[i]
        invariant (min == 0 && max == length - 1) || cur != value
      {
        mid := (min + max) / 2;
        cur := GetElement(mid);
        if value > cur {
          min := mid + 1;
        } else if value < cur {
          max := mid - 1;
        } else {
          break;
        }
      }
      if value == cur {
        assert Elems()[mid] == value;
        return true, mid;
      } else {
        return false, min;
      }
    }

    /** intsetUpgradeAndAdd. */
    method UpgradeAndAdd(value: Int64)
      requires Valid() && ValueEncoding(value) > encoding && Room(value)
      modifies this
      ensures Valid() && fresh(contents) && encoding == ValueEncoding(value)
      ensures Elems() == if value < 0 then [value] + old(Elems()) else old(Elems()) + [value]
    {
      hide Get, Inside, FitsBytes, LittleEndian, ToUnsigned, Increasing;
      ghost var s, a := Elems(), contents[..];
      var curenc := encoding;
      var newenc := ValueEncoding(value);
      var len: nat := length;
      var prepend: nat := if value < 0 then 1 else 0;
      encoding := newenc;
      Resize(length + 1);
      WidenStart(a, contents[..], len, curenc, newenc, prepend);
      while len > 0
        invariant len <= length == |s| && encoding == newenc && fresh(contents)
        invariant Halfway(contents[..], s, len, curenc, newenc, prepend)
      {
        len := len - 1;
        ghost var b := contents[..];
        WidenRoom(b, s, len, curenc, newenc, prepend);
        var v := GetAt(len, curenc);
        SetAt(len + prepend, v);
        WidenStep(b, contents[..], s, len, curenc, newenc, prepend);
      }
      ghost var b := contents[..];
      FreeEnd(b, s, curenc, newenc, prepend);
      EncodingFits(value, newenc);
      if prepend == 1 {
        SetAt(0, value);
      } else {
        SetAt(length, value);
      }
      WidenDone(b, contents[..], s, curenc, newenc, prepend, value);
      length := length + 1;
      WidenIncreasing(value, curenc, s, a);
    }

    /** intsetAdd. When the set grows, its byte count must stay within 32 bits (intsetResize). */
    method Add(value: Int64) returns (success: bool)
      requires Valid() && (value in Elems() || Room(value))
      modifies this, contents
      ensures Valid() && (contents == old(contents) || fresh(contents))
      ensures success <==> value !in old(Elems())
      ensures forall x :: x in Elems() <==> x == value || x in old(Elems())
      ensures encoding == if ValueEncoding(value) > old(encoding) then ValueEncoding(value) else old(encoding)
    {
      hide Get, Inside, FitsBytes, LittleEndian, ToUnsigned, Increasing, Written, Shifted, Elements;
      ghost var s, a := Elems(), contents[..];
      var valenc := ValueEncoding(value);
      success := true;
      EncodingFits(value, encoding);
      if valenc > encoding {
        WiderIsNew(value, encoding, s, a);
        UpgradeAndAdd(value);
        return;
      }
      var found, pos := Search(value);
      if found {
        return false;
      }
      Resize(length + 1);
      ghost var b := contents[..];
      RoomFor(length, pos, encoding);
      if pos < length {
        MoveTail(pos, pos + 1);
      }
      ghost var c := contents[..];
      InsideAll(c, length + 1, encoding);
      SetAt(pos, value);
      length := length + 1;
      InsertBytes(a, b, c, contents[..], length - 1, pos, encoding, value);
      InsertIncreasing(s, pos, value);
      assert s == s[..pos] + s[pos..];
    }

    /** intsetRemove. */
    method Remove(value: Int64) returns (success: bool)
      requires Valid()
      modifies this, contents
      ensures Valid() && (contents == old(contents) || fresh(contents)) && encoding == old(encoding)
      ensures success <==> value in old(Elems())
      ensures forall x :: x in Elems() <==> x != value && x in old(Elems())
    {
      hide Get, Inside, FitsBytes, Increasing, Shifted, Elements;
      ghost var s, a := Elems(), contents[..];
      var valenc := ValueEncoding(value);
      success := false;
      if valenc > encoding {
        WiderIsNew(value, encoding, s, a);
        return;
      }
      var found, pos := Search(value);
      if found {
        var len := length;
        success := true;
        RoomFor(length, pos, encoding);
        if pos < len - 1 {
          MoveTail(pos + 1, pos);
        }
        ghost var b := contents[..];
        Resize(len - 1);
        length := len - 1;
        RemoveBytes(a, b, contents[..], len, pos, encoding);
        RemoveIncreasing(s, pos);
      }
    }

    /** intsetFind. */
    method Find(value: Int64) returns (found: bool)
      requires Valid()
      ensures found <==> value in Elems()
    {
      var valenc := ValueEncoding(value);
      if valenc > encoding {
        WiderIsNew(value, encoding, Elems(), contents[..]);
        return false;
      }
      var pos: nat;
      found, pos := Search(value);
    }
  }

  lemma Block(at: nat, n: nat, e: nat, bytes: nat)
    requires bytes == n * e
    ensures at * e + bytes == (at + n) * e
  {
    Distribute(at, n, e);
  }

  lemma Distribute(a: nat, b: nat, e: nat)
    ensures (a + b) * e == a * e + b * e
  {
  }

  lemma WidenRoom(b: seq<byte>, s: seq<Int64>, n: nat, cur: nat, wide: nat, pre: nat)
    requires n < |s| && Halfway(b, s, n + 1, cur, wide, pre)
    ensures Inside(b, n, cur) && Get(b, n, cur) == s[n] && Inside(b, n + pre, wide) && FitsBytes(s[n], wide)
  {
    InsideAll(b, |s| + 1, wide);
    EncodingFits(s[n], cur);
    EncodingFits(s[n], wide);
  }

  lemma FreeEnd(b: seq<byte>, s: seq<Int64>, cur: nat, wide: nat, pre: nat)
    requires Halfway(b, s, 0, cur, wide, pre)
    ensures Inside(b, 0, wide) && Inside(b, |s|, wide)
  {
    InsideAll(b, |s| + 1, wide);
  }

  lemma ElementsFit(b: seq<byte>, n: nat, e: nat)
    requires IsEncoding(e) && n * e <= |b|
    ensures forall i :: 0 <= i < n ==> FitsBytes(Elements(b, n, e)[i], e)
  {
  }

  lemma WidenIncreasing(v: Int64, e: nat, s: seq<Int64>, b: seq<byte>)
    requires IsEncoding(e) && ValueEncoding(v) > e && |b| == |s| * e && s == Elements(b, |s|, e) && Increasing(s)
    ensures Increasing(if v < 0 then [v] + s else s + [v])
  {
    hide FitsBytes;
    ElementsFit(b, |s|, e);
    WiderIsOutside(v, e, s);
  }

  lemma WiderIsNew(v: Int64, e: nat, s: seq<Int64>, b: seq<byte>)
    requires IsEncoding(e) && ValueEncoding(v) > e && |b| == |s| * e && s == Elements(b, |s|, e)
    ensures v !in s
  {
    hide FitsBytes;
    ElementsFit(b, |s|, e);
    WiderIsOutside(v, e, s);
  }

  lemma RoomFor(n: nat, pos: nat, e: nat)
    requires pos <= n
    ensures n * e <= (n + 1) * e && pos * e + e <= (n + 1) * e
  {
    Scale(pos, n + 1, e);
    Scale(n, n + 1, e);
  }
}
