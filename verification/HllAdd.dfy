/**
 The updates of a HyperLogLog value: locating the opcode of a register, splitting it, merging its
 neighbours, and promotion to the dense encoding. All work on the bytes behind the 16 byte header.
 */
module HllAdd {
  import opened Arith
  import opened Bits64
  import opened Bytes
  import opened Hll

  // ----- What an element does to the registers -----

  type Word = h: nat | h < 0x1_0000_0000_0000_0000

  /** The hash with its top bit set, so that the scan for a one bit ends. */
  function WithTop(h: Word): (x: nat)
    ensures x >= 0x8000_0000_0000_0000
  {
    if h < 0x8000_0000_0000_0000 then h + 0x8000_0000_0000_0000 else h
  }

  /** The length of the run 0...01 at the low end of `x`. */
  function RunLength(x: nat): (n: nat)
    requires x > 0
    ensures n >= 1
  {
    if x % 2 == 1 then 1 else 1 + RunLength(x / 2)
  }

  function Index(h: Word): (i: nat)
    ensures i < HLL_REGISTERS
  {
    h % HLL_REGISTERS
  }

  function Count(h: Word): (n: nat)
    ensures n >= 1
  {
    RunLength(WithTop(h) / HLL_REGISTERS)
  }

  lemma {:induction false} Pow2Add(a: nat, b: nat)
    ensures Pow2(a + b) == Pow2(a) * Pow2(b)
  {
    if a > 0 {
      Pow2Add(a - 1, b);
    }
  }

  lemma {:induction false} RunLengthBound(x: nat, k: nat)
    requires 0 < x < Pow2(k)
    ensures RunLength(x) <= k
    decreases k
  {
    if k > 0 && x % 2 == 0 {
      RunLengthBound(x / 2, k - 1);
    }
  }

  /** Counts are 1 to 50, so they fit the six bits of a register but not always a VAL opcode. */
  lemma CountBound(h: Word)
    ensures 1 <= Count(h) <= 50
  {
    assert Pow2(10) == 1024;
    Pow2Add(10, 10);
    Pow2Add(20, 10);
    Pow2Add(30, 20);
    RunLengthBound(WithTop(h) / HLL_REGISTERS, 50);
  }

  lemma {:induction false} RunLengthMeaning(x: nat, j: nat)
    requires x > 0
    ensures x % Pow2(j) == 0 <==> j < RunLength(x)
    decreases j
  {
    if j > 0 {
      var q: nat := Pow2(j - 1);
      if x % 2 == 0 {
        RunLengthMeaning(x / 2, j - 1);
        HalfMod(x / 2, q);
      } else if x % (2 * q) == 0 {
        OddMultiple(x, q);
      }
    } else {
      assert x % 1 == 0;
    }
  }

  lemma HalfMod(y: nat, q: nat)
    requires q > 0
    ensures (2 * y) % (2 * q) == 2 * (y % q)
  {
    var a, b := y / q, y % q;
    assert 2 * y == a * (2 * q) + 2 * b;
    ModUnique(2 * y, 2 * q, a, 2 * b);
  }

  lemma OddMultiple(x: nat, q: nat)
    requires q > 0 && x % (2 * q) == 0
    ensures x % 2 == 0
  {
    var c := x / (2 * q);
    assert x == 2 * (c * q);
  }

  /**
   The pattern of a hash, bit by bit: above the 14 bits of the index there are count - 1 zeros and then a one, which
   for the count of 50 is not one of the hash's own bits.
   */
  lemma PatternMeaning(h: Word)
    ensures h / 16384 % Pow2(Count(h) - 1) == 0
    ensures Count(h) == 50 || h / 16384 / Pow2(Count(h) - 1) % 2 == 1
    ensures 1 <= Count(h) <= 50
  {
    hide WithTop, Count, Pow2, RunLength;
    CountBound(h);
    CountIs(h);
    TopBit(h);
    var x, y := WithTop(h) / HLL_REGISTERS, h / 16384;
    PatternOf(x, Count(h));
    if x != y {
      PatternBelow(x, y, Count(h));
    }
  }

  lemma PatternOf(x: nat, c: nat)
    requires x > 0 && c == RunLength(x) >= 1
    ensures x % Pow2(c - 1) == 0 && x / Pow2(c - 1) % 2 == 1
  {
    RunLengthMeaning(x, c - 1);
    RunLengthMeaning(x, c);
    Doubles(c - 1);
    hide Pow2, RunLength;
    OddQuotient(x, Pow2(c - 1));
  }

  /** Without a bit above it the pattern is the same, unless that bit was its end. */
  lemma PatternBelow(x: nat, y: nat, c: nat)
    requires 1 <= c <= 50 && x % Pow2(c - 1) == 0 && x / Pow2(c - 1) % 2 == 1 && x == y + Pow2(49)
    ensures y % Pow2(c - 1) == 0 && (c == 50 || y / Pow2(c - 1) % 2 == 1)
  {
    hide Pow2;
    Pow2Add(c - 1, 50 - c);
    var p, r := Pow2(c - 1), Pow2(50 - c);
    assert (c - 1) + (50 - c) == 49;
    BelowTop(x, y, p, r, Pow2(49));
    if c < 50 {
      Doubles(49 - c);
      SameParity(x / p, y / p, r, Pow2(49 - c));
    }
  }

  lemma SameParity(a: nat, b: nat, r: nat, e: nat)
    requires b == a - r && r == 2 * e
    ensures a % 2 == b % 2
  {
  }

  lemma CountIs(h: Word)
    ensures WithTop(h) / HLL_REGISTERS > 0 && Count(h) == RunLength(WithTop(h) / HLL_REGISTERS)
  {
  }

  lemma Doubles(k: nat)
    ensures Pow2(k + 1) == 2 * Pow2(k)
  {
  }

  lemma BelowTop(x: nat, y: nat, p: nat, r: nat, t: nat)
    requires p > 0 && x % p == 0 && x == y + t && t == p * r
    ensures y % p == 0 && y / p == x / p - r
  {
    var q := x / p;
    assert y == (q - r) * p + 0 by {
      assert x == q * p;
    }
    ModUnique(y, p, q - r, 0);
  }

  /** The bit that is added stands, behind the index, for 2^49. */
  lemma TopBit(h: Word)
    ensures WithTop(h) / HLL_REGISTERS == h / 16384 || WithTop(h) / HLL_REGISTERS == h / 16384 + Pow2(49)
  {
    assert Pow2(9) == 512;
    assert Pow2(10) == 1024;
    Pow2Add(10, 10);
    Pow2Add(20, 20);
    Pow2Add(40, 9);
    hide Pow2;
    assert Pow2(49) == 0x2_0000_0000_0000;
  }

  lemma OddQuotient(x: nat, p: nat)
    requires p > 0 && x % p == 0 && x % (2 * p) != 0
    ensures x / p % 2 == 1
  {
    var q := x / p;
    assert x == q * p;
    if q % 2 == 0 {
      assert x == (q / 2) * (2 * p) + 0 by {
        assert q == 2 * (q / 2);
      }
      ModUnique(x, 2 * p, q / 2, 0);
    }
  }

  /** hllPatLen on the element's hash: `hash & bit` tests whether the quotient by `bit` is odd. */
  method PatLen(h: Word) returns (count: nat, index: nat)
    ensures index == Index(h) && count == Count(h)
    ensures 0 <= index < 16384 && h == 16384 * (h / 16384) + index
    ensures 1 <= count <= 50 && h / 16384 % Pow2(count - 1) == 0
    ensures count == 50 || h / 16384 / Pow2(count - 1) % 2 == 1
  {
    PatternMeaning(h);
    index := h % HLL_REGISTERS;
    var hash := WithTop(h);
    var bit := HLL_REGISTERS;
    count := 1;
    while hash / bit % 2 == 0
      invariant bit > 0 && hash / bit > 0
      invariant RunLength(hash / bit) + count == Count(h) + 1
      decreases hash / bit
    {
      HalveQuotient(hash, bit);
      count := count + 1;
      bit := bit * 2;
    }
  }

  /** Register `i` raised to `c` if it is lower. */
  function Raise(regs: Registers, i: nat, c: nat): (r: Registers)
    requires i < |regs|
    ensures |r| == |regs|
  {
    if regs[i] < c then regs[i := c] else regs
  }

  // ----- Dense -----

  /** The registers of a dense value. */
  function DenseRegs(p: seq<byte>): (r: Registers)
    requires IsDense(p)
    ensures |r| == HLL_REGISTERS && forall j :: 0 <= j < HLL_REGISTERS ==> r[j] == DenseGet(p, j)
  {
    seq(HLL_REGISTERS, j requires 0 <= j < HLL_REGISTERS && IsDense(p) => DenseGet(p, j))
  }

  /** hllDenseAdd. */
  method DenseAdd(p: seq<byte>, h: Word) returns (p': seq<byte>, ret: int)
    requires IsDense(p)
    ensures IsDense(p') && DenseRegs(p') == Raise(DenseRegs(p), Index(h), Count(h))
    ensures ret == if DenseRegs(p') == DenseRegs(p) then 0 else 1
    ensures ret == 0 ==> p' == p
  {
    hide DenseGet, DenseSet, Index, Count, IsDense;
    var count, index := PatLen(h);
    CountBound(h);
    var oldcount := DenseGet(p, index);
    if count > oldcount {
      p' := DenseSet(p, index, count);
      forall j | 0 <= j < HLL_REGISTERS
        ensures DenseRegs(p')[j] == Raise(DenseRegs(p), index, count)[j]
      {
        DenseSetGet(p, index, count, j);
      }
      assert DenseRegs(p')[index] != DenseRegs(p)[index];
      ret := 1;
    } else {
      p' := p;
      ret := 0;
    }
  }

  /** hyperloglog.c lines 601-604: `runlen` registers from `idx` on set to `v`. */
  method SetRun(p: seq<byte>, start: nat, runlen: nat, v: nat) returns (p': seq<byte>)
    requires IsDense(p) && start + runlen <= HLL_REGISTERS && v <= HLL_REGISTER_MAX
    ensures IsDense(p')
    ensures forall j :: 0 <= j < HLL_REGISTERS ==>
      DenseGet(p', j) == if start <= j < start + runlen then v else DenseGet(p, j)
  {
    hide DenseGet, DenseSet, IsDense;
    p' := p;
    var idx, left := start, runlen;
    while left > 0
      invariant idx + left == start + runlen && start <= idx
      invariant IsDense(p')
      invariant forall j :: 0 <= j < HLL_REGISTERS ==>
        DenseGet(p', j) == if start <= j < idx then v else DenseGet(p, j)
    {
      ghost var q := p';
      left := left - 1;
      p' := DenseSet(p', idx, v);
      forall j | 0 <= j < HLL_REGISTERS
        ensures DenseGet(p', j) == if j == idx then v else DenseGet(q, j)
      {
        DenseSetGet(q, idx, v, j);
      }
      idx := idx + 1;
    }
  }

  lemma DenseZero(p: seq<byte>, j: nat)
    requires IsDense(p) && j < HLL_REGISTERS && forall i :: 0 <= i < |p| ==> p[i] == 0
    ensures DenseGet(p, j) == 0
  {
  }

  /** Position `p` is between two opcodes. */
  predicate Cut(s: seq<byte>, p: nat) {
    p <= |s| && WellFormed(s[..p]) && WellFormed(s[p..])
  }

  lemma CutStart(s: seq<byte>)
    requires WellFormed(s)
    ensures Cut(s, 0) && Expand(s[..0]) == []
  {
    assert s[..0] == [] && s[0..] == s;
  }

  lemma CutEnd(s: seq<byte>)
    requires Cut(s, |s|)
    ensures WellFormed(s) && s[..|s|] == s
  {
    assert s[..|s|] == s;
  }

  /** One opcode on: the next position is a cut, and the registers before it grow by the opcode's run. */
  lemma CutNext(s: seq<byte>, p: nat)
    requires Cut(s, p) && p < |s|
    ensures WellFormed(s) && p + OpLen(s[p]) <= |s| && Cut(s, p + OpLen(s[p]))
    ensures Expand(s[..p + OpLen(s[p])]) == Expand(s[..p]) + Repeat(OpValue(s[p]), Span(s[p..]))
    ensures Expand(s) == Expand(s[..p]) + Repeat(OpValue(s[p]), Span(s[p..])) + Expand(s[p + OpLen(s[p])..])
  {
    hide WellFormed, Expand, Span, OpValue, OpLen, Repeat;
    ExpandAt(s, p);
  }

  lemma CutExpand(s: seq<byte>, p: nat)
    requires Cut(s, p)
    ensures WellFormed(s) && Expand(s) == Expand(s[..p]) + Expand(s[p..])
  {
    hide WellFormed, Expand;
    assert s[..p] + s[p..] == s;
    ExpandAppend(s[..p], s[p..]);
  }

  /** hllSparseToDense behind the header. `ok` is false for REDIS_ERR, returned when the opcodes do not
      cover every register. */
  method ToDense(s: seq<byte>) returns (ok: bool, dense: seq<byte>)
    requires WellFormed(s) && |Expand(s)| <= HLL_REGISTERS
    ensures ok <==> |Expand(s)| == HLL_REGISTERS
    ensures ok ==> IsDense(dense) && DenseRegs(dense) == Expand(s)
  {
    hide WellFormed, Expand, DenseGet, OpValue, Repeat, Span;
    dense := seq(HLL_DENSE_BYTES + 1, _ => 0);
    forall j | 0 <= j < HLL_REGISTERS ensures DenseGet(dense, j) == 0 {
      DenseZero(dense, j);
    }
    CutStart(s);
    var idx, p := 0, 0;
    while p < |s|
      invariant Cut(s, p) && idx == |Expand(s[..p])|
      invariant IsDense(dense)
      invariant forall j :: 0 <= j < HLL_REGISTERS ==>
        DenseGet(dense, j) == if j < idx then Expand(s[..p])[j] else 0
      decreases |s| - p
    {
      hide Cut, IsDense;
      CutNext(s, p);
      var runlen := Span(s[p..]);
      ghost var before := Expand(s[..p]);
      if IsZero(s[p]) {
        ZeroValue(s[p]);
        idx := idx + runlen;
        p := p + 1;
      } else if IsXZero(s[p]) {
        ZeroValue(s[p]);
        idx := idx + runlen;
        p := p + 2;
      } else {
        dense := SetRun(dense, idx, runlen, OpValue(s[p]));
        idx := idx + runlen;
        p := p + 1;
      }
    }
    CutEnd(s);
    ok := idx == HLL_REGISTERS;
  }

  lemma ZeroValue(b: byte)
    requires !IsVal(b)
    ensures OpValue(b) == 0
  {
  }

  // ----- Sparse -----

  /** Step 1: the opcode that covers register `index`, the one right before it (-1 for none), and its first register. */
  method Locate(s: seq<byte>, index: nat) returns (p: nat, prev: int, first: nat, span: nat)
    requires WellFormed(s) && index < |Expand(s)|
    ensures p < |s| && Cut(s, p) && first == |Expand(s[..p])|
    ensures span == Span(s[p..]) && first <= index < first + span
    ensures if p == 0 then prev == -1 else 0 <= prev < p && Cut(s, prev) && prev + OpLen(s[prev]) == p
  {
    hide WellFormed, Expand, Span, OpValue, Repeat, Cut;
    CutStart(s);
    CutEndAll(s);
    p, prev, first, span := 0, -1, 0, 0;
    while p < |s|
      invariant p <= |s| && WellFormed(s[..p]) && Cut(s, p) && first == |Expand(s[..p])| && first <= index
      invariant if p == 0 then prev == -1 else 0 <= prev < p && Cut(s, prev) && prev + OpLen(s[prev]) == p
      decreases |s| - p
    {
      CutNext(s, p);
      var oplen := 1;
      if IsZero(s[p]) {
        span := Span(s[p..]);
      } else if IsVal(s[p]) {
        span := Span(s[p..]);
      } else {
        span := Span(s[p..]);
        oplen := 2;
      }
      if index <= first + span - 1 {
        return;
      }
      CutPrefix(s, p + oplen);
      prev := p;
      p := p + oplen;
      first := first + span;
    }
    assert false;
  }

  lemma CutEndAll(s: seq<byte>)
    ensures s[..|s|] == s
  {
  }

  lemma CutPrefix(s: seq<byte>, p: nat)
    requires Cut(s, p)
    ensures p <= |s| && WellFormed(s[..p]) && WellFormed(s[p..])
  {
  }

  /** A position is a cut as soon as the opcodes before it are complete. */
  lemma CutWhenPrefix(s: seq<byte>, p: nat)
    requires p <= |s| && WellFormed(s) && WellFormed(s[..p])
    ensures Cut(s, p)
  {
    hide WellFormed, Expand;
    assert s[..p] + s[p..] == s;
    ExpandAppend(s[..p], s[p..]);
  }

  /** Replacing the opcode at `p` by opcodes that differ in one register changes that register alone. */
  lemma CutReplaced(s: seq<byte>, p: nat, ops: seq<byte>, index: nat, count: nat, q: nat)
    requires p < |s| && Cut(s, p) && WellFormed(ops)
    requires |Expand(s[..p])| <= index < |Expand(s[..p])| + Span(s[p..])
    requires Expand(ops) == Repeat(OpValue(s[p]), Span(s[p..]))[index - |Expand(s[..p])| := count]
    requires q <= p && Cut(s, q)
    ensures p + OpLen(s[p]) <= |s| && WellFormed(s) && index < |Expand(s)|
    ensures var s' := s[..p] + ops + s[p + OpLen(s[p])..];
            Cut(s', q) && WellFormed(s') && Expand(s') == Expand(s)[index := count]
  {
    hide WellFormed, Expand, Span, OpValue, OpLen;
    CutNext(s, p);
    ExpandReplaced(s, p, ops);
    var s' := s[..p] + ops + s[p + OpLen(s[p])..];
    UpdateMiddle(Expand(s[..p]), Repeat(OpValue(s[p]), Span(s[p..])), Expand(s[p + OpLen(s[p])..]), index, count);
    assert s'[..q] == s[..q];
    CutWhenPrefix(s', q);
  }

  lemma RegisterAt(s: seq<byte>, p: nat, index: nat)
    requires p < |s| && Cut(s, p) && |Expand(s[..p])| <= index < |Expand(s[..p])| + Span(s[p..])
    ensures WellFormed(s) && index < |Expand(s)| && Expand(s)[index] == OpValue(s[p])
  {
    hide WellFormed, Expand, Span, OpValue, OpLen;
    CutNext(s, p);
  }

  lemma SpanBound(s: seq<byte>, p: nat)
    requires p < |s| && Cut(s, p)
    ensures Span(s[p..]) > HLL_SPARSE_ZERO_MAX_LEN ==> IsXZero(s[p])
    ensures |s[p..]| >= OpLen(s[p]) && Span(s[p..])
            <= if OpValue(s[p]) == 0 then HLL_SPARSE_XZERO_MAX_LEN else HLL_SPARSE_VAL_MAX_LEN
  {
  }

  // ----- Merging neighbours -----

  lemma ValBounds(b: byte)
    requires IsVal(b)
    ensures 1 <= OpValue(b) <= HLL_SPARSE_VAL_MAX_VALUE
  {
  }

  lemma ValRun(v: nat, n: nat)
    requires 1 <= v <= HLL_SPARSE_VAL_MAX_VALUE && 1 <= n <= HLL_SPARSE_VAL_MAX_LEN
    ensures WellFormed([ValOp(v, n)]) && Expand([ValOp(v, n)]) == Repeat(v, n)
  {
    ExpandOne([ValOp(v, n)]);
  }

  lemma ValPair(a: byte, b: byte)
    requires IsVal(a) && IsVal(b) && OpValue(a) == OpValue(b) && Span([a]) + Span([b]) <= HLL_SPARSE_VAL_MAX_LEN
    ensures WellFormed([a, b]) && Expand([a, b]) == Expand([ValOp(OpValue(a), Span([a]) + Span([b]))])
  {
    hide Expand, Repeat, Span, OpValue;
    ValBounds(a);
    ExpandOne([a]);
    ExpandOne([b]);
    assert [a] + [b] == [a, b];
    ExpandAppend([a], [b]);
    RepeatAppend(OpValue(a), Span([a]), Span([b]));
    ValRun(OpValue(a), Span([a]) + Span([b]));
  }

  /** Two equal VAL opcodes at `p` made one: the first byte goes, the second holds both lengths. */
  lemma MergeTwo(s: seq<byte>, p: nat)
    requires Cut(s, p) && p + 1 < |s| && IsVal(s[p]) && IsVal(s[p + 1]) && OpValue(s[p]) == OpValue(s[p + 1])
    requires Span(s[p..p + 1]) + Span(s[p + 1..p + 2]) <= HLL_SPARSE_VAL_MAX_LEN
    ensures 1 <= OpValue(s[p])
    ensures var op := ValOp(OpValue(s[p]), Span(s[p..p + 1]) + Span(s[p + 1..p + 2]));
            var s' := s[..p] + s[p + 1 := op][p + 1..];
            WellFormed(s) && WellFormed(s') && Cut(s', p) && Expand(s') == Expand(s)
  {
    hide Expand, WellFormed, Span, OpValue;
    assert s[p..p + 1] == [s[p]] && s[p + 1..p + 2] == [s[p + 1]];
    ValBounds(s[p]);
    var op := ValOp(OpValue(s[p]), Span(s[p..p + 1]) + Span(s[p + 1..p + 2]));
    var s' := s[..p] + s[p + 1 := op][p + 1..];
    ValPair(s[p], s[p + 1]);
    ValRun(OpValue(s[p]), Span(s[p..p + 1]) + Span(s[p + 1..p + 2]));
    assert s' == s[..p] + [op] + s[p + 2..];
    assert s == s[..p] + [s[p], s[p + 1]] + s[p + 2..];
    assert s[p..] == [s[p], s[p + 1]] + s[p + 2..];
    ExpandAppend([s[p], s[p + 1]], s[p + 2..]);
    ExpandAround(s[..p], [s[p], s[p + 1]], s[p + 2..]);
    ExpandAround(s[..p], [op], s[p + 2..]);
    assert s'[..p] == s[..p];
    CutWhenPrefix(s', p);
  }

  /** Step 4: up to five opcodes from `start` on are looked at. The registers stay. */
  method MergeRuns(s: seq<byte>, start: nat) returns (r: seq<byte>)
    requires Cut(s, start)
    ensures WellFormed(s) && WellFormed(r) && Expand(r) == Expand(s) && |r| <= |s|
  {
    hide WellFormed, Expand, Span, OpValue, Cut;
    CutExpand(s, start);
    r := s;
    var p: nat, scanlen := start, 5;
    while p < |r| && scanlen > 0
      invariant Cut(r, p) && WellFormed(r) && Expand(r) == Expand(s) && |r| <= |s|
      decreases scanlen
    {
      scanlen := scanlen - 1;
      CutNext(r, p);
      if IsXZero(r[p]) {
        p := p + 2;
        continue;
      } else if IsZero(r[p]) {
        p := p + 1;
        continue;
      }
      if p + 1 < |r| && IsVal(r[p + 1]) {
        var v1, v2 := OpValue(r[p]), OpValue(r[p + 1]);
        if v1 == v2 {
          var len := Span(r[p..p + 1]) + Span(r[p + 1..p + 2]);
          if len <= HLL_SPARSE_VAL_MAX_LEN {
            MergeTwo(r, p);
            ValBounds(r[p]);
            r := r[..p] + r[p + 1 := ValOp(v1, len)][p + 1..];
            CutExpand(r, p);
            continue;
          }
        }
      }
      p := p + 1;
    }
  }

  // ----- hllSparseAdd -----

  datatype Edit = Keep | Promote | Replace(bytes: seq<byte>)

  /** hllSparseAdd up to the promotion, for a count that a VAL opcode can hold. */
  method SparseUpdate(s: seq<byte>, index: nat, count: nat, maxBytes: int) returns (e: Edit)
    requires WellFormed(s) && index < |Expand(s)| && 1 <= count <= HLL_SPARSE_VAL_MAX_VALUE
    ensures e == Keep <==> Expand(s)[index] >= count
    ensures e.Replace? ==> WellFormed(e.bytes) && Expand(e.bytes) == Expand(s)[index := count]
    ensures e.Replace? ==> |e.bytes| <= |s| || HLL_HDR_SIZE + |e.bytes| <= maxBytes
    ensures e.Promote? ==> HLL_HDR_SIZE + |s| + 3 > maxBytes
  {
    hide WellFormed, Expand, Span, OpValue, Cut, Repeat;
    var p, prev, first, span := Locate(s, index);
    CutNext(s, p);
    SpanBound(s, p);
    ZeroValues(s[p]);
    var v := OpValue(s[p]);
    CutStart(s);
    var from: nat := if prev >= 0 then prev else 0;
    RegisterAt(s, p, index);
    if IsVal(s[p]) {
      if v >= count {
        return Keep;
      }
      if span == 1 {
        var updated := MergeOver(s, p, count, index, from);
        return Replace(updated);
      }
    }
    if IsZero(s[p]) && span == 1 {
      var updated := MergeOver(s, p, count, index, from);
      return Replace(updated);
    }
    var ops := SplitOps(v, span, index - first, count);
    CutReplaced(s, p, ops, index, count, from);
    var oldlen := if IsXZero(s[p]) then 2 else 1;
    var deltalen := |ops| - oldlen;
    if deltalen > 0 && HLL_HDR_SIZE + |s| + deltalen > maxBytes {
      return Promote;
    }
    var updated := MergeRuns(s[..p] + ops + s[p + oldlen..], from);
    return Replace(updated);
  }

  lemma ZeroValues(b: byte)
    ensures !IsVal(b) ==> OpValue(b) == 0
  {
  }

  /** Cases B and C: the single opcode is overwritten where it stands. */
  method MergeOver(s: seq<byte>, p: nat, count: nat, index: nat, from: nat) returns (r: seq<byte>)
    requires p < |s| && Cut(s, p) && !IsXZero(s[p]) && index == |Expand(s[..p])| && Span(s[p..]) == 1
    requires 1 <= count <= HLL_SPARSE_VAL_MAX_VALUE && from <= p && Cut(s, from)
    ensures WellFormed(s) && index < |Expand(s)|
    ensures WellFormed(r) && Expand(r) == Expand(s)[index := count] && |r| <= |s|
  {
    hide WellFormed, Expand, Span, OpValue, Cut;
    ValRun(count, 1);
    CutReplaced(s, p, [ValOp(count, 1)], index, count, from);
    assert s[p := ValOp(count, 1)] == s[..p] + [ValOp(count, 1)] + s[p + 1..];
    r := MergeRuns(s[p := ValOp(count, 1)], from);
  }
}
