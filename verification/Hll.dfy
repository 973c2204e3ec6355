/**
 HyperLogLog (hyperloglog.c): registers packed six bits each, or run-length coded as opcodes that are
 split and merged in place. Shifts and masks of bytes are written as division and multiplication.
 */
module Hll {
  import opened Bytes

  const HLL_REGISTERS := 16384
  const HLL_REGISTER_MAX := 63
  const HLL_HDR_SIZE := 16
  const HLL_DENSE_BYTES := 12288  // HLL_REGISTERS * HLL_BITS / 8
  const HLL_SPARSE_VAL_MAX_VALUE := 32
  const HLL_SPARSE_VAL_MAX_LEN := 4
  const HLL_SPARSE_ZERO_MAX_LEN := 64
  const HLL_SPARSE_XZERO_MAX_LEN := 16384

  /** The registers of a HyperLogLog, whatever their encoding. */
  type Registers = seq<nat>

  // ----- The dense encoding -----

  /** The byte in which register `r` starts. */
  function FirstByte(r: nat): nat { r * 6 / 8 }

  /** The registers' bytes, with the terminator that follows them in a string. */
  predicate IsDense(p: seq<byte>) {
    |p| == HLL_DENSE_BYTES + 1
  }

  /** The register whose first bit is bit 6 * k % 8 of `b0`: ((b0 >> fb) | (b1 << (8 - fb))) & 63. */
  function GetBits(b0: byte, b1: byte, k: nat): (v: nat)
    requires k < 4
    ensures v <= HLL_REGISTER_MAX
  {
    var x: nat, y: nat := b0, b1;
    match k
    case 0 => (x + y * 256) % 64
    case 1 => (x / 64 + y * 4) % 64
    case 2 => (x / 16 + y * 16) % 64
    case _ => (x / 4 + y * 64) % 64
  }

  /** The first byte with the register set to `v`: (b & ~(63 << fb)) | (v << fb), in eight bits. */
  function SetFirst(b: byte, k: nat, v: nat): byte
    requires k < 4 && v <= HLL_REGISTER_MAX
  {
    var x: nat := b;
    match k
    case 0 => x / 64 * 64 + v
    case 1 => x % 64 + v % 4 * 64
    case 2 => x % 16 + v % 16 * 16
    case _ => x % 4 + v * 4
  }

  /** The second byte: (b & ~(63 >> (8 - fb))) | (v >> (8 - fb)). */
  function SetSecond(b: byte, k: nat, v: nat): byte
    requires k < 4 && v <= HLL_REGISTER_MAX
  {
    var x: nat := b;
    match k
    case 0 => x
    case 1 => x / 16 * 16 + v / 4
    case 2 => x / 4 * 4 + v / 16
    case _ => x
  }

  /** HLL_DENSE_GET_REGISTER. */
  function DenseGet(p: seq<byte>, r: nat): (v: nat)
    requires IsDense(p) && r < HLL_REGISTERS
    ensures v <= HLL_REGISTER_MAX
  {
    GetBits(p[FirstByte(r)], p[FirstByte(r) + 1], r % 4)
  }

  /** HLL_DENSE_SET_REGISTER. */
  function DenseSet(p: seq<byte>, r: nat, v: nat): (p': seq<byte>)
    requires IsDense(p) && r < HLL_REGISTERS && v <= HLL_REGISTER_MAX
    ensures IsDense(p')
  {
    var i := FirstByte(r);
    p[i := SetFirst(p[i], r % 4, v)][i + 1 := SetSecond(p[i + 1], r % 4, v)]
  }

  lemma Mod64(q: int, r: nat)
    requires r < 64
    ensures (q * 64 + r) % 64 == r
  {
  }

  lemma SetBits(b0: byte, b1: byte, k: nat, v: nat)
    requires k < 4 && v <= HLL_REGISTER_MAX
    ensures GetBits(SetFirst(b0, k, v), SetSecond(b1, k, v), k) == v
  {
    var x: nat, y: nat := b0, b1;
    match k {
      case 0 => Mod64(x / 64 + y * 4, v);
      case 1 =>
        assert SetFirst(b0, 1, v) as int / 64 == v % 4;
        Mod64(y / 16, v);
      case 2 =>
        assert SetFirst(b0, 2, v) as int / 16 == v % 16;
        Mod64(y / 4, v);
      case _ =>
        assert SetFirst(b0, 3, v) as int / 4 == v;
        Mod64(y, v);
    }
  }

  /** The neighbour in front shares the first byte; it reads the same bits of it as before. */
  lemma SetKeepsBefore(b: byte, b0: byte, k: nat, v: nat)
    requires 1 <= k < 4 && v <= HLL_REGISTER_MAX
    ensures k >= 2 ==> GetBits(b, SetFirst(b0, k, v), k - 1) == GetBits(b, b0, k - 1)
  {
    var x: nat, y: nat := b0, b;
    match k {
      case 1 =>
      case 2 =>
        var r := y / 64 + x % 16 * 4;
        Mod64(v % 16, r);
        Mod64(x / 16, r);
      case _ =>
        var r := y / 16 + x % 4 * 16;
        Mod64(v, r);
        Mod64(x / 4, r);
    }
  }

  /** Registers 0 and 1 of a group of four start in the same byte. */
  lemma SetKeepsTogether(b0: byte, b1: byte, b2: byte, v: nat)
    requires v <= HLL_REGISTER_MAX
    ensures GetBits(SetFirst(b0, 1, v), b2, 0) == GetBits(b0, b1, 0)
    ensures GetBits(SetFirst(b0, 0, v), b1, 1) == GetBits(b0, b1, 1)
  {
    var x: nat, y: nat, z: nat := b0, b1, b2;
    Mod64(v % 4 + z * 4, x % 64);
    Mod64(x / 64 + y * 4, x % 64);
    assert SetFirst(b0, 0, v) as int / 64 == x / 64;
  }

  /** The neighbour behind starts in the second byte. */
  lemma SetKeepsAfter(b0: byte, b1: byte, k: nat, v: nat)
    requires 1 <= k < 3 && v <= HLL_REGISTER_MAX
    ensures GetBits(SetSecond(b0, k, v), b1, k + 1) == GetBits(b0, b1, k + 1)
  {
    var x: nat := b0;
    if k == 1 {
      assert SetSecond(b0, 1, v) as int / 16 == x / 16;
    } else {
      assert SetSecond(b0, 2, v) as int / 4 == x / 4;
    }
  }

  /** Registers 0 and 3 of a group lie in one byte. */
  lemma OneByte(b: byte, c: byte, d: byte)
    ensures GetBits(b, c, 0) == GetBits(b, d, 0) && GetBits(b, c, 3) == GetBits(b, d, 3)
  {
    var x: nat, y: nat, z: nat := b, c, d;
    Mod64(x / 64 + y * 4, x % 64);
    Mod64(x / 64 + z * 4, x % 64);
    Mod64(y, x / 4);
    Mod64(z, x / 4);
  }

  lemma StartOf(r: nat)
    ensures FirstByte(r) == r / 4 * 3 + (if r % 4 == 0 then 0 else r % 4 - 1)
  {
  }

  /** Setting a register changes that register and no other. */
  lemma DenseSetGet(p: seq<byte>, r: nat, v: nat, j: nat)
    requires IsDense(p) && r < HLL_REGISTERS && v <= HLL_REGISTER_MAX && j < HLL_REGISTERS
    ensures DenseGet(DenseSet(p, r, v), j) == if j == r then v else DenseGet(p, j)
  {
    hide GetBits, SetFirst, SetSecond, FirstByte;
    StartOf(r);
    StartOf(j);
    var i, k := FirstByte(r), r % 4;
    SetBits(p[i], p[i + 1], k, v);
    SetKeepsTogether(p[i], p[i + 1], SetSecond(p[i + 1], 1, v), v);
    SetSecondAlone(p[i + 1], v);
    var p', l := DenseSet(p, r, v), FirstByte(j);
    OneByte(p[l], p[l + 1], p'[l + 1]);
    if k >= 1 && i >= 1 {
      SetKeepsBefore(p[i - 1], p[i], k, v);
    }
    if 1 <= k < 3 && i + 2 < |p| {
      SetKeepsAfter(p[i + 1], p[i + 2], k, v);
    }
  }

  lemma SetSecondAlone(b: byte, v: nat)
    requires v <= HLL_REGISTER_MAX
    ensures SetSecond(b, 0, v) == b && SetSecond(b, 3, v) == b
  {
  }

  // ----- The sparse encoding -----

  predicate IsZero(b: byte) { b < 64 }

  predicate IsXZero(b: byte) { 64 <= b < 128 }

  predicate IsVal(b: byte) { 128 <= b }

  /** How many bytes an opcode that starts with `b` takes. */
  function OpLen(b: byte): (n: nat)
    ensures 1 <= n <= 2
  {
    if IsXZero(b) then 2 else 1
  }

  /** How many registers the opcode at the head of `s` covers. */
  function Span(s: seq<byte>): (n: nat)
    requires s != [] && |s| >= OpLen(s[0])
    ensures n >= 1
  {
    if IsZero(s[0]) then s[0] as int % 64 + 1
    else if IsXZero(s[0]) then s[0] as int % 64 * 256 + s[1] as int + 1
    else s[0] as int % 4 + 1
  }

  /** The value the opcode at the head of `s` gives them. */
  function OpValue(b: byte): (v: nat)
    ensures v <= HLL_SPARSE_VAL_MAX_VALUE
  {
    if IsVal(b) then b as int / 4 % 32 + 1 else 0
  }

  /** HLL_SPARSE_VAL_SET. */
  function ValOp(v: nat, len: nat): (b: byte)
    requires 1 <= v <= HLL_SPARSE_VAL_MAX_VALUE && 1 <= len <= HLL_SPARSE_VAL_MAX_LEN
    ensures IsVal(b) && OpValue(b) == v && Span([b]) == len
  {
    128 + (v - 1) * 4 + (len - 1)
  }

  /** HLL_SPARSE_ZERO_SET or HLL_SPARSE_XZERO_SET, whichever has room for `len`. */
  function ZeroOp(len: nat): (s: seq<byte>)
    requires 1 <= len <= HLL_SPARSE_XZERO_MAX_LEN
    ensures |s| == (if len > HLL_SPARSE_ZERO_MAX_LEN then 2 else 1) && OpLen(s[0]) == |s| && !IsVal(s[0]) && Span(s) == len
  {
    if len > HLL_SPARSE_ZERO_MAX_LEN then [(len - 1) / 256 + 64, (len - 1) % 256] else [len - 1]
  }

  /** Every opcode is complete. */
  predicate WellFormed(s: seq<byte>) {
    s == [] || (|s| >= OpLen(s[0]) && WellFormed(s[OpLen(s[0])..]))
  }

  function Repeat(v: nat, n: nat): (r: Registers)
    ensures |r| == n && forall i :: 0 <= i < n ==> r[i] == v
  {
    seq(n, _ => v)
  }

  /** The registers that a string of opcodes stands for. */
  function Expand(s: seq<byte>): Registers
    requires WellFormed(s)
  {
    if s == [] then [] else Repeat(OpValue(s[0]), Span(s)) + Expand(s[OpLen(s[0])..])
  }

  lemma SpanOfPrefix(a: seq<byte>, b: seq<byte>)
    requires a != [] && |a| >= OpLen(a[0])
    ensures Span(a + b) == Span(a)
  {
  }

  lemma {:induction false} ExpandAppend(a: seq<byte>, b: seq<byte>)
    requires WellFormed(a)
    ensures WellFormed(a + b) <==> WellFormed(b)
    ensures WellFormed(b) ==> Expand(a + b) == Expand(a) + Expand(b)
  {
    if a == [] {
      assert a + b == b;
    } else {
      var n := OpLen(a[0]);
      assert (a + b)[n..] == a[n..] + b;
      SpanOfPrefix(a, b);
      ExpandAppend(a[n..], b);
    }
  }

  lemma ExpandOne(s: seq<byte>)
    requires s != [] && OpLen(s[0]) == |s|
    ensures WellFormed(s) && Expand(s) == Repeat(OpValue(s[0]), Span(s))
  {
    assert s[|s|..] == [];
  }

  lemma RepeatAppend(v: nat, a: nat, b: nat)
    ensures Repeat(v, a) + Repeat(v, b) == Repeat(v, a + b)
  {
  }

  lemma ExpandHead(s: seq<byte>)
    requires s != [] && WellFormed(s)
    ensures var n := OpLen(s[0]);
            && n <= |s| && WellFormed(s[n..]) && WellFormed(s[..n])
            && Expand(s) == Repeat(OpValue(s[0]), Span(s)) + Expand(s[n..])
            && Expand(s[..n]) == Repeat(OpValue(s[0]), Span(s))
  {
    hide Repeat, Span, OpLen, OpValue;
    var n := OpLen(s[0]);
    SpanOfPrefix(s[..n], s[n..]);
    assert s[..n] + s[n..] == s;
    ExpandOne(s[..n]);
  }

  /** Opcodes `pre`, one opcode `op`, opcodes `post`. */
  lemma ExpandAround(pre: seq<byte>, op: seq<byte>, post: seq<byte>)
    requires WellFormed(pre) && WellFormed(op) && WellFormed(post)
    ensures WellFormed(pre + op) && Expand(pre + op) == Expand(pre) + Expand(op)
    ensures WellFormed(pre + op + post) && Expand(pre + op + post) == Expand(pre) + Expand(op) + Expand(post)
  {
    hide *;
    ExpandAppend(pre, op);
    ExpandAppend(pre + op, post);
  }

  /** The opcodes before position `p`, the one at it, and those behind it. */
  lemma ExpandAt(s: seq<byte>, p: nat)
    requires p < |s| && WellFormed(s[..p]) && WellFormed(s[p..])
    ensures p + OpLen(s[p]) <= |s|
    ensures WellFormed(s) && WellFormed(s[p + OpLen(s[p])..]) && WellFormed(s[..p + OpLen(s[p])])
    ensures Expand(s) == Expand(s[..p]) + Repeat(OpValue(s[p]), Span(s[p..])) + Expand(s[p + OpLen(s[p])..])
    ensures Expand(s[..p + OpLen(s[p])]) == Expand(s[..p]) + Repeat(OpValue(s[p]), Span(s[p..]))
  {
    hide *;
    ExpandHead(s[p..]);
    Slices(s, p, OpLen(s[p]));
    ExpandAround(s[..p], s[p..][..OpLen(s[p])], s[p + OpLen(s[p])..]);
  }

  lemma Slices(s: seq<byte>, p: nat, n: nat)
    requires p + n <= |s|
    ensures s[p..][n..] == s[p + n..]
    ensures s[..p] + s[p..][..n] == s[..p + n]
    ensures s[..p] + s[p..][..n] + s[p + n..] == s
  {
  }

  /** Replacing the opcode at `p` by other opcodes replaces its registers. */
  lemma ExpandReplaced(s: seq<byte>, p: nat, ops: seq<byte>)
    requires p < |s| && WellFormed(s[..p]) && WellFormed(s[p..]) && WellFormed(ops)
    ensures p + OpLen(s[p]) <= |s| && WellFormed(s[..p]) && WellFormed(s[p + OpLen(s[p])..])
    ensures var s' := s[..p] + ops + s[p + OpLen(s[p])..];
            WellFormed(s') && Expand(s') == Expand(s[..p]) + Expand(ops) + Expand(s[p + OpLen(s[p])..])
  {
    hide WellFormed, Expand, Span, OpValue;
    ExpandAt(s, p);
    var n := OpLen(s[p]);
    ExpandAppend(s[..p], ops);
    ExpandAppend(s[..p] + ops, s[p + n..]);
  }

  // ----- Splitting an opcode -----

  /** A run of `n` equal registers with the one at `i` set to `c`. */
  lemma SplitRun(v: nat, n: nat, i: nat, c: nat)
    requires i < n
    ensures Repeat(v, n)[i := c] == Repeat(v, i) + [c] + Repeat(v, n - i - 1)
  {
  }

  lemma UpdateMiddle(a: Registers, b: Registers, c: Registers, i: nat, x: nat)
    requires |a| <= i < |a| + |b|
    ensures (a + b + c)[i := x] == a + b[i - |a| := x] + c
  {
  }

  /** The opcodes for a run of `n` registers of value `v`: none for an empty run. */
  function RunOps(v: nat, n: nat): (s: seq<byte>)
    requires v <= HLL_SPARSE_VAL_MAX_VALUE && n <= (if v == 0 then HLL_SPARSE_XZERO_MAX_LEN else HLL_SPARSE_VAL_MAX_LEN)
    ensures |s| <= (if v == 0 && n > HLL_SPARSE_ZERO_MAX_LEN then 2 else 1)
  {
    if n == 0 then [] else if v == 0 then ZeroOp(n) else [ValOp(v, n)]
  }

  lemma RunOpsExpand(v: nat, n: nat)
    requires v <= HLL_SPARSE_VAL_MAX_VALUE && n <= (if v == 0 then HLL_SPARSE_XZERO_MAX_LEN else HLL_SPARSE_VAL_MAX_LEN)
    ensures WellFormed(RunOps(v, n)) && Expand(RunOps(v, n)) == Repeat(v, n)
  {
    if n > 0 {
      ExpandOne(RunOps(v, n));
    }
  }

  /** hyperloglog.c lines 766-808: an opcode of value `v` over `n` registers, with the one at `i` set to `count`. */
  method SplitOps(v: nat, n: nat, i: nat, count: nat) returns (ops: seq<byte>)
    requires v <= HLL_SPARSE_VAL_MAX_VALUE && n <= (if v == 0 then HLL_SPARSE_XZERO_MAX_LEN else HLL_SPARSE_VAL_MAX_LEN)
    requires i < n && 1 <= count <= HLL_SPARSE_VAL_MAX_VALUE
    ensures 1 <= |ops| <= (if n > HLL_SPARSE_ZERO_MAX_LEN then 5 else 3)
    ensures WellFormed(ops) && Expand(ops) == Repeat(v, n)[i := count]
  {
    hide WellFormed, Expand;
    ops := [];
    if i != 0 {
      ops := ops + RunOps(v, i);
    }
    ops := ops + [ValOp(count, 1)];
    if i != n - 1 {
      ops := ops + RunOps(v, n - i - 1);
    }
    SplitRun(v, n, i, count);
    RunOpsExpand(v, i);
    RunOpsExpand(v, n - i - 1);
    RunOpsExpand(count, 1);
    ExpandAppend(RunOps(v, i), [ValOp(count, 1)]);
    ExpandAppend(RunOps(v, i) + [ValOp(count, 1)], RunOps(v, n - i - 1));
    assert RunOps(count, 1) == [ValOp(count, 1)] && Repeat(count, 1) == [count];
    assert ops == RunOps(v, i) + [ValOp(count, 1)] + RunOps(v, n - i - 1);
  }
}
