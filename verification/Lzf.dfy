/**
 The LZF codec (lzf_c.c, lzf_d.c) in its built configuration: VERY_FAST on,
 ULTRA_FAST and INIT_HTAB off, CHECK_INPUT on, HLOG 16.

 `Decode` reads the documented stream format; `Decompress` is proved to compute it and
 `Compress` is proved to produce streams that it turns back into the input, whatever
 the uninitialised hash table holds.
 */
module Lzf {
  import opened Arith
  import opened Bytes

  const HSIZE := 0x1_0000
  const MAX_LIT := 32
  const MAX_OFF := 8192
  const MAX_REF := 264
  const WORD32 := 0x1_0000_0000
  const WORD64 := 0x1_0000_0000_0000_0000

  /** Any 64-bit pattern a pointer slot can hold. */
  type Address = a: int | 0 <= a < 0x1_0000_0000_0000_0000

  /** The outcomes of decompression: the data, or the error number that is reported. */
  datatype Decoded = Data(data: seq<byte>) | TooBig | Invalid

  // ----- The stream format -----

  /** Appends `n` bytes, each a copy of the byte `dist` places before it. */
  function CopyBack(dst: seq<byte>, dist: nat, n: nat): (r: seq<byte>)
    requires 1 <= dist <= |dst|
    ensures |r| == |dst| + n && dst <= r
    decreases n
  {
    if n == 0 then dst else CopyBack(dst + [dst[|dst| - dist]], dist, n - 1)
  }

  /** What one instruction does: it takes `used` bytes of the stream and leaves `dst` as the output. */
  datatype Effect = Effect(used: nat, dst: seq<byte>) | Full | Corrupt

  /** The number of bytes a back reference that starts with `ctrl` takes. */
  function RefSize(ctrl: byte): nat {
    if ctrl as int / 32 == 7 then 3 else 2
  }

  /** How many bytes the back reference at the head of `src` copies. */
  function RefLength(src: seq<byte>): nat
    requires src != [] && |src| >= RefSize(src[0])
  {
    src[0] as int / 32 + (if RefSize(src[0]) == 3 then src[1] as int else 0) + 2
  }

  /** How far back the back reference at the head of `src` looks. */
  function RefDistance(src: seq<byte>): (n: nat)
    requires src != [] && |src| >= RefSize(src[0])
    ensures n >= 1
  {
    src[0] as int % 32 * 256 + src[RefSize(src[0]) - 1] as int + 1
  }

  /** The effect of the literal run at the head of `src`. */
  function Literal(src: seq<byte>, dst: seq<byte>, cap: nat): Effect
    requires src != [] && src[0] < MAX_LIT
  {
    var run: nat := src[0] as int + 1;
    if |dst| + run > cap then Full
    else if 1 + run > |src| then Corrupt
    else Effect(1 + run, dst + src[1..1 + run])
  }

  /** The effect of the back reference at the head of `src`. */
  function Reference(src: seq<byte>, dst: seq<byte>, cap: nat): Effect
    requires src != [] && src[0] >= MAX_LIT
  {
    if |src| < RefSize(src[0]) then Corrupt
    else if |dst| + RefLength(src) > cap then Full
    else if RefDistance(src) > |dst| then Corrupt
    else Effect(RefSize(src[0]), CopyBack(dst, RefDistance(src), RefLength(src)))
  }

  /** The effect of the first instruction of `src`. */
  function Instruction(src: seq<byte>, dst: seq<byte>, cap: nat): (e: Effect)
    requires src != []
    ensures e.Effect? ==> 2 <= e.used <= |src| && dst <= e.dst && |dst| < |e.dst| <= cap
  {
    if src[0] < MAX_LIT then Literal(src, dst, cap) else Reference(src, dst, cap)
  }

  /** The meaning of stream `src` after `dst` has been produced, with room for `cap` bytes in all. */
  function Decode(src: seq<byte>, dst: seq<byte>, cap: nat): Decoded
    decreases |src|
  {
    if src == [] then Data(dst)
    else
      match Instruction(src, dst, cap)
      case Full => TooBig
      case Corrupt => Invalid
      case Effect(used, dst') => Decode(src[used..], dst', cap)
  }

  /** A back reference of `len` bytes at distance `dist`, as it is written to the stream. */
  function RefBytes(dist: nat, len: nat): (r: seq<byte>)
    requires 1 <= dist <= MAX_OFF && 3 <= len <= MAX_REF
  {
    var off := dist - 1;
    if len - 2 < 7 then
      [off / 256 + (len - 2) * 32, off % 256]
    else
      [off / 256 + 7 * 32, len - 2 - 7, off % 256]
  }

  // ----- Properties of the format -----

  lemma {:induction false} CopyBackMatches(input: seq<byte>, ip: nat, dist: nat, n: nat)
    requires 1 <= dist <= ip && ip + n <= |input|
    requires input[ip - dist..ip - dist + n] == input[ip..ip + n]
    ensures CopyBack(input[..ip], dist, n) == input[..ip + n]
    decreases n
  {
    if n > 0 {
      var a, b := input[ip - dist..ip - dist + n], input[ip..ip + n];
      assert a[0] == b[0];
      assert input[..ip] + [input[..ip][ip - dist]] == input[..ip + 1];
      assert a[1..] == input[ip + 1 - dist..ip - dist + n] && b[1..] == input[ip + 1..ip + n];
      CopyBackMatches(input, ip + 1, dist, n - 1);
    }
  }

  /** A complete instruction does not look past its end. */
  lemma InstructionAppend(a: seq<byte>, b: seq<byte>, dst: seq<byte>, cap: nat)
    requires a != [] && Instruction(a, dst, cap).Effect?
    ensures Instruction(a + b, dst, cap) == Instruction(a, dst, cap)
  {
    var used := Instruction(a, dst, cap).used;
    assert (a + b)[..used] == a[..used];
    if a[0] < MAX_LIT {
      assert (a + b)[1..used] == a[1..used];
    }
  }

  /** A stream that decodes on its own decodes the same way in front of another one. */
  lemma {:induction false} DecodeAppend(a: seq<byte>, b: seq<byte>, dst: seq<byte>, cap: nat)
    requires Decode(a, dst, cap).Data?
    ensures Decode(a + b, dst, cap) == Decode(b, Decode(a, dst, cap).data, cap)
    decreases |a|
  {
    if a == [] {
      assert a + b == b;
    } else {
      InstructionAppend(a, b, dst, cap);
      var e := Instruction(a, dst, cap);
      assert (a + b)[e.used..] == a[e.used..] + b;
      DecodeAppend(a[e.used..], b, e.dst, cap);
    }
  }

  /** Decoding only ever adds to the output, and a non-empty stream adds something. */
  lemma {:induction false} DecodeGrows(src: seq<byte>, dst: seq<byte>, cap: nat)
    requires Decode(src, dst, cap).Data?
    ensures dst <= Decode(src, dst, cap).data
    ensures src != [] ==> |dst| < |Decode(src, dst, cap).data| <= cap
    decreases |src|
  {
    if src != [] {
      var e := Instruction(src, dst, cap);
      DecodeGrows(src[e.used..], e.dst, cap);
    }
  }

  /** A stream of one instruction means the effect of that instruction. */
  lemma DecodeOne(b: seq<byte>, dst: seq<byte>, cap: nat)
    requires b != [] && Instruction(b, dst, cap).Effect? && Instruction(b, dst, cap).used == |b|
    ensures Decode(b, dst, cap) == Data(Instruction(b, dst, cap).dst)
  {
    assert b[|b|..] == [];
  }

  /** The bytes of a back reference are read back as its length and its distance. */
  lemma RefBytesRead(dist: nat, len: nat)
    requires 1 <= dist <= MAX_OFF && 3 <= len <= MAX_REF
    ensures var b := RefBytes(dist, len);
            b[0] >= MAX_LIT && RefSize(b[0]) == |b| && RefLength(b) == len && RefDistance(b) == dist
  {
    var b, off := RefBytes(dist, len), dist - 1;
    var top := if len - 2 < 7 then len - 2 else 7;
    assert b[0] == off / 256 + top * 32;
    assert 0 <= off / 256 < 32;
    assert b[0] as int / 32 == top && b[0] as int % 32 == off / 256;
  }

  /** Appending a literal run to a stream appends its bytes to what the stream means. */
  lemma DecodeLiteral(a: seq<byte>, lits: seq<byte>, dst: seq<byte>, cap: nat)
    requires Decode(a, [], cap) == Data(dst)
    requires 1 <= |lits| <= MAX_LIT && |dst| + |lits| <= cap
    ensures Decode(a + [|lits| - 1] + lits, [], cap) == Data(dst + lits)
  {
    hide Decode;
    var b := [|lits| - 1] + lits;
    assert a + [|lits| - 1] + lits == a + b;
    DecodeAppend(a, b, [], cap);
    assert b[1..1 + |lits|] == lits;
    DecodeOne(b, dst, cap);
  }

  /** Appending a back reference whose source agrees with the next input bytes decodes to them. */
  lemma DecodeReference(a: seq<byte>, input: seq<byte>, ip: nat, dist: nat, len: nat)
    requires 1 <= dist <= MAX_OFF && 3 <= len <= MAX_REF
    requires dist <= ip && ip + len <= |input|
    requires Decode(a, [], |input|) == Data(input[..ip])
    requires input[ip - dist..ip - dist + len] == input[ip..ip + len]
    ensures Decode(a + RefBytes(dist, len), [], |input|) == Data(input[..ip + len])
  {
    hide Decode;
    var b := RefBytes(dist, len);
    DecodeAppend(a, b, [], |input|);
    RefBytesRead(dist, len);
    CopyBackMatches(input, ip, dist, len);
    DecodeOne(b, input[..ip], |input|);
  }

  // ----- Decompression -----

  /**
   Copies `len` bytes forward one at a time, so that a source overlapping its own
   destination repeats; the caller has checked that both ends are in range.
   */
  method CopyOverlapping(dst: array<byte>, op: nat, dist: nat, len: nat)
    requires 1 <= dist <= op && op + len <= dst.Length
    modifies dst
    ensures dst[..op + len] == CopyBack(old(dst[..op]), dist, len)
    ensures dst[op + len..] == old(dst[op + len..])
  {
    hide CopyBack;
    ghost var goal := CopyBack(dst[..op], dist, len);
    var i: nat := 0;
    while i < len
      invariant i <= len
      invariant CopyBack(dst[..op + i], dist, len - i) == goal
      invariant forall k :: op + i <= k < dst.Length ==> dst[k] == old(dst[k])
    {
      ghost var before := dst[..op + i];
      CopyBackStep(before, dist, len - i);
      dst[op + i] := dst[op + i - dist];
      i := i + 1;
      assert dst[..op + i] == before + [before[|before| - dist]];
    }
    CopyBackStep(dst[..op + i], dist, 0);
  }

  lemma CopyBackStep(dst: seq<byte>, dist: nat, n: nat)
    requires 1 <= dist <= |dst|
    ensures CopyBack(dst, dist, n) == if n == 0 then dst else CopyBack(dst + [dst[|dst| - dist]], dist, n - 1)
  {
  }

  /** The byte-by-byte copy of a literal run. */
  method CopyLiteral(src: seq<byte>, ip: nat, dst: array<byte>, op: nat, len: nat)
    requires ip + len <= |src| && op + len <= dst.Length
    modifies dst
    ensures dst[..op + len] == old(dst[..op]) + src[ip..ip + len]
    ensures dst[op + len..] == old(dst[op + len..])
  {
    var i := 0;
    while i < len
      invariant 0 <= i <= len
      invariant dst[..op + i] == old(dst[..op]) + src[ip..ip + i]
      invariant dst[op + i..] == old(dst[op + i..])
    {
      ghost var before := dst[..op + i];
      dst[op + i] := src[ip + i];
      i := i + 1;
      assert dst[..op + i] == before + [src[ip + i - 1]];
      assert src[ip..ip + i] == src[ip..ip + i - 1] + [src[ip + i - 1]];
      assert dst[op + i..] == old(dst[op + i..]);
    }
  }

  /** How decompression ends: errno is E2BIG or EINVAL when nothing is returned. */
  datatype Errno = None | E2Big | EInval

  /** The literal branch of the loop; `ip` is past the control byte `ctrl`. */
  method DecompressLiteral(src: seq<byte>, ip: nat, ctrl: byte, dst: array<byte>, op: nat)
    returns (ip': nat, op': nat, err: Errno)
    requires 1 <= ip <= |src| && op <= dst.Length && src[ip - 1] == ctrl && ctrl < MAX_LIT
    modifies dst
    ensures match Instruction(src[ip - 1..], old(dst[..op]), dst.Length)
            case Full => err == E2Big
            case Corrupt => err == EInval
            case Effect(used, out) =>
              && err == None && ip' == ip - 1 + used && op <= op' <= dst.Length
              && dst[..op'] == out && dst[op'..] == old(dst[op'..])
  {
    ip', op' := ip, op;
    var run: nat := ctrl as int + 1;
    if op + run > dst.Length {
      return ip, op, E2Big;
    }
    if ip + run > |src| {
      return ip, op, EInval;
    }
    SliceOfSuffix(src, ip - 1, 1, 1 + run);
    CopyLiteral(src, ip, dst, op, run);
    return ip + run, op + run, None;
  }

  /** The back reference branch of the loop; `ip` is past the control byte `ctrl`. */
  method DecompressReference(src: seq<byte>, ip: nat, ctrl: byte, dst: array<byte>, op: nat)
    returns (ip': nat, op': nat, err: Errno)
    requires 1 <= ip <= |src| && op <= dst.Length && src[ip - 1] == ctrl && ctrl >= MAX_LIT
    modifies dst
    ensures match Instruction(src[ip - 1..], old(dst[..op]), dst.Length)
            case Full => err == E2Big
            case Corrupt => err == EInval
            case Effect(used, out) =>
              && err == None && ip' == ip - 1 + used && op <= op' <= dst.Length
              && dst[..op'] == out && dst[op'..] == old(dst[op'..])
  {
    ip', op' := ip, op;
    ghost var rest := src[ip - 1..];
    var len: nat := ctrl as int / 32;
    var ref: int := op - ctrl as int % 32 * 256 - 1;
    if ip' >= |src| {
      return ip, op, EInval;
    }
    if len == 7 {
      len := len + src[ip'] as int;
      ip' := ip' + 1;
      if ip' >= |src| {
        return ip, op, EInval;
      }
    }
    ref := ref - src[ip'] as int;
    ip' := ip' + 1;
    assert op - ref == RefDistance(rest) && len + 2 == RefLength(rest);
    if op + len + 2 > dst.Length {
      return ip, op, E2Big;
    }
    if ref < 0 {
      return ip, op, EInval;
    }
    CopyOverlapping(dst, op, op - ref, len + 2);
    op' := op + len + 2;
    err := None;
  }

  lemma TailOf(s: seq<byte>, t: seq<byte>, from: nat, to: nat)
    requires from <= to <= |s| == |t| && s[from..] == t[from..]
    ensures s[to..] == t[to..]
  {
    assert s[to..] == s[from..][to - from..] && t[to..] == t[from..][to - from..];
  }

  /**
   lzf_decompress. Returns the number of bytes produced, and 0 with the reported error
   for a stream that is cut short, refers before its start, or does not fit.
   */
  method Decompress(src: seq<byte>, dst: array<byte>) returns (n: nat, err: Errno)
    requires |src| >= 1
    modifies dst
    ensures match Decode(src, [], dst.Length)
            case TooBig => n == 0 && err == E2Big
            case Invalid => n == 0 && err == EInval
            case Data(data) => 0 < n <= dst.Length && err == None && dst[..n] == data && dst[n..] == old(dst[n..])
  {
    hide Instruction;
    var ip, op := 0, 0;
    ghost var outcome := Decode(src, [], dst.Length);
    assert src[ip..] == src;
    while true
      invariant 0 <= ip < |src| && 0 <= op <= dst.Length
      invariant Decode(src[ip..], dst[..op], dst.Length) == outcome && dst[op..] == old(dst[op..])
      decreases |src| - ip
    {
      ghost var rest := src[ip..];
      ghost var start, from, before := ip, op, dst[..];
      var ctrl := src[ip];
      ip := ip + 1;
      if ctrl < MAX_LIT {
        ip, op, err := DecompressLiteral(src, ip, ctrl, dst, op);
      } else {
        ip, op, err := DecompressReference(src, ip, ctrl, dst, op);
      }
      if err != None {
        return 0, err;
      }
      TailOf(before, old(dst[..]), from, op);
      assert rest[ip - start..] == src[ip..];
      if ip >= |src| {
        assert src[ip..] == [];
        break;
      }
    }
    n := op;
    err := None;
    DecodeGrows(src, [], dst.Length);
  }

  // ----- Compression -----

  /** FRST: two bytes, most significant first. */
  function First(input: seq<byte>, p: nat): nat
    requires p + 1 < |input|
  {
    input[p] as int * 256 + input[p + 1] as int
  }

  /** NEXT: shifts the third byte into the 32-bit rolling value. */
  function Next(hval: nat, input: seq<byte>, p: nat): nat
    requires p + 2 < |input|
  {
    hval * 256 % WORD32 + input[p + 2] as int
  }

  /** IDX under VERY_FAST: the slot of a rolling value. */
  function Slot(hval: nat): (s: nat)
    ensures s < HSIZE
  {
    (hval / 256 - hval * 5) % HSIZE
  }

  /**
   Extends a three-byte match: up to sixteen unrolled comparisons when plenty of input is left,
   then one byte at a time.
   */
  method MatchLength(input: seq<byte>, ref: nat, ip: nat) returns (len: nat)
    requires ref < ip && ip + 4 < |input|
    requires input[ref..ref + 3] == input[ip..ip + 3]
    ensures 3 <= len <= MAX_REF && ip + len <= |input|
    ensures input[ref..ref + len] == input[ip..ip + len]
    ensures len < MAX_REF && ip + len + 2 < |input| ==> input[ref + len] != input[ip + len]
  {
    assert Matches(input, ref, ip, 3);
    len := 2;
    var maxlen := |input| - ip - len;
    maxlen := if maxlen > MAX_REF then MAX_REF else maxlen;
    if maxlen > 16 {
      var i := 0;
      while i < 16
        invariant 0 <= i <= 16 && len == 2 + i
        invariant Matches(input, ref, ip, len + 1)
      {
        hide Matches;
        len := len + 1;
        if input[ref + len] != input[ip + len] {
          MatchesMeans(input, ref, ip, len);
          return;
        }
        ExtendMatch(input, ref, ip, len);
        i := i + 1;
      }
    }
    len := len + 1;
    while len < maxlen && input[ref + len] == input[ip + len]
      invariant 3 <= len <= |input| - ip && (len <= maxlen || len <= 19)
      invariant Matches(input, ref, ip, len)
    {
      hide Matches;
      ExtendMatch(input, ref, ip, len);
      len := len + 1;
    }
  }

  /** The `n` bytes from `ref` on are those from `ip` on. */
  ghost predicate Matches(input: seq<byte>, ref: nat, ip: nat, n: nat) {
    ref < ip && ip + n <= |input| && input[ref..ref + n] == input[ip..ip + n]
  }

  lemma MatchesMeans(input: seq<byte>, ref: nat, ip: nat, n: nat)
    requires Matches(input, ref, ip, n)
    ensures ip + n <= |input| && input[ref..ref + n] == input[ip..ip + n]
  {
  }

  lemma ExtendMatch(input: seq<byte>, ref: nat, ip: nat, n: nat)
    requires Matches(input, ref, ip, n) && ip + n < |input| && input[ref + n] == input[ip + n]
    ensures Matches(input, ref, ip, n + 1)
  {
    assert input[ref..ref + n + 1] == input[ref..ref + n] + [input[ref + n]];
    assert input[ip..ip + n + 1] == input[ip..ip + n] + [input[ip + n]];
  }

  /** A pending literal run of `lit` bytes is closed: its length goes into the slot kept for it. */
  method StopRun(out: array<byte>, op: nat, lit: nat) returns (op': nat)
    requires lit < op <= out.Length && lit <= MAX_LIT
    modifies out
    ensures op' == if lit == 0 then op - 1 else op
    ensures out[..op - lit - 1] == old(out[..op - lit - 1])
    ensures lit > 0 ==> out[..op'] == old(out[..op - lit - 1]) + [lit - 1] + old(out[op - lit..op])
  {
    out[op - lit - 1] := (lit - 1) % 256;
    op' := op - (if lit == 0 then 1 else 0);
  }

  /** Writes a back reference at `op`: one or two length bytes, then the low byte of the offset. */
  method EmitReference(out: array<byte>, op: nat, off: nat, len: nat) returns (op': nat)
    requires off < MAX_OFF && 3 <= len <= MAX_REF && op + 3 <= out.Length
    modifies out
    ensures op' == op + (if len < 9 then 2 else 3)
    ensures out[..op'] == old(out[..op]) + RefBytes(off + 1, len)
  {
    op' := op;
    var n := len - 2;
    if n < 7 {
      out[op'] := off / 256 + n * 32;
      op' := op' + 1;
    } else {
      out[op'] := off / 256 + 7 * 32;
      out[op' + 1] := n - 7;
      op' := op' + 2;
    }
    out[op'] := off % 256;
    op' := op' + 1;
  }

  /** What the compressor keeps: the closed part of the output decodes to the input before the open run. */
  ghost predicate Compressed(input: seq<byte>, done: seq<byte>, from: nat) {
    from <= |input| && Decode(done, [], |input|) == Data(input[..from])
    && |done| <= from + from / 32
  }

  /**
   The state between two steps: `produced` ends with the slot for a control byte and an open run
   of the last `lit` input bytes before `ip`.
   */
  ghost predicate Pending(input: seq<byte>, produced: seq<byte>, ip: nat, lit: nat) {
    lit < MAX_LIT && lit <= ip <= |input| && lit < |produced|
    && produced[|produced| - lit..] == input[ip - lit..ip]
    && Compressed(input, produced[..|produced| - lit - 1], ip - lit)
  }

  lemma NothingYet(input: seq<byte>, slot: seq<byte>)
    requires |slot| == 1
    ensures Pending(input, slot, 0, 0) && Decode([], [], |input|) == Data([])
  {
    assert slot[..0] == [];
  }

  lemma PendingBounds(input: seq<byte>, produced: seq<byte>, ip: nat, lit: nat)
    requires Pending(input, produced, ip, lit)
    ensures lit < MAX_LIT && lit <= ip <= |input| && lit < |produced| <= ip + ip / 32 + 1
  {
  }

  lemma RunClosed(input: seq<byte>, done: seq<byte>, from: nat, lit: nat)
    requires Compressed(input, done, from) && from + lit <= |input| && lit <= MAX_LIT
    ensures lit == MAX_LIT ==> Compressed(input, done + [lit - 1] + input[from..from + lit], from + lit)
    ensures lit > 0 ==> Decode(done + [lit - 1] + input[from..from + lit], [], |input|) == Data(input[..from + lit])
  {
    if lit > 0 {
      DecodeLiteral(done, input[from..from + lit], input[..from], |input|);
      assert input[..from] + input[from..from + lit] == input[..from + lit];
    }
  }

  /** One more byte in the open run. */
  lemma LiteralAdded(input: seq<byte>, produced: seq<byte>, ip: nat, lit: nat)
    requires ip < |input| && Pending(input, produced, ip, lit)
    ensures var done, longer := produced[..|produced| - lit - 1], produced + [input[ip]];
            && longer[..|longer| - lit - 2] == done
            && longer[|longer| - lit - 1..] == input[ip - lit..ip + 1] && Compressed(input, done, ip - lit)
            && (lit + 1 < MAX_LIT ==> Pending(input, longer, ip + 1, lit + 1))
  {
    hide Decode, Compressed;
    var longer := produced + [input[ip]];
    assert longer[|longer| - lit - 1..] == produced[|produced| - lit..] + [input[ip]];
    assert input[ip - lit..ip + 1] == input[ip - lit..ip] + [input[ip]];
    assert longer[..|longer| - lit - 2] == produced[..|produced| - lit - 1];
  }

  /** A full run is closed, and the slot for the next one is kept. */
  method CloseFull(input: seq<byte>, ip: nat, out: array<byte>, op: nat, ghost done: seq<byte>) returns (op': nat)
    requires MAX_LIT < op < out.Length && MAX_LIT <= ip <= |input|
    requires out[..op - MAX_LIT - 1] == done && out[op - MAX_LIT..op] == input[ip - MAX_LIT..ip]
    requires Compressed(input, done, ip - MAX_LIT)
    modifies out
    ensures op' == op + 1 && Pending(input, out[..op'], ip, 0)
  {
    hide Decode, Pending, Compressed;
    RunClosed(input, done, ip - MAX_LIT, MAX_LIT);
    op' := StopRun(out, op, MAX_LIT);
    op' := op' + 1;
    assert out[..op'][..op' - 1] == out[..op' - 1];
    FreshRun(input, out[..op'], ip);
  }

  /** Adds one input byte to the open run, closing the run when it is full. */
  method PushLiteral(input: seq<byte>, ip: nat, out: array<byte>, op: nat, lit: nat) returns (op': nat, lit': nat)
    requires ip < |input| && op + 1 < out.Length
    requires Pending(input, out[..op], ip, lit)
    modifies out
    ensures op' == if lit + 1 == MAX_LIT then op + 2 else op + 1
    ensures lit' == if lit + 1 == MAX_LIT then 0 else lit + 1
    ensures Pending(input, out[..op'], ip + 1, lit')
  {
    hide *;
    PendingBounds(input, out[..op], ip, lit);
    LiteralAdded(input, out[..op], ip, lit);
    ghost var before := out[..op];
    out[op] := input[ip];
    op', lit' := op + 1, lit + 1;
    ghost var longer := out[..op'];
    assert longer == before + [input[ip]];
    if lit' == MAX_LIT {
      assert out[..op' - MAX_LIT - 1] == longer[..op' - MAX_LIT - 1];
      assert out[op' - MAX_LIT..op'] == longer[op' - MAX_LIT..];
      op' := CloseFull(input, ip + 1, out, op', before[..op - lit - 1]);
      lit' := 0;
    }
  }

  lemma ReferenceClosed(input: seq<byte>, done: seq<byte>, ip: nat, dist: nat, len: nat)
    requires 1 <= dist <= MAX_OFF && 3 <= len <= MAX_REF
    requires dist <= ip && ip + len <= |input|
    requires Decode(done, [], |input|) == Data(input[..ip]) && |done| <= ip + ip / 32 + 1
    requires input[ip - dist..ip - dist + len] == input[ip..ip + len]
    ensures Compressed(input, done + RefBytes(dist, len), ip + len)
  {
    hide Decode;
    DecodeReference(done, input, ip, dist, len);
  }

  /** Closes the open run, or takes its slot back when it is empty. */
  method CloseRun(input: seq<byte>, ip: nat, out: array<byte>, op: nat, lit: nat) returns (op': nat)
    requires op <= out.Length && Pending(input, out[..op], ip, lit)
    modifies out
    ensures op' == if lit == 0 then op - 1 else op
    ensures op' <= ip + ip / 32 + 1
    ensures Decode(out[..op'], [], |input|) == Data(input[..ip])
  {
    hide Decode;
    ghost var done := out[..op - lit - 1];
    assert out[op - lit..op] == out[..op][op - lit..];
    assert out[..op][..op - lit - 1] == done;
    RunClosed(input, done, ip - lit, lit);
    op' := StopRun(out, op, lit);
  }

  /**
   Replaces a match by a back reference: closes the open run, checks the room left, and
   starts a new run after the reference.
   */
  method PushReference(input: seq<byte>, ref: nat, ip: nat, out: array<byte>, outLen: nat, op: nat, lit: nat)
    returns (ip': nat, op': nat, ok: bool)
    requires op <= out.Length && outLen < out.Length
    requires ref < ip && ip - ref <= MAX_OFF && ip + 4 < |input|
    requires input[ref..ref + 3] == input[ip..ip + 3]
    requires Pending(input, out[..op], ip, lit)
    modifies out
    ensures !ok ==> outLen <= |input| + |input| / 32 && outLen <= op + 4
    ensures ok ==> ip + 3 <= ip' <= |input| && 1 <= op' <= outLen && op' <= op + (if lit == 0 then 3 else 4)
    ensures ok ==> input[ref..ref + (ip' - ip)] == input[ip..ip'] && ip' - ip <= MAX_REF
    ensures ok && ip' - ip < MAX_REF && ip' + 2 < |input| ==> input[ref + (ip' - ip)] != input[ip']
    ensures ok ==> Pending(input, out[..op'], ip', 0)
  {
    hide Decode, Compressed, Pending, RefBytes;
    PendingBounds(input, out[..op], ip, lit);
    op' := CloseRun(input, ip, out, op, lit);
    ip', ok := ip, true;
    if op' + 3 + 1 >= outLen {
      return ip, op', false;
    }
    var len := MatchLength(input, ref, ip);
    ReferenceClosed(input, out[..op'], ip, ip - ref, len);
    op' := EmitReference(out, op', ip - ref - 1, len);
    op' := op' + 1;
    ip' := ip + len;
    assert out[..op'][..op' - 1] == out[..op' - 1];
    FreshRun(input, out[..op'], ip');
  }

  lemma FreshRun(input: seq<byte>, produced: seq<byte>, ip: nat)
    requires produced != [] && Compressed(input, produced[..|produced| - 1], ip)
    ensures Pending(input, produced, ip, 0)
  {
    hide Decode;
    assert produced[|produced| - 0..] == input[ip - 0..ip];
  }

  /** The input bytes after the last position where a match can start are copied as literals. */
  method PushTail(input: seq<byte>, ip: nat, out: array<byte>, outLen: nat, op: nat, lit: nat) returns (n: nat)
    requires op + 3 <= outLen < out.Length && ip <= |input| <= ip + 2 && input != []
    requires Pending(input, out[..op], ip, lit)
    modifies out
    ensures 0 < n <= outLen && n <= op + 3 && Decode(out[..n], [], |input|) == Data(input)
  {
    hide Decode, Pending;
    var ip': nat, op': nat, lit': nat := ip, op, lit;
    PendingBounds(input, out[..op], ip, lit);
    while ip' < |input|
      invariant ip <= ip' <= |input| && op' <= out.Length
      invariant Pending(input, out[..op'], ip', lit')
      invariant var d := ip' - ip;
                (lit' == lit + d && op' == op + d) || (lit' + MAX_LIT == lit + d && op' == op + d + 1)
    {
      PendingBounds(input, out[..op'], ip', lit');
      op', lit' := PushLiteral(input, ip', out, op', lit');
      ip' := ip' + 1;
    }
    PendingBounds(input, out[..op'], ip', lit');
    n := CloseRun(input, ip', out, op', lit');
    assert input[..ip'] == input;
    NothingYet(input, [0]);
    assert out[..0] == [];
  }

  /** Looks the next three bytes up in the hash table, and records their position there. */
  method Probe(htab: array<Address>, input: seq<byte>, ip: nat, base: Address, hval: nat)
    returns (ref: nat, found: bool)
    requires htab.Length == HSIZE && ip + 2 < |input| && MAX_OFF <= base && base + |input| < WORD64
    modifies htab
    ensures htab[Slot(hval)] == base + ip
    ensures var slot := old(htab[Slot(hval)]);
            found <==> base < slot < base + ip && base + ip - slot <= MAX_OFF && ip + 4 < |input|
                       && input[slot - base..slot - base + 3] == input[ip..ip + 3]
    ensures found ==> ref == old(htab[Slot(hval)]) - base
  {
    hide Slot;
    var slot := htab[Slot(hval)];
    htab[Slot(hval)] := base + ip;
    ref, found := 0, false;
    var off := (base + ip - slot - 1) % WORD64;
    if off < MAX_OFF && ip + 4 < |input| && slot > base {
      OffsetInRange(base + ip, slot);
      ref := slot - base;
      found := input[ref] == input[ip] && input[ref + 1] == input[ip + 1] && input[ref + 2] == input[ip + 2];
      ThreeBytes(input, ref, ip);
    } else if base < slot < base + ip && base + ip - slot <= MAX_OFF {
      SmallOffset(base + ip, slot);
    }
  }

  lemma ThreeBytes(input: seq<byte>, ref: nat, ip: nat)
    requires ref < ip && ip + 2 < |input|
    ensures input[ref..ref + 3] == input[ip..ip + 3]
       <==> input[ref] == input[ip] && input[ref + 1] == input[ip + 1] && input[ref + 2] == input[ip + 2]
  {
    var a, b := input[ref..ref + 3], input[ip..ip + 3];
    assert a[0] == input[ref] && a[1] == input[ref + 1] && a[2] == input[ref + 2];
    assert b[0] == input[ip] && b[1] == input[ip + 1] && b[2] == input[ip + 2];
    if input[ref] == input[ip] && input[ref + 1] == input[ip + 1] && input[ref + 2] == input[ip + 2] {
      assert forall k :: 0 <= k < 3 ==> a[k] == b[k];
    }
  }

  lemma SmallOffset(ip: int, slot: int)
    requires 1 <= ip - slot <= MAX_OFF
    ensures (ip - slot - 1) % WORD64 == ip - slot - 1
  {
  }

  /** A wrapped difference that is small is the real difference, since no object lives near address 0. */
  lemma OffsetInRange(ip: int, slot: Address)
    requires MAX_OFF <= ip < WORD64 && (ip - slot - 1) % WORD64 < MAX_OFF
    ensures (ip - slot - 1) % WORD64 == ip - slot - 1 >= 0
  {
  }

  /** VERY_FAST: after a match only the last two positions it covered are entered in the table. */
  method Reseed(htab: array<Address>, input: seq<byte>, ip: nat, base: Address) returns (hval: nat)
    requires htab.Length == HSIZE && 2 <= ip < |input| - 2 && base + |input| < WORD64
    modifies htab
    ensures Uniform(input) ==> Rolling(hval, input[0]) && htab[RunSlot(input[0])] == base + ip - 1
  {
    hide Slot, RunSlot, Next, Rolling;
    hval := First(input, ip - 2);
    ghost var h0 := hval;
    hval := Next(hval, input, ip - 2);
    htab[Slot(hval)] := base + ip - 2;
    ghost var h1 := hval;
    hval := Next(hval, input, ip - 1);
    htab[Slot(hval)] := base + ip - 1;
    if Uniform(input) {
      RollingStart(input, ip - 2);
      RollingNext(input, h0, ip - 2);
      RollingNext(input, h1, ip - 1);
    }
  }

  // ----- A run of one byte -----

  /** All bytes are the same. */
  ghost predicate Uniform(input: seq<byte>) {
    forall k :: 0 <= k < |input| ==> input[k] == input[0]
  }

  /** The last two bytes in the rolling value are `x`. */
  predicate Rolling(hval: nat, x: byte) { hval % 0x1_0000 == x as int * 257 }

  /** The slot of three times `x`. */
  function RunSlot(x: byte): (s: nat)
    ensures s < HSIZE
  {
    Slot(x as int * 0x1_0101)
  }

  lemma ModShift(z: int, t: int, m: int)
    requires m > 0
    ensures (z + t * m) % m == z % m
  {
    var q := z / m;
    assert z + t * m == (q + t) * m + z % m;
    ModUnique(z + t * m, m, q + t, z % m);
  }

  lemma RollingStart(input: seq<byte>, p: nat)
    requires p + 1 < |input| && Uniform(input)
    ensures Rolling(First(input, p), input[0])
  {
    assert input[p] == input[0] && input[p + 1] == input[0];
  }

  lemma RollingNext(input: seq<byte>, hval: nat, p: nat)
    requires p + 2 < |input| && Uniform(input) && Rolling(hval, input[0])
    ensures Rolling(Next(hval, input, p), input[0]) && Slot(Next(hval, input, p)) == RunSlot(input[0])
  {
    var x: nat := input[0];
    assert input[p + 2] == input[0];
    var q := hval / 0x1_0000;
    assert hval == q * 0x1_0000 + x * 257;
    var r := q % 0x100;
    NextOfRun(hval, q, x);
    var h := Next(hval, input, p);
    assert h == r * 0x100_0000 + x * 0x1_0101;
    assert h % 0x1_0000 == x * 257 by {
      ModUnique(h, 0x1_0000, r * 0x100 + x, x * 257);
    }
    SlotOfRun(h, r, x);
  }

  lemma NextOfRun(hval: nat, q: nat, x: nat)
    requires hval == q * 0x1_0000 + x * 257 && x < 256
    ensures hval * 256 % WORD32 == q % 0x100 * 0x100_0000 + x * 0x1_0100
  {
    ModUnique(hval * 256, WORD32, q / 0x100, q % 0x100 * 0x100_0000 + x * 0x1_0100);
  }

  lemma SlotOfRun(h: nat, r: nat, x: nat)
    requires h == r * 0x100_0000 + x * 0x1_0101 && x < 256
    ensures Slot(h) == Slot(x * 0x1_0101)
  {
    var b := x * 0x1_0101;
    ModUnique(h, 256, r * 0x1_0000 + b / 256, b % 256);
    ModShift(b / 256 - b * 5, r - 5 * 0x100 * r, HSIZE);
  }

  /**
   How little has been written for a run: at most three bytes for each 264 of the input, besides the first two bytes
   and those at the end where no match can start.
   */
  ghost predicate Shrunk(n: nat, ip: nat, op: nat, lit: nat) {
    if ip <= 2 then op == ip + 1 && lit == ip
    else lit <= ip && (InRun(n, ip, op, lit) || PastRun(n, ip, op, lit))
  }

  ghost predicate InRun(n: nat, ip: nat, op: nat, lit: nat) {
    op <= 4 + ip / 88 + lit && (lit == 0 || ip - lit + 4 >= n || n <= 6)
  }

  ghost predicate PastRun(n: nat, ip: nat, op: nat, lit: nat) {
    ip + 2 >= n && op <= 7 + n / 88 && lit == 0
  }

  lemma ShrunkStart(n: nat)
    ensures Shrunk(n, 0, 1, 0)
  {
  }

  /** There is room for a reference. */
  lemma RunRoom(n: nat, ip: nat, op: nat, lit: nat)
    requires Shrunk(n, ip, op, lit) && 2 <= ip && ip + 4 < n
    ensures op + 4 < n / 64 + 16
  {
  }

  /** In a run every candidate is a match, as long as the code looks for one. */
  lemma RunFound(input: seq<byte>, ip: nat, found: bool, slot: int, base: int)
    requires Uniform(input) && ip + 2 < |input| && slot == base + ip - 1
    requires found <==> base < slot < base + ip && base + ip - slot <= MAX_OFF && ip + 4 < |input|
                        && input[slot - base..slot - base + 3] == input[ip..ip + 3]
    ensures found <==> ip >= 2 && ip + 4 < |input|
  {
    if ip >= 1 {
      ThreeBytes(input, ip - 1, ip);
    }
  }

  lemma ShrunkReference(input: seq<byte>, ref: nat, ip: nat, op: nat, lit: nat, ip': nat, op': nat)
    requires Uniform(input) && Shrunk(|input|, ip, op, lit)
    requires ref < ip && 2 <= ip && ip + 4 < |input| && ip < ip' <= |input| && ip' - ip <= MAX_REF
    requires op' <= op + (if lit == 0 then 3 else 4)
    requires ip' - ip < MAX_REF && ip' + 2 < |input| ==> input[ref + (ip' - ip)] != input[ip']
    ensures Shrunk(|input|, ip', op', 0)
  {
    if ip' - ip == MAX_REF {
      assert ip' / 88 == ip / 88 + 3;
    }
  }

  lemma ShrunkLiteral(n: nat, ip: nat, op: nat, lit: nat)
    requires Shrunk(n, ip, op, lit) && ip + 2 < n && !(ip >= 2 && ip + 4 < n)
    ensures Shrunk(n, ip + 1, op + 1, lit + 1) && op < n / 64 + 16 && lit + 1 < MAX_LIT
  {
  }

  lemma ShrunkEnd(n: nat, ip: nat, op: nat, lit: nat)
    requires Shrunk(n, ip, op, lit) && ip <= n <= ip + 2 && n >= 2
    ensures op + 3 <= n / 64 + 16
  {
  }

  /**
   One round of the loop: a back reference when the table has a match for the next three bytes, and otherwise a
   literal. `run`: the input is a run of one byte, and there is enough room for it.
   */
  method Round(input: seq<byte>, htab: array<Address>, out: array<byte>, outLen: nat, base: Address, ip: nat, op: nat,
               lit: nat, hval: nat, ghost run: bool)
    returns (ip': nat, op': nat, lit': nat, hval': nat, ok: bool)
    requires htab.Length == HSIZE && MAX_OFF <= base && base + |input| < WORD64
    requires outLen < out.Length && op <= out.Length && ip + 2 < |input|
    requires Pending(input, out[..op], ip, lit)
    requires run ==> Uniform(input) && outLen >= |input| / 64 + 16
    requires run ==> Shrunk(|input|, ip, op, lit) && Rolling(hval, input[0])
    requires run && ip > 0 ==> htab[RunSlot(input[0])] == base + ip - 1
    modifies htab, out
    ensures !ok ==> outLen <= |input| + |input| / 32 + 1
    ensures ok ==> ip < ip' <= |input| && op' <= out.Length && Pending(input, out[..op'], ip', lit')
    ensures run ==> ok && Shrunk(|input|, ip', op', lit')
    ensures run && ip' + 2 < |input| ==> Rolling(hval', input[0]) && htab[RunSlot(input[0])] == base + ip' - 1
  {
    hide Pending, Slot, RunSlot, Next, Rolling, Shrunk, Uniform;
    PendingBounds(input, out[..op], ip, lit);
    if run {
      RollingNext(input, hval, ip);
    }
    hval' := Next(hval, input, ip);
    ghost var slot := htab[Slot(hval')];
    var ref, found := Probe(htab, input, ip, base, hval');
    ip', op', lit', ok := ip, op, lit, true;
    if run && ip > 0 {
      RunFound(input, ip, found, slot, base);
    }
    if found {
      if run {
        RunRoom(|input|, ip, op, lit);
      }
      ip', op', ok := PushReference(input, ref, ip, out, outLen, op, lit);
      if !ok {
        return;
      }
      lit' := 0;
      if run {
        ShrunkReference(input, ref, ip, op, lit, ip', op');
      }
      if ip' >= |input| - 2 {
        return;
      }
      hval' := Reseed(htab, input, ip', base);
    } else {
      if run {
        ShrunkLiteral(|input|, ip, op, lit);
      }
      if op >= outLen {
        ok := false;
        return;
      }
      op', lit' := PushLiteral(input, ip, out, op, lit);
      ip' := ip + 1;
    }
  }

  /**
   lzf_compress. The local hash table starts with arbitrary contents. `base` is the address of
   the input, used to give the table's entries their meaning: any 64-bit pattern is
   possible there, and the subtraction on line 155 of lzf_c.c wraps. Whatever the table holds, `n` bytes that are
   all the same shrink to at most n / 64 + 16.
   */
  method Compress(input: seq<byte>, out: array<byte>, outLen: nat, base: Address) returns (n: nat)
    requires |input| != 1 && out.Length > outLen
    requires MAX_OFF <= base && base + |input| < WORD64
    modifies out
    ensures n <= outLen
    ensures n > 0 ==> Decode(out[..n], [], |input|) == Data(input)
    ensures outLen >= |input| + |input| / 32 + 4 && input != [] ==> n > 0
    ensures Uniform(input) && input != [] && outLen >= |input| / 64 + 16 ==> 0 < n <= |input| / 64 + 16
  {
    hide Decode, Pending, Slot, RunSlot, Next, First, Rolling, Shrunk, Uniform;
    if |input| == 0 || outLen == 0 {
      return 0;
    }
    var htab := new Address[HSIZE];
    var ip: nat, op: nat, lit: nat := 0, 1, 0;
    var hval := First(input, ip);
    NothingYet(input, out[..op]);
    ghost var run := Uniform(input) && outLen >= |input| / 64 + 16;
    if run {
      RollingStart(input, 0);
      ShrunkStart(|input|);
    }
    while ip < |input| - 2
      invariant ip <= |input| && op <= out.Length
      invariant Pending(input, out[..op], ip, lit)
      invariant run ==> Shrunk(|input|, ip, op, lit)
      invariant run && ip + 2 < |input| ==> Rolling(hval, input[0])
      invariant run && 0 < ip < |input| - 2 ==> htab[RunSlot(input[0])] == base + ip - 1
      decreases |input| - ip
    {
      var ok;
      ip, op, lit, hval, ok := Round(input, htab, out, outLen, base, ip, op, lit, hval, run);
      if !ok {
        return 0;
      }
    }
    PendingBounds(input, out[..op], ip, lit);
    if run {
      ShrunkEnd(|input|, ip, op, lit);
    }
    if op + 3 > outLen {
      return 0;
    }
    n := PushTail(input, ip, out, outLen, op, lit);
  }
}
