/**
 A HyperLogLog string object (hyperloglog.c): encoding, cached cardinality and register bytes, updated in
 place by PFADD, read by PFCOUNT and merged. What its registers mean is stated over the set of elements added.
 */
module HyperLogLog {
  import Bits64
  import opened Bytes
  import opened Hll
  import opened HllAdd

  type Element = seq<byte>

  // ----- What registers stand for -----

  /** The registers after adding hashes in order, as the definition of a HyperLogLog does it. */
  function AddAll(regs: Registers, hashes: seq<Word>): (r: Registers)
    requires |regs| == HLL_REGISTERS
    ensures |r| == HLL_REGISTERS
    decreases |hashes|
  {
    if hashes == [] then regs
    else
      var last := |hashes| - 1;
      Raise(AddAll(regs, hashes[..last]), Index(hashes[last]), Count(hashes[last]))
  }

  /** Register r is the largest count among the hashes of `s` that select it, 0 if there is none. */
  ghost predicate Represents(regs: Registers, s: set<Word>) {
    && |regs| == HLL_REGISTERS
    && (forall h :: h in s ==> Count(h) <= regs[Index(h)])
    && (forall r :: 0 <= r < HLL_REGISTERS && regs[r] != 0 ==> Attained(regs, s, r))
  }

  ghost predicate Attained(regs: Registers, s: set<Word>, r: nat)
    requires r < |regs|
  {
    exists h :: h in s && Index(h) == r && Count(h) == regs[r]
  }

  function Empty(): (r: Registers)
    ensures |r| == HLL_REGISTERS
  {
    Repeat(0, HLL_REGISTERS)
  }

  function Elements(hashes: seq<Word>): (s: set<Word>) {
    set h | h in hashes
  }

  /** The registers are a function of the set of hashes alone. */
  lemma RepresentsUnique(a: Registers, b: Registers, s: set<Word>)
    requires Represents(a, s) && Represents(b, s)
    ensures a == b
  {
    hide Index, Count;
    forall r | 0 <= r < HLL_REGISTERS
      ensures a[r] == b[r]
    {
      OneSide(a, b, s, r);
      OneSide(b, a, s, r);
    }
  }

  lemma OneSide(a: Registers, b: Registers, s: set<Word>, r: nat)
    requires Represents(a, s) && Represents(b, s) && r < HLL_REGISTERS
    ensures a[r] <= b[r]
  {
    hide Index, Count;
    if a[r] != 0 {
      assert Attained(a, s, r);
      var h :| h in s && Index(h) == r && Count(h) == a[r];
    }
  }

  lemma RaiseRepresents(regs: Registers, s: set<Word>, h: Word)
    requires Represents(regs, s)
    ensures Represents(Raise(regs, Index(h), Count(h)), s + {h})
  {
    hide Index, Count;
    var i, c := Index(h), Count(h);
    var regs' := Raise(regs, i, c);
    forall r | 0 <= r < HLL_REGISTERS && regs'[r] != 0
      ensures Attained(regs', s + {h}, r)
    {
      if r == i && regs[i] < c {
        assert h in s + {h};
      } else {
        assert Attained(regs, s, r);
        var g :| g in s && Index(g) == r && Count(g) == regs[r];
        assert g in s + {h};
      }
    }
  }

  lemma {:induction false} AddAllRepresents(regs: Registers, s: set<Word>, hashes: seq<Word>)
    requires |regs| == HLL_REGISTERS && Represents(regs, s)
    ensures Represents(AddAll(regs, hashes), s + Elements(hashes))
    decreases |hashes|
  {
    hide Represents, Raise, Index, Count;
    if hashes == [] {
      assert s + Elements(hashes) == s;
    } else {
      var last := |hashes| - 1;
      AddAllRepresents(regs, s, hashes[..last]);
      RaiseRepresents(AddAll(regs, hashes[..last]), s + Elements(hashes[..last]), hashes[last]);
      assert hashes == hashes[..last] + [hashes[last]];
      assert s + Elements(hashes[..last]) + {hashes[last]} == s + Elements(hashes);
    }
  }

  lemma EmptyRepresents()
    ensures Represents(Empty(), {})
  {
  }

  /** Order and repetition do not matter: equal sets of hashes give equal registers. */
  lemma OrderIrrelevant(a: seq<Word>, b: seq<Word>)
    requires Elements(a) == Elements(b)
    ensures AddAll(Empty(), a) == AddAll(Empty(), b)
  {
    hide AddAll, Represents;
    EmptyRepresents();
    AddAllRepresents(Empty(), {}, a);
    AddAllRepresents(Empty(), {}, b);
    assert {} + Elements(a) == Elements(a);
    assert {} + Elements(b) == Elements(b);
    RepresentsUnique(AddAll(Empty(), a), AddAll(Empty(), b), Elements(a));
  }

  function Hashes(hash: Element -> Word, elements: seq<Element>): (r: seq<Word>)
    ensures |r| == |elements|
  {
    seq(|elements|, i requires 0 <= i < |elements| => hash(elements[i]))
  }

  function Image(hash: Element -> Word, elements: set<Element>): set<Word> {
    set e | e in elements :: hash(e)
  }

  lemma HashesOfSet(hash: Element -> Word, elements: seq<Element>)
    ensures Elements(Hashes(hash, elements)) == Image(hash, set e | e in elements)
  {
    forall e | e in elements
      ensures hash(e) in Hashes(hash, elements)
    {
      var i :| 0 <= i < |elements| && elements[i] == e;
      assert Hashes(hash, elements)[i] == hash(e);
    }
  }

  /** PFADD of the same elements in any order, with any repeats, over any number of commands. */
  lemma ElementOrderIrrelevant(hash: Element -> Word, a: seq<Element>, b: seq<Element>)
    requires (set e | e in a) == (set e | e in b)
    ensures AddAll(Empty(), Hashes(hash, a)) == AddAll(Empty(), Hashes(hash, b))
  {
    hide AddAll;
    HashesOfSet(hash, a);
    HashesOfSet(hash, b);
    OrderIrrelevant(Hashes(hash, a), Hashes(hash, b));
  }

  // ----- Merging -----

  function Max(a: nat, b: nat): nat {
    if b > a then b else a
  }

  /** Register-wise maximum. */
  function Join(a: Registers, b: Registers): (r: Registers)
    requires |a| == |b|
    ensures |r| == |a| && forall i :: 0 <= i < |a| ==> r[i] == Max(a[i], b[i])
  {
    seq(|a|, i requires 0 <= i < |a| && |a| == |b| => Max(a[i], b[i]))
  }

  /** The maximum of two HyperLogLogs is the HyperLogLog of the union. */
  lemma JoinRepresents(a: Registers, s: set<Word>, b: Registers, t: set<Word>)
    requires Represents(a, s) && Represents(b, t)
    ensures Represents(Join(a, b), s + t)
  {
    hide Index, Count;
    var m := Join(a, b);
    forall r | 0 <= r < HLL_REGISTERS && m[r] != 0
      ensures Attained(m, s + t, r)
    {
      if m[r] == a[r] {
        assert Attained(a, s, r);
        var h :| h in s && Index(h) == r && Count(h) == a[r];
        assert h in s + t;
      } else {
        assert Attained(b, t, r);
        var h :| h in t && Index(h) == r && Count(h) == b[r];
        assert h in s + t;
      }
    }
  }

  /** Merging the values of two runs of additions gives the value of the runs together. */
  lemma MergeIsUnion(a: seq<Word>, b: seq<Word>)
    ensures Join(AddAll(Empty(), a), AddAll(Empty(), b)) == AddAll(Empty(), a + b)
  {
    hide AddAll, Represents, Join;
    EmptyRepresents();
    AddAllRepresents(Empty(), {}, a);
    AddAllRepresents(Empty(), {}, b);
    AddAllRepresents(Empty(), {}, a + b);
    JoinRepresents(AddAll(Empty(), a), {} + Elements(a), AddAll(Empty(), b), {} + Elements(b));
    assert ({} + Elements(a)) + ({} + Elements(b)) == {} + Elements(a + b);
    RepresentsUnique(Join(AddAll(Empty(), a), AddAll(Empty(), b)), AddAll(Empty(), a + b), {} + Elements(a + b));
  }

  // ----- The sum of 2^-reg and the number of zero registers -----

  /** PE[reg]: 2 to the power -reg. */
  function Weight(v: nat): (w: real) {
    if v == 0 then 1.0 else Weight(v - 1) / 2.0
  }

  function Sum(regs: Registers): real
    decreases |regs|
  {
    if regs == [] then 0.0 else Sum(regs[..|regs| - 1]) + Weight(regs[|regs| - 1])
  }

  function IfZero(v: nat): nat { if v == 0 then 1 else 0 }

  function Zeros(regs: Registers): nat
    decreases |regs|
  {
    if regs == [] then 0 else Zeros(regs[..|regs| - 1]) + IfZero(regs[|regs| - 1])
  }

  lemma SumPush(r: Registers, v: nat)
    ensures Sum(r + [v]) == Sum(r) + Weight(v) && Zeros(r + [v]) == Zeros(r) + IfZero(v)
  {
    assert (r + [v])[..|r|] == r;
  }

  lemma {:induction false} SumRun(r: Registers, v: nat, n: nat)
    ensures Sum(r + Repeat(v, n)) == Sum(r) + Weight(v) * (n as real)
    ensures Zeros(r + Repeat(v, n)) == Zeros(r) + IfZero(v) * n
  {
    hide Sum, Zeros, Weight, IfZero;
    if n == 0 {
      assert r + Repeat(v, n) == r;
    } else {
      SumRun(r, v, n - 1);
      SumPush(r + Repeat(v, n - 1), v);
      assert r + Repeat(v, n) == r + Repeat(v, n - 1) + [v];
      Spread(Weight(v), n);
      SpreadNat(IfZero(v), n);
    }
  }

  lemma Spread(w: real, n: nat)
    requires n > 0
    ensures w * (n as real) == w * ((n - 1) as real) + w
  {
  }

  lemma SpreadNat(w: nat, n: nat)
    requires n > 0
    ensures w * n == w * (n - 1) + w
  {
  }

  lemma SumFour(r: Registers, i: nat)
    requires i + 4 <= |r|
    ensures Sum(r[..i + 4]) == Sum(r[..i]) + Weight(r[i]) + Weight(r[i + 1]) + Weight(r[i + 2]) + Weight(r[i + 3])
    ensures Zeros(r[..i + 4]) == Zeros(r[..i]) + IfZero(r[i]) + IfZero(r[i + 1]) + IfZero(r[i + 2]) + IfZero(r[i + 3])
  {
    hide Sum, Zeros, Weight, IfZero;
    SumNext(r, i);
    SumNext(r, i + 1);
    SumNext(r, i + 2);
    SumNext(r, i + 3);
  }

  lemma SumNext(r: Registers, i: nat)
    requires i < |r|
    ensures Sum(r[..i + 1]) == Sum(r[..i]) + Weight(r[i]) && Zeros(r[..i + 1]) == Zeros(r[..i]) + IfZero(r[i])
  {
    SumPush(r[..i], r[i]);
    assert r[..i + 1] == r[..i] + [r[i]];
  }

  /** PE holds the powers 2^-j for every register value. */
  predicate IsTable(pe: seq<real>) {
    |pe| == HLL_REGISTER_MAX + 1 && forall j :: 0 <= j < |pe| ==> pe[j] == Weight(j)
  }

  lemma {:induction false} WeightIsInverse(j: nat)
    ensures Weight(j) == 1.0 / (Bits64.Pow2(j) as real)
  {
    if j > 0 {
      WeightIsInverse(j - 1);
      HalfOfInverse(Bits64.Pow2(j - 1));
    }
  }

  lemma HalfOfInverse(p: nat)
    requires p > 0
    ensures (1.0 / (p as real)) / 2.0 == 1.0 / ((2 * p) as real)
  {
    assert (2 * p) as real == 2.0 * (p as real);
  }

  /** The table that hllCount keeps: PE[j] = 1.0 / (1 << j). */
  method PowerTable() returns (pe: seq<real>)
    ensures IsTable(pe)
  {
    hide Weight, Bits64.Pow2;
    pe := [1.0];
    var j, shifted := 1, 2;
    assert Weight(0) == 1.0 && Bits64.Pow2(1) == 2 by {
      PowerStart();
    }
    while j < HLL_REGISTER_MAX + 1
      invariant 1 <= j <= HLL_REGISTER_MAX + 1 && |pe| == j && shifted == Bits64.Pow2(j)
      invariant forall i :: 0 <= i < j ==> pe[i] == Weight(i)
    {
      WeightIsInverse(j);
      pe := pe + [1.0 / (shifted as real)];
      PowerNext(j);
      j, shifted := j + 1, 2 * shifted;
    }
  }

  lemma PowerStart()
    ensures Weight(0) == 1.0 && Bits64.Pow2(1) == 2
  {
  }

  lemma PowerNext(j: nat)
    ensures Bits64.Pow2(j + 1) == 2 * Bits64.Pow2(j)
  {
  }

  // The four registers in three bytes, as the unrolled sum reads them.

  function Reg0(b: byte): nat { b as int % 64 }

  function Reg1(b0: byte, b1: byte): (v: nat)
    ensures v < 64
  {
    (b0 as int / 64 + b1 as int * 4) % 64
  }

  function Reg2(b0: byte, b1: byte): (v: nat)
    ensures v < 64
  {
    (b0 as int / 16 + b1 as int * 16) % 64
  }

  function Reg3(b: byte): nat { b as int / 4 % 64 }

  lemma RegisterBits(b0: byte, b1: byte)
    ensures GetBits(b0, b1, 0) == Reg0(b0) && GetBits(b0, b1, 1) == Reg1(b0, b1)
    ensures GetBits(b0, b1, 2) == Reg2(b0, b1) && GetBits(b0, b1, 3) == Reg3(b0)
  {
    var x: nat, y: nat := b0, b1;
    Mod64(x / 64 + y * 4, x % 64);
    Mod64(y, x / 4);
  }

  lemma Group(p: seq<byte>, q: nat)
    requires IsDense(p) && q < HLL_REGISTERS / 4
    ensures DenseRegs(p)[4 * q] == Reg0(p[3 * q])
    ensures DenseRegs(p)[4 * q + 1] == Reg1(p[3 * q], p[3 * q + 1])
    ensures DenseRegs(p)[4 * q + 2] == Reg2(p[3 * q + 1], p[3 * q + 2])
    ensures DenseRegs(p)[4 * q + 3] == Reg3(p[3 * q + 2])
  {
    hide GetBits, Reg0, Reg1, Reg2, Reg3, DenseRegs;
    RegisterBits(p[3 * q], p[3 * q + 1]);
    RegisterBits(p[3 * q + 1], p[3 * q + 2]);
    RegisterBits(p[3 * q + 2], p[3 * q + 3]);
  }

  /** Four groups: sixteen registers from twelve bytes. */
  lemma SixteenRegisters(p: seq<byte>, j: nat)
    requires IsDense(p) && j < 1024
    ensures var i, d := 12 * j, DenseRegs(p);
            && Sum(d[..16 * j + 16]) == Sum(d[..16 * j]) + SumOfTwelve(p, i)
            && Zeros(d[..16 * j + 16]) == Zeros(d[..16 * j]) + ZerosOfTwelve(p, i)
  {
    hide Sum, Zeros, Weight, IfZero, DenseRegs, IsDense, Reg0, Reg1, Reg2, Reg3;
    var d := DenseRegs(p);
    FourRegisters(p, 4 * j);
    FourRegisters(p, 4 * j + 1);
    FourRegisters(p, 4 * j + 2);
    FourRegisters(p, 4 * j + 3);
  }

  function SumOfThree(p: seq<byte>, i: nat): real
    requires i + 3 <= |p|
  {
    Weight(Reg0(p[i])) + Weight(Reg1(p[i], p[i + 1])) + Weight(Reg2(p[i + 1], p[i + 2])) + Weight(Reg3(p[i + 2]))
  }

  function ZerosOfThree(p: seq<byte>, i: nat): nat
    requires i + 3 <= |p|
  {
    IfZero(Reg0(p[i])) + IfZero(Reg1(p[i], p[i + 1])) + IfZero(Reg2(p[i + 1], p[i + 2])) + IfZero(Reg3(p[i + 2]))
  }

  function SumOfTwelve(p: seq<byte>, i: nat): real
    requires i + 12 <= |p|
  {
    SumOfThree(p, i) + SumOfThree(p, i + 3) + SumOfThree(p, i + 6) + SumOfThree(p, i + 9)
  }

  function ZerosOfTwelve(p: seq<byte>, i: nat): nat
    requires i + 12 <= |p|
  {
    ZerosOfThree(p, i) + ZerosOfThree(p, i + 3) + ZerosOfThree(p, i + 6) + ZerosOfThree(p, i + 9)
  }

  lemma FourRegisters(p: seq<byte>, q: nat)
    requires IsDense(p) && q < HLL_REGISTERS / 4
    ensures Sum(DenseRegs(p)[..4 * q + 4]) == Sum(DenseRegs(p)[..4 * q]) + SumOfThree(p, 3 * q)
    ensures Zeros(DenseRegs(p)[..4 * q + 4]) == Zeros(DenseRegs(p)[..4 * q]) + ZerosOfThree(p, 3 * q)
  {
    hide Sum, Zeros, Weight, IfZero, DenseRegs, Reg0, Reg1, Reg2, Reg3;
    Group(p, q);
    SumFour(DenseRegs(p), 4 * q);
  }

  /** hllDenseSum: sixteen registers an iteration. */
  method DenseSum(p: seq<byte>, pe: seq<real>) returns (e: real, ez: nat)
    requires IsDense(p) && IsTable(pe)
    ensures e == Sum(DenseRegs(p)) && ez == Zeros(DenseRegs(p))
  {
    hide Sum, Zeros, Weight, IfZero, DenseRegs, Reg0, Reg1, Reg2, Reg3;
    e, ez := 0.0, 0;
    ghost var d := DenseRegs(p);
    assert Sum(d[..0]) == 0.0 && Zeros(d[..0]) == 0 by {
      SumStart(d);
    }
    var j := 0;
    while j < 1024
      invariant 0 <= j <= 1024 && e == Sum(d[..16 * j]) && ez == Zeros(d[..16 * j])
    {
      var i := 12 * j;
      RegBounds(p, i);
      RegBounds(p, i + 3);
      RegBounds(p, i + 6);
      RegBounds(p, i + 9);
      var r0, r1, r2, r3 := Reg0(p[i]), Reg1(p[i], p[i + 1]), Reg2(p[i + 1], p[i + 2]), Reg3(p[i + 2]);
      var r4, r5, r6, r7 := Reg0(p[i + 3]), Reg1(p[i + 3], p[i + 4]), Reg2(p[i + 4], p[i + 5]), Reg3(p[i + 5]);
      var r8, r9, r10, r11 := Reg0(p[i + 6]), Reg1(p[i + 6], p[i + 7]), Reg2(p[i + 7], p[i + 8]), Reg3(p[i + 8]);
      var r12, r13, r14, r15 := Reg0(p[i + 9]), Reg1(p[i + 9], p[i + 10]), Reg2(p[i + 10], p[i + 11]), Reg3(p[i + 11]);
      ez := ez + IfZero(r0) + IfZero(r1) + IfZero(r2) + IfZero(r3) + IfZero(r4) + IfZero(r5) + IfZero(r6) + IfZero(r7)
            + IfZero(r8) + IfZero(r9) + IfZero(r10) + IfZero(r11) + IfZero(r12) + IfZero(r13) + IfZero(r14) + IfZero(r15);
      e := e + (pe[r0] + pe[r1]) + (pe[r2] + pe[r3]) + (pe[r4] + pe[r5]) + (pe[r6] + pe[r7])
           + (pe[r8] + pe[r9]) + (pe[r10] + pe[r11]) + (pe[r12] + pe[r13]) + (pe[r14] + pe[r15]);
      SixteenRegisters(p, j);
      j := j + 1;
    }
    assert d[..HLL_REGISTERS] == d;
  }

  lemma SumStart(r: Registers)
    ensures Sum(r[..0]) == 0.0 && Zeros(r[..0]) == 0
  {
  }

  lemma RegBounds(p: seq<byte>, i: nat)
    requires i + 3 <= |p|
    ensures Reg0(p[i]) < 64 && Reg3(p[i + 2]) < 64
  {
  }

  /** hllSparseSum: runs of opcodes. */
  method SparseSum(s: seq<byte>, pe: seq<real>) returns (e: real, ez: nat, invalid: bool)
    requires WellFormed(s) && IsTable(pe)
    ensures e == Sum(Expand(s)) && ez == Zeros(Expand(s))
    ensures invalid <==> |Expand(s)| != HLL_REGISTERS
  {
    hide Sum, Zeros, Weight, IfZero, WellFormed, Expand, Repeat, Span, OpValue;
    e, ez := 0.0, 0;
    CutStart(s);
    assert Sum(Expand(s[..0])) == 0.0 && Zeros(Expand(s[..0])) == 0 by {
      SumStart(Expand(s[..0]));
    }
    var idx, p := 0, 0;
    while p < |s|
      invariant Cut(s, p) && idx == |Expand(s[..p])|
      invariant ez == Zeros(Expand(s[..p])) && e == Sum(Expand(s[..p])) - (ez as real)
      decreases |s| - p
    {
      hide Cut;
      CutNext(s, p);
      var runlen := Span(s[p..]);
      SumRun(Expand(s[..p]), OpValue(s[p]), runlen);
      CutPrefix(s, p + OpLen(s[p]));
      if IsZero(s[p]) {
        RunTerms(s[p], runlen);
        idx, ez := idx + runlen, ez + runlen;
        p := p + 1;
      } else if IsXZero(s[p]) {
        RunTerms(s[p], runlen);
        idx, ez := idx + runlen, ez + runlen;
        p := p + 2;
      } else {
        RunTerms(s[p], runlen);
        idx := idx + runlen;
        e := e + pe[OpValue(s[p])] * (runlen as real);
        p := p + 1;
      }
    }
    CutEnd(s);
    invalid := idx != HLL_REGISTERS;
    e := e + (ez as real);
  }

  lemma RunTerms(b: byte, n: nat)
    ensures IsVal(b) ==> IfZero(OpValue(b)) * n == 0
    ensures !IsVal(b) ==> IfZero(OpValue(b)) * n == n && Weight(OpValue(b)) * (n as real) == n as real
  {
  }

  /** hllRawSum: one register a byte, eight skipped at once when the word they form is zero. */
  method RawSum(raw: Registers, pe: seq<real>) returns (e: real, ez: nat)
    requires |raw| == HLL_REGISTERS && IsTable(pe) && Fit(raw)
    ensures e == Sum(raw) && ez == Zeros(raw)
  {
    hide Sum, Zeros, Weight, IfZero;
    e, ez := 0.0, 0;
    assert Sum(raw[..0]) == 0.0 && Zeros(raw[..0]) == 0 by {
      SumStart(raw);
    }
    var j := 0;
    while j < HLL_REGISTERS / 8
      invariant 0 <= j <= HLL_REGISTERS / 8
      invariant ez == Zeros(raw[..8 * j]) && e == Sum(raw[..8 * j]) - (ez as real)
    {
      var i := 8 * j;
      if raw[i..i + 8] == [0, 0, 0, 0, 0, 0, 0, 0] {
        ZeroWord(raw, i);
        ez := ez + 8;
      } else {
        var k := 0;
        while k < 8
          invariant 0 <= k <= 8
          invariant ez == Zeros(raw[..i + k]) && e == Sum(raw[..i + k]) - (ez as real)
        {
          SumNext(raw, i + k);
          OneRegister(raw[i + k]);
          if raw[i + k] != 0 {
            e := e + pe[raw[i + k]];
          } else {
            ez := ez + 1;
          }
          k := k + 1;
        }
      }
      j := j + 1;
    }
    assert raw[..HLL_REGISTERS] == raw;
    e := e + (ez as real);
  }

  lemma OneRegister(v: nat)
    ensures IfZero(v) == (if v == 0 then 1 else 0) && (v == 0 ==> Weight(v) == 1.0)
  {
  }

  lemma ZeroWord(raw: Registers, i: nat)
    requires i + 8 <= |raw| && raw[i..i + 8] == [0, 0, 0, 0, 0, 0, 0, 0]
    ensures Sum(raw[..i + 8]) == Sum(raw[..i]) + 8.0 && Zeros(raw[..i + 8]) == Zeros(raw[..i]) + 8
  {
    hide Sum, Zeros;
    var w := raw[i..i + 8];
    assert raw[i] == w[0] && raw[i + 1] == w[1] && raw[i + 2] == w[2] && raw[i + 3] == w[3];
    assert raw[i + 4] == w[4] && raw[i + 5] == w[5] && raw[i + 6] == w[6] && raw[i + 7] == w[7];
    SumFour(raw, i);
    SumFour(raw, i + 4);
  }

  // ----- Facts about whole values -----

  lemma EmptyShape()
    ensures WellFormed(ZeroOp(HLL_REGISTERS)) && Expand(ZeroOp(HLL_REGISTERS)) == Empty()
  {
    ExpandOne(ZeroOp(HLL_REGISTERS));
  }

  lemma EmptySums()
    ensures Sum(Empty()) == HLL_REGISTERS as real && Zeros(Empty()) == HLL_REGISTERS
  {
    hide Sum, Zeros;
    var none: Registers := [];
    assert none[..0] == none;
    SumStart(none);
    SumRun(none, 0, HLL_REGISTERS);
    assert none + Repeat(0, HLL_REGISTERS) == Empty();
  }

  lemma {:induction false} SparseBound(s: seq<byte>)
    requires WellFormed(s)
    ensures forall j :: 0 <= j < |Expand(s)| ==> Expand(s)[j] <= HLL_SPARSE_VAL_MAX_VALUE
    decreases |s|
  {
    if s != [] {
      SparseBound(s[OpLen(s[0])..]);
    }
  }

  /** The maximum of several values, from the first on. */
  function JoinAll(start: Registers, values: seq<Registers>): (r: Registers)
    requires |start| == HLL_REGISTERS && forall i :: 0 <= i < |values| ==> |values[i]| == HLL_REGISTERS
    ensures |r| == HLL_REGISTERS
    decreases |values|
  {
    if values == [] then start else Join(JoinAll(start, values[..|values| - 1]), values[|values| - 1])
  }

  lemma JoinAllPush(start: Registers, values: seq<Registers>, v: Registers)
    requires |start| == HLL_REGISTERS && |v| == HLL_REGISTERS
    requires forall i :: 0 <= i < |values| ==> |values[i]| == HLL_REGISTERS
    ensures JoinAll(start, values + [v]) == Join(JoinAll(start, values), v)
  {
    assert (values + [v])[..|values|] == values;
  }

  lemma AddAllPush(regs: Registers, hashes: seq<Word>, h: Word)
    requires |regs| == HLL_REGISTERS
    ensures AddAll(regs, hashes + [h]) == Raise(AddAll(regs, hashes), Index(h), Count(h))
  {
    assert (hashes + [h])[..|hashes|] == hashes;
  }

  /** Every register fits six bits. */
  predicate Fit(r: Registers) {
    forall i :: 0 <= i < |r| ==> r[i] <= HLL_REGISTER_MAX
  }

  predicate Above(a: Registers, b: Registers) {
    |a| == |b| && forall i :: 0 <= i < |a| ==> a[i] >= b[i]
  }

  lemma RaiseAbove(regs: Registers, base: Registers, i: nat, c: nat)
    requires i < |regs| && Above(regs, base)
    ensures Above(Raise(regs, i, c), base)
    ensures Raise(regs, i, c) == base <==> Raise(regs, i, c) == regs && regs == base
  {
  }

  /** PFADD and PFCOUNT. The threshold for promotion is a server setting that may change at any time. */
  datatype Command = PfAdd(elements: seq<Element>, maxBytes: int) | PfCount

  function Next(hash: Element -> Word, regs: Registers, cmd: Command): (r: Registers)
    requires |regs| == HLL_REGISTERS
    ensures |r| == HLL_REGISTERS
  {
    if cmd.PfAdd? then AddAll(regs, Hashes(hash, cmd.elements)) else regs
  }

  /** What a user sees. Neither encodings, nor thresholds, nor the cache take part. */
  function Reply(hash: Element -> Word, estimate: (real, nat) -> Word, regs: Registers, cmd: Command): Word
    requires |regs| == HLL_REGISTERS
  {
    match cmd
    case PfAdd(_, _) => if Next(hash, regs, cmd) == regs then 0 else 1
    case PfCount => estimate(Sum(regs), Zeros(regs))
  }

  function Replies(hash: Element -> Word, estimate: (real, nat) -> Word, regs: Registers,
                   cmds: seq<Command>): (r: seq<Word>)
    requires |regs| == HLL_REGISTERS
    decreases |cmds|
  {
    if cmds == [] then []
    else [Reply(hash, estimate, regs, cmds[0])] + Replies(hash, estimate, Next(hash, regs, cmds[0]), cmds[1..])
  }

  /** The hashes of all elements that some commands add. */
  ghost function Added(hash: Element -> Word, cmds: seq<Command>): set<Word> {
    set c, e | c in cmds && c.PfAdd? && e in c.elements :: hash(e)
  }

  lemma AddedAppend(hash: Element -> Word, a: seq<Command>, b: seq<Command>)
    ensures Added(hash, a + b) == Added(hash, a) + Added(hash, b)
  {
  }

  lemma AddedOne(hash: Element -> Word, cmd: Command)
    ensures Added(hash, [cmd]) == if cmd.PfAdd? then Elements(Hashes(hash, cmd.elements)) else {}
  {
    if cmd.PfAdd? {
      HashesOfSet(hash, cmd.elements);
      assert cmd in [cmd];
    }
  }

  lemma NextRepresents(hash: Element -> Word, regs: Registers, seen: set<Word>, cmd: Command)
    requires Represents(regs, seen)
    ensures Represents(Next(hash, regs, cmd), seen + Added(hash, [cmd]))
  {
    hide Represents, AddAll, Added;
    RepresentsLength(regs, seen);
    AddedOne(hash, cmd);
    if cmd.PfAdd? {
      AddAllRepresents(regs, seen, Hashes(hash, cmd.elements));
    } else {
      assert seen + {} == seen;
    }
  }

  lemma RepresentsLength(regs: Registers, seen: set<Word>)
    requires Represents(regs, seen)
    ensures |regs| == HLL_REGISTERS
  {
  }

  /**
   The replies, in terms of what has been added before: PFCOUNT returns the estimate of the registers `at` that stand
   for all of it, and PFADD returns 0 exactly when they stand for what it adds as well.
   */
  lemma {:induction false} RepliesMeaning(hash: Element -> Word, estimate: (real, nat) -> Word, regs: Registers,
                                          seen: set<Word>, cmds: seq<Command>, i: nat, at: Registers)
    requires Represents(regs, seen) && i < |cmds| && Represents(at, seen + Added(hash, cmds[..i]))
    ensures var replies := Replies(hash, estimate, regs, cmds);
            && |replies| > i
            && replies[i] == match cmds[i]
                             case PfCount => estimate(Sum(at), Zeros(at))
                             case PfAdd(_, _) => if Represents(at, seen + Added(hash, cmds[..i + 1])) then 0 else 1
    decreases |cmds|
  {
    hide Represents, Added, Sum, Zeros, Next;
    RepresentsLength(regs, seen);
    var next, more := Next(hash, regs, cmds[0]), seen + Added(hash, [cmds[0]]);
    NextRepresents(hash, regs, seen, cmds[0]);
    if i == 0 {
      NothingAdded(hash);
      assert cmds[..0] == [] && seen + {} == seen;
      RepresentsUnique(at, regs, seen);
      assert cmds[..1] == [cmds[0]];
      if Represents(at, more) {
        RepresentsUnique(at, next, more);
      }
    } else {
      AddedFrom(hash, seen, cmds, i);
      AddedFrom(hash, seen, cmds, i + 1);
      RepliesMeaning(hash, estimate, next, more, cmds[1..], i - 1, at);
    }
  }

  lemma NothingAdded(hash: Element -> Word)
    ensures Added(hash, []) == {}
  {
  }

  lemma AddedFrom(hash: Element -> Word, seen: set<Word>, cmds: seq<Command>, i: nat)
    requires 1 <= i <= |cmds|
    ensures seen + Added(hash, cmds[..i]) == seen + Added(hash, [cmds[0]]) + Added(hash, cmds[1..][..i - 1])
  {
    hide Added;
    assert cmds[..i] == [cmds[0]] + cmds[1..][..i - 1];
    AddedAppend(hash, [cmds[0]], cmds[1..][..i - 1]);
  }

  // ----- The object -----

  datatype Encoding = Dense | Sparse

  /** The top bit of the eight bytes of the cached cardinality says that the cache is stale. */
  const HLL_STALE := 0x8000_0000_0000_0000

  class HLL {
    const hash: Element -> Word
    const estimate: (real, nat) -> Word
    var encoding: Encoding
    var card: Word
    var registers: seq<byte>

    /** The value behind either encoding. */
    ghost function Regs(): (r: Registers)
      requires Shape()
      reads `encoding, `registers
      ensures |r| == HLL_REGISTERS
    {
      if encoding == Dense then DenseRegs(registers) else Expand(registers)
    }

    ghost predicate Shape()
      reads `encoding, `registers
    {
      if encoding == Dense then IsDense(registers)
      else WellFormed(registers) && |Expand(registers)| == HLL_REGISTERS
    }

    /** What hllCount returns for these registers. */
    ghost function Cardinality(regs: Registers): Word
    {
      estimate(Sum(regs), Zeros(regs))
    }

    /** A cached cardinality that claims to be valid is that of the current registers. */
    ghost predicate Valid()
      reads this
    {
      Shape() && (card < HLL_STALE ==> card == Cardinality(Regs()))
    }

    /** createHLLObject: one XZERO opcode over all registers, cached cardinality 0. */
    constructor (hash: Element -> Word, estimate: (real, nat) -> Word)
      requires estimate(HLL_REGISTERS as real, HLL_REGISTERS) == 0
      ensures this.hash == hash && this.estimate == estimate
      ensures Valid() && encoding == Sparse && Regs() == Empty()
    {
      hide Sum, Zeros, WellFormed, Expand;
      EmptyShape();
      EmptySums();
      this.hash, this.estimate := hash, estimate;
      encoding, card, registers := Sparse, 0, ZeroOp(HLL_REGISTERS);
    }

    /** hllAdd. The cached cardinality may go stale here, and then PfAdd marks it. */
    method Add(h: Word, maxBytes: int) returns (ret: int)
      requires Shape()
      modifies `encoding, `card, `registers
      ensures Shape() && Regs() == Raise(old(Regs()), Index(h), Count(h))
      ensures ret == if Regs() == old(Regs()) then 0 else 1
      ensures card == old(card) || card >= HLL_STALE
      ensures encoding == Dense && old(encoding) == Sparse ==>
        Count(h) > HLL_SPARSE_VAL_MAX_VALUE || HLL_HDR_SIZE + |old(registers)| + 3 > maxBytes
      ensures old(encoding) == Dense ==> encoding == Dense
      ensures ret == 0 ==> encoding == old(encoding) && registers == old(registers) && card == old(card)
    {
      hide DenseRegs, WellFormed, Expand, IsDense, Index, Count;
      match encoding
      case Dense =>
        registers, ret := DenseAdd(registers, h);
      case Sparse =>
        ret := SparseAdd(h, maxBytes);
    }

    /** hllSparseAdd. */
    method SparseAdd(h: Word, maxBytes: int) returns (ret: int)
      requires Shape() && encoding == Sparse
      modifies `encoding, `card, `registers
      ensures Shape() && Regs() == Raise(old(Regs()), Index(h), Count(h))
      ensures ret == if Regs() == old(Regs()) then 0 else 1
      ensures card == old(card) || card >= HLL_STALE
      ensures encoding == Dense ==> Count(h) > HLL_SPARSE_VAL_MAX_VALUE || HLL_HDR_SIZE + |old(registers)| + 3 > maxBytes
      ensures ret == 0 ==> encoding == old(encoding) && registers == old(registers) && card == old(card)
    {
      hide DenseRegs, WellFormed, Expand, IsDense, Index, Count;
      CountBound(h);
      SparseBound(registers);
      var count, index := PatLen(h);
      if count <= HLL_SPARSE_VAL_MAX_VALUE {
        var e := SparseUpdate(registers, index, count, maxBytes);
        match e
        case Keep =>
          return 0;
        case Replace(bytes) =>
          registers := bytes;
          card := if card < HLL_STALE then card + HLL_STALE else card;
          return 1;
        case Promote =>
      }
      ret := Promotion(h);
    }

    /** The promotion at the end of hllSparseAdd, with the assertion of line 880. */
    method Promotion(h: Word) returns (ret: int)
      requires Shape() && encoding == Sparse && Regs()[Index(h)] < Count(h)
      modifies `encoding, `registers
      ensures Shape() && encoding == Dense && Regs() == Raise(old(Regs()), Index(h), Count(h))
      ensures ret == 1 && Regs() != old(Regs())
    {
      hide DenseRegs, WellFormed, Expand, IsDense, Index, Count;
      var ok, dense := ToDense(registers);
      if !ok {
        return -1;
      }
      encoding := Dense;
      registers, ret := DenseAdd(dense, h);
      assert ret == 1;
    }

    /** pfaddCommand on an existing key. */
    method Extend(elements: seq<Element>, maxBytes: int) returns (updated: bool)
      requires Valid()
      modifies `encoding, `card, `registers
      ensures Valid() && Regs() == AddAll(old(Regs()), Hashes(hash, elements))
      ensures updated <==> Regs() != old(Regs())
    {
      hide DenseRegs, WellFormed, Expand, IsDense, Index, Count, Raise, AddAll, Sum, Zeros;
      updated := false;
      ghost var base := Regs();
      var j := 0;
      assert Hashes(hash, elements)[..0] == [];
      AddNone(base);
      while j < |elements|
        invariant 0 <= j <= |elements| && Shape() && Above(Regs(), base)
        invariant Regs() == AddAll(base, Hashes(hash, elements)[..j])
        invariant updated <==> Regs() != base
        invariant card == old(card) || card >= HLL_STALE
      {
        ghost var before := Regs();
        var h := hash(elements[j]);
        RaiseAbove(before, base, Index(h), Count(h));
        AddAllPush(base, Hashes(hash, elements)[..j], h);
        assert Hashes(hash, elements)[..j + 1] == Hashes(hash, elements)[..j] + [h];
        var retval := Add(h, maxBytes);
        if retval == 1 {
          updated := true;
        }
        j := j + 1;
      }
      assert Hashes(hash, elements)[..j] == Hashes(hash, elements);
      if updated {
        card := if card < HLL_STALE then card + HLL_STALE else card;
      }
    }

    /** hllCount, through the sum of the encoding at hand. */
    method Recount() returns (c: Word)
      requires Shape()
      ensures c == Cardinality(Regs())
    {
      hide DenseRegs, WellFormed, Expand, IsDense, Sum, Zeros, IsTable;
      var pe := PowerTable();
      var e: real, ez: nat;
      if encoding == Dense {
        e, ez := DenseSum(registers, pe);
      } else {
        var invalid: bool;
        e, ez, invalid := SparseSum(registers, pe);
        assert !invalid;
      }
      c := estimate(e, ez);
    }

    /** pfcountCommand for one key: the cached value if it is valid, and otherwise a fresh one that is cached. */
    method Query() returns (c: Word)
      requires Valid()
      modifies `card
      ensures Valid() && c == Cardinality(Regs())
    {
      hide DenseRegs, WellFormed, Expand, IsDense, Sum, Zeros;
      if card < HLL_STALE {
        c := card;
      } else {
        c := Recount();
        card := c;
      }
    }

    method Execute(cmd: Command) returns (reply: Word)
      requires Valid()
      modifies `encoding, `card, `registers
      ensures Valid() && Regs() == Next(hash, old(Regs()), cmd)
      ensures reply == Reply(hash, estimate, old(Regs()), cmd)
    {
      hide Valid, Shape, Regs, AddAll, Sum, Zeros, Hashes;
      RegsLength();
      match cmd
      case PfAdd(elements, maxBytes) =>
        var updated := Extend(elements, maxBytes);
        reply := if updated then 1 else 0;
      case PfCount =>
        reply := Query();
    }

    /** Every run of commands on a key: all replies are those of the registers alone. */
    method Run(cmds: seq<Command>) returns (replies: seq<Word>)
      requires Valid()
      modifies `encoding, `card, `registers
      ensures Valid() && replies == Replies(hash, estimate, old(Regs()), cmds)
    {
      hide Next, Reply, Replies, Valid, Shape, Regs;
      RegsLength();
      replies := [];
      ghost var start := Regs();
      var i := 0;
      assert cmds[0..] == cmds;
      while i < |cmds|
        invariant 0 <= i <= |cmds| && Valid() && Shape()
        invariant replies + Replies(hash, estimate, Regs(), cmds[i..]) == Replies(hash, estimate, start, cmds)
      {
        RepliesNext(hash, estimate, Regs(), cmds, i);
        ghost var before := replies;
        var reply := Execute(cmds[i]);
        RegsLength();
        replies := replies + [reply];
        i := i + 1;
        assert before + ([reply] + Replies(hash, estimate, Regs(), cmds[i..]))
               == replies + Replies(hash, estimate, Regs(), cmds[i..]);
      }
      RepliesEnd(hash, estimate, Regs(), cmds);
    }

    /** hyperloglog.c lines 1324-1335: the object made dense, all its registers written, the cache invalidated. */
    method Overwrite(max: array<nat>)
      requires Shape() && max.Length == HLL_REGISTERS && Fit(max[..])
      modifies `encoding, `card, `registers
      ensures Valid() && encoding == Dense && Regs() == max[..]
    {
      hide DenseGet, DenseSet, WellFormed, Expand, IsDense;
      if encoding == Sparse {
        var ok, dense := ToDense(registers);
        if !ok {
          assert false;
        }
        encoding, registers := Dense, dense;
      }
      var j := 0;
      while j < HLL_REGISTERS
        invariant 0 <= j <= HLL_REGISTERS && IsDense(registers) && encoding == Dense
        invariant forall i :: 0 <= i < j ==> DenseGet(registers, i) == max[i]
      {
        ghost var before := registers;
        registers := DenseSet(registers, j, max[j]);
        forall i | 0 <= i <= j
          ensures DenseGet(registers, i) == max[i]
        {
          DenseSetGet(before, j, max[j], i);
        }
        j := j + 1;
      }
      card := if card < HLL_STALE then card + HLL_STALE else card;
      assert Regs() == max[..];
    }

    lemma RegsFit()
      requires Shape()
      ensures Fit(Regs())
    {
      if encoding == Sparse {
        SparseBound(registers);
      }
    }

    lemma RegsLength()
      requires Valid()
      ensures Shape() && |Regs()| == HLL_REGISTERS
    {
    }

    /** hllMerge into an array of one register a byte. False stands for REDIS_ERR. */
    method MergeInto(max: array<nat>) returns (ok: bool)
      requires Shape() && max.Length == HLL_REGISTERS
      modifies max
      ensures ok && max[..] == Join(old(max[..]), Regs())
    {
      hide WellFormed, Expand, IsDense, DenseGet, Repeat, Span, OpValue;
      if encoding == Dense {
        var i := 0;
        while i < HLL_REGISTERS
          invariant 0 <= i <= HLL_REGISTERS
          invariant forall j :: 0 <= j < HLL_REGISTERS ==>
            max[j] == if j < i then Max(old(max[j]), DenseRegs(registers)[j]) else old(max[j])
        {
          var val := DenseGet(registers, i);
          if val > max[i] {
            max[i] := val;
          }
          i := i + 1;
        }
        ok := true;
      } else {
        ok := MergeSparse(registers, max);
      }
      assert max[..] == Join(old(max[..]), Regs());
    }
  }

  /** pfmergeCommand on an existing destination, which is the first source; sources may repeat it. */
  method Merge(dest: HLL, sources: seq<HLL>)
    requires dest.Shape() && forall k :: 0 <= k < |sources| ==> sources[k].Shape()
    modifies dest`encoding, dest`card, dest`registers
    ensures dest.Valid() && dest.encoding == Dense
    ensures dest.Regs() == old(JoinAll(dest.Regs(), Values(sources)))
  {
    hide HLL.Shape, HLL.Regs, JoinAll, DenseRegs, WellFormed, Expand, IsDense;
    var max := new nat[HLL_REGISTERS](_ => 0);
    var joined := MergeAll(dest, sources, max);
    dest.Overwrite(max);
  }

  /** pfcountCommand on several keys: the merged registers are counted as they are, one a byte. */
  method CountUnion(first: HLL, others: seq<HLL>) returns (card: Word)
    requires first.Shape() && forall k :: 0 <= k < |others| ==> others[k].Shape()
    ensures card == first.Cardinality(JoinAll(first.Regs(), Values(others)))
  {
    hide HLL.Shape, HLL.Regs, JoinAll, DenseRegs, WellFormed, Expand, IsDense, Sum, Zeros;
    var max := new nat[HLL_REGISTERS](_ => 0);
    var joined := MergeAll(first, others, max);
    var pe := PowerTable();
    var e, ez := RawSum(max[..], pe);
    card := first.estimate(e, ez);
  }

  method MergeSparse(s: seq<byte>, max: array<nat>) returns (ok: bool)
    requires WellFormed(s) && |Expand(s)| == HLL_REGISTERS && max.Length == HLL_REGISTERS
    modifies max
    ensures ok && forall j :: 0 <= j < HLL_REGISTERS ==> max[j] == Max(old(max[j]), Expand(s)[j])
  {
    hide WellFormed, Expand, Span, OpValue;
    CutStart(s);
    var i, p := 0, 0;
    while p < |s|
      invariant Cut(s, p) && i == |Expand(s[..p])|
      invariant forall j :: 0 <= j < HLL_REGISTERS ==>
        max[j] == if j < i then Max(old(max[j]), Expand(s)[j]) else old(max[j])
      decreases |s| - p
    {
      hide Cut, Repeat;
      CutNext(s, p);
      CutPrefix(s, p + OpLen(s[p]));
      CutExpand(s, p);
      RunAt(s, p);
      var runlen := Span(s[p..]);
      if IsZero(s[p]) {
        ZeroValue(s[p]);
        i := i + runlen;
        p := p + 1;
      } else if IsXZero(s[p]) {
        ZeroValue(s[p]);
        i := i + runlen;
        p := p + 2;
      } else {
        MergeRun(max, i, runlen, OpValue(s[p]));
        i := i + runlen;
        p := p + 1;
      }
    }
    CutEnd(s);
    ok := i == HLL_REGISTERS;
  }

  lemma RunAt(s: seq<byte>, p: nat)
    requires Cut(s, p) && p < |s| && WellFormed(s)
    ensures |Expand(s[..p])| + Span(s[p..]) <= |Expand(s)|
    ensures forall j :: |Expand(s[..p])| <= j < |Expand(s[..p])| + Span(s[p..]) ==> Expand(s)[j] == OpValue(s[p])
  {
    hide WellFormed, Expand, Span, OpValue;
    CutNext(s, p);
  }

  method MergeRun(max: array<nat>, start: nat, runlen: nat, regval: nat)
    requires max.Length == HLL_REGISTERS && start + runlen <= HLL_REGISTERS
    modifies max
    ensures forall j :: 0 <= j < HLL_REGISTERS ==>
      max[j] == if start <= j < start + runlen then Max(old(max[j]), regval) else old(max[j])
  {
    var i, left := start, runlen;
    while left > 0
      invariant start <= i && i + left == start + runlen
      invariant forall j :: 0 <= j < HLL_REGISTERS ==>
        max[j] == if start <= j < i then Max(old(max[j]), regval) else old(max[j])
    {
      left := left - 1;
      if regval > max[i] {
        max[i] := regval;
      }
      i := i + 1;
    }
  }

  ghost function Values(hlls: seq<HLL>): (v: seq<Registers>)
    requires forall k :: 0 <= k < |hlls| ==> hlls[k].Shape()
    reads set k | 0 <= k < |hlls| :: hlls[k]
    ensures |v| == |hlls| && forall k :: 0 <= k < |hlls| ==> v[k] == hlls[k].Regs()
  {
    seq(|hlls|, k requires 0 <= k < |hlls| && hlls[k].Shape() reads set k | 0 <= k < |hlls| :: hlls[k] => hlls[k].Regs())
  }

  /** The loop that pfmergeCommand and pfcountCommand share, on an array of zeros. */
  method MergeAll(first: HLL, others: seq<HLL>, max: array<nat>) returns (ok: bool)
    requires first.Shape() && forall k :: 0 <= k < |others| ==> others[k].Shape()
    requires max[..] == Empty()
    modifies max
    ensures ok && max[..] == JoinAll(first.Regs(), Values(others)) && Fit(max[..])
  {
    hide HLL.Shape, HLL.Regs, JoinAll, Fit;
    ok := first.MergeInto(max);
    JoinEmpty(first.Regs());
    first.RegsFit();
    var j := 0;
    while j < |others|
      invariant 0 <= j <= |others| && ok && max.Length == HLL_REGISTERS
      invariant max[..] == JoinAll(first.Regs(), Values(others)[..j]) && Fit(max[..])
    {
      JoinAllPush(first.Regs(), Values(others)[..j], others[j].Regs());
      assert Values(others)[..j + 1] == Values(others)[..j] + [others[j].Regs()];
      others[j].RegsFit();
      FitJoin(max[..], others[j].Regs());
      ok := others[j].MergeInto(max);
      j := j + 1;
    }
    assert Values(others)[..j] == Values(others);
  }

  lemma FitJoin(a: Registers, b: Registers)
    requires |a| == |b| && Fit(a) && Fit(b)
    ensures Fit(Join(a, b))
  {
  }

  lemma JoinEmpty(r: Registers)
    requires |r| == HLL_REGISTERS
    ensures Join(Empty(), r) == r && JoinAll(r, []) == r
  {
  }

  lemma AddNone(regs: Registers)
    requires |regs| == HLL_REGISTERS
    ensures AddAll(regs, []) == regs
  {
  }

  lemma RepliesNext(hash: Element -> Word, estimate: (real, nat) -> Word, regs: Registers, cmds: seq<Command>, i: nat)
    requires |regs| == HLL_REGISTERS && i < |cmds|
    ensures Replies(hash, estimate, regs, cmds[i..])
            == [Reply(hash, estimate, regs, cmds[i])] + Replies(hash, estimate, Next(hash, regs, cmds[i]),
                                                                cmds[i + 1..])
  {
    hide Next, Reply;
    assert cmds[i..][1..] == cmds[i + 1..];
  }

  lemma RepliesEnd(hash: Element -> Word, estimate: (real, nat) -> Word, regs: Registers, cmds: seq<Command>)
    requires |regs| == HLL_REGISTERS
    ensures Replies(hash, estimate, regs, cmds[|cmds|..]) == []
  {
  }
}
