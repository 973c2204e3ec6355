/**
 Bit counting, bit search and bitwise operations on strings (bitops.c). Bytes are bit vectors; words are what a
 little endian host loads from them.
 */
module Bitops {
  import opened Tables

  // ----- Bits of a byte -----

  /** The number of ones in a byte. */
  function Ones(b: bv8): nat {
    (if b & 0x01 != 0 then 1 else 0) + (if b & 0x02 != 0 then 1 else 0)
    + (if b & 0x04 != 0 then 1 else 0) + (if b & 0x08 != 0 then 1 else 0)
    + (if b & 0x10 != 0 then 1 else 0) + (if b & 0x20 != 0 then 1 else 0)
    + (if b & 0x40 != 0 then 1 else 0) + (if b & 0x80 != 0 then 1 else 0)
  }

  /** The number of ones in a string. */
  function Popcount(s: seq<bv8>): nat
    decreases |s|
  {
    if s == [] then 0 else Popcount(s[..|s| - 1]) + Ones(s[|s| - 1])
  }

  function Row0(l: bv8): nat { Pick(l, 0, 1, 1, 2, 1, 2, 2, 3, 1, 2, 2, 3, 2, 3, 3, 4) }

  function Row1(l: bv8): nat { Pick(l, 1, 2, 2, 3, 2, 3, 3, 4, 2, 3, 3, 4, 3, 4, 4, 5) }

  function Row2(l: bv8): nat { Pick(l, 1, 2, 2, 3, 2, 3, 3, 4, 2, 3, 3, 4, 3, 4, 4, 5) }

  function Row3(l: bv8): nat { Pick(l, 2, 3, 3, 4, 3, 4, 4, 5, 3, 4, 4, 5, 4, 5, 5, 6) }

  function Row4(l: bv8): nat { Pick(l, 1, 2, 2, 3, 2, 3, 3, 4, 2, 3, 3, 4, 3, 4, 4, 5) }

  function Row5(l: bv8): nat { Pick(l, 2, 3, 3, 4, 3, 4, 4, 5, 3, 4, 4, 5, 4, 5, 5, 6) }

  function Row6(l: bv8): nat { Pick(l, 2, 3, 3, 4, 3, 4, 4, 5, 3, 4, 4, 5, 4, 5, 5, 6) }

  function Row7(l: bv8): nat { Pick(l, 3, 4, 4, 5, 4, 5, 5, 6, 4, 5, 5, 6, 5, 6, 6, 7) }

  function Row8(l: bv8): nat { Pick(l, 1, 2, 2, 3, 2, 3, 3, 4, 2, 3, 3, 4, 3, 4, 4, 5) }

  function Row9(l: bv8): nat { Pick(l, 2, 3, 3, 4, 3, 4, 4, 5, 3, 4, 4, 5, 4, 5, 5, 6) }

  function Row10(l: bv8): nat { Pick(l, 2, 3, 3, 4, 3, 4, 4, 5, 3, 4, 4, 5, 4, 5, 5, 6) }

  function Row11(l: bv8): nat { Pick(l, 3, 4, 4, 5, 4, 5, 5, 6, 4, 5, 5, 6, 5, 6, 6, 7) }

  function Row12(l: bv8): nat { Pick(l, 2, 3, 3, 4, 3, 4, 4, 5, 3, 4, 4, 5, 4, 5, 5, 6) }

  function Row13(l: bv8): nat { Pick(l, 3, 4, 4, 5, 4, 5, 5, 6, 4, 5, 5, 6, 5, 6, 6, 7) }

  function Row14(l: bv8): nat { Pick(l, 3, 4, 4, 5, 4, 5, 5, 6, 4, 5, 5, 6, 5, 6, 6, 7) }

  function Row15(l: bv8): nat { Pick(l, 4, 5, 5, 6, 5, 6, 6, 7, 5, 6, 6, 7, 6, 7, 7, 8) }

  /** bitsinbyte. */
  function BitsInByte(b: bv8): nat {
    Pick(b >> 4, Row0(b & 15), Row1(b & 15), Row2(b & 15), Row3(b & 15), Row4(b & 15), Row5(b & 15), Row6(b & 15),
         Row7(b & 15), Row8(b & 15), Row9(b & 15), Row10(b & 15), Row11(b & 15),
         Row12(b & 15), Row13(b & 15), Row14(b & 15), Row15(b & 15))
  }

  lemma LowRows(i: bv8)
    ensures i >> 4 == 0 ==> Row0(i & 15) == Ones(i)
    ensures i >> 4 == 1 ==> Row1(i & 15) == Ones(i)
    ensures i >> 4 == 2 ==> Row2(i & 15) == Ones(i)
    ensures i >> 4 == 3 ==> Row3(i & 15) == Ones(i)
    ensures i >> 4 == 4 ==> Row4(i & 15) == Ones(i)
    ensures i >> 4 == 5 ==> Row5(i & 15) == Ones(i)
    ensures i >> 4 == 6 ==> Row6(i & 15) == Ones(i)
    ensures i >> 4 == 7 ==> Row7(i & 15) == Ones(i)
  {
  }

  lemma HighRows(i: bv8)
    ensures i >> 4 == 8 ==> Row8(i & 15) == Ones(i)
    ensures i >> 4 == 9 ==> Row9(i & 15) == Ones(i)
    ensures i >> 4 == 10 ==> Row10(i & 15) == Ones(i)
    ensures i >> 4 == 11 ==> Row11(i & 15) == Ones(i)
    ensures i >> 4 == 12 ==> Row12(i & 15) == Ones(i)
    ensures i >> 4 == 13 ==> Row13(i & 15) == Ones(i)
    ensures i >> 4 == 14 ==> Row14(i & 15) == Ones(i)
    ensures i >> 4 == 15 ==> Row15(i & 15) == Ones(i)
  {
  }

  /** Every entry of the table counts the ones of its index. */
  lemma TableCounts(i: bv8)
    ensures BitsInByte(i) == Ones(i)
  {
    hide Ones, Pick, Row0, Row1, Row2, Row3, Row4, Row5, Row6, Row7, Row8, Row9, Row10, Row11, Row12, Row13, Row14, Row15;
    LowRows(i);
    HighRows(i);
    PickRight(i >> 4, Ones(i), Row0(i & 15), Row1(i & 15), Row2(i & 15), Row3(i & 15), Row4(i & 15), Row5(i & 15),
              Row6(i & 15), Row7(i & 15), Row8(i & 15), Row9(i & 15), Row10(i & 15),
              Row11(i & 15), Row12(i & 15), Row13(i & 15), Row14(i & 15), Row15(i & 15));
  }

  // ----- Counting in parallel -----

  function Lanes(a: bv32, b: bv32, c: bv32, d: bv32): bv32 { a | (b << 8) | (c << 16) | (d << 24) }

  function Pairs(x: bv32): bv32 { x - ((x >> 1) & 0x55555555) }

  function Nibbles(x: bv32): bv32 { (x & 0x33333333) + ((x >> 2) & 0x33333333) }

  function Octets(x: bv32): bv32 { (x + (x >> 4)) & 0x0f0f0f0f }

  function Gather(x: bv32): bv32 { (x * 0x01010101) >> 24 }

  /** The steps on one word of the loop over sixteen bytes. */
  function Swar(x: bv32): bv32 { Gather(Octets(Nibbles(Pairs(x)))) }

  function EvenBits(x: bv32): bv32 { x & 0x55555555 }

  function OddBits(x: bv32): bv32 { (x >> 1) & 0x55555555 }

  function Even1(a: bv32): bv32 { a & 0x55 }

  function Odd1(a: bv32): bv32 { (a >> 1) & 0x55 }

  function Plus(x: bv32, y: bv32): bv32 { x + y }

  lemma PairsIsSum(x: bv32)
    ensures Pairs(x) == Plus(EvenBits(x), OddBits(x))
  {
  }

  lemma LanesAdd(a: bv32, b: bv32, c: bv32, d: bv32, e: bv32, f: bv32, g: bv32, h: bv32)
    requires a < 128 && b < 128 && c < 128 && d < 128 && e < 128 && f < 128 && g < 128 && h < 128
    ensures Lanes(a, b, c, d) + Lanes(e, f, g, h) == Lanes(a + e, b + f, c + g, d + h)
  {
  }

  lemma LanesPlus(a: bv32, b: bv32, c: bv32, d: bv32, e: bv32, f: bv32, g: bv32, h: bv32)
    requires a < 128 && b < 128 && c < 128 && d < 128 && e < 128 && f < 128 && g < 128 && h < 128
    ensures Plus(Lanes(a, b, c, d), Lanes(e, f, g, h)) == Lanes(Plus(a, e), Plus(b, f), Plus(c, g), Plus(d, h))
  {
    hide Lanes;
    LanesAdd(a, b, c, d, e, f, g, h);
  }

  lemma MaskPairs(a: bv32, b: bv32, c: bv32, d: bv32)
    requires a < 256 && b < 256 && c < 256 && d < 256
    ensures EvenBits(Lanes(a, b, c, d)) == Lanes(Even1(a), Even1(b), Even1(c), Even1(d))
    ensures OddBits(Lanes(a, b, c, d)) == Lanes(Odd1(a), Odd1(b), Odd1(c), Odd1(d))
  {
  }

  lemma MaskNibbles(a: bv32, b: bv32, c: bv32, d: bv32)
    requires a < 256 && b < 256 && c < 256 && d < 256
    ensures Lanes(a, b, c, d) & 0x33333333 == Lanes(a & 0x33, b & 0x33, c & 0x33, d & 0x33)
    ensures (Lanes(a, b, c, d) >> 2) & 0x33333333
            == Lanes((a >> 2) & 0x33, (b >> 2) & 0x33, (c >> 2) & 0x33, (d >> 2) & 0x33)
  {
  }

  lemma MaskBytes(a: bv32, b: bv32, c: bv32, d: bv32)
    requires a < 256 && b < 256 && c < 256 && d < 256
    ensures Lanes(a, b, c, d) & 0x0f0f0f0f == Lanes(a & 0x0f, b & 0x0f, c & 0x0f, d & 0x0f)
    ensures (Lanes(a, b, c, d) >> 4) & 0x0f0f0f0f
            == Lanes((a >> 4) & 0x0f, (b >> 4) & 0x0f, (c >> 4) & 0x0f, (d >> 4) & 0x0f)
  {
  }

  lemma NoCarry(x: bv32)
    requires x & 0x88888888 == 0
    ensures Octets(x) == (x & 0x0f0f0f0f) + ((x >> 4) & 0x0f0f0f0f)
  {
  }

  function Add4(a: bv32, b: bv32, c: bv32, d: bv32): bv32 { a + b + c + d }

  lemma SumLanes(a: bv32, b: bv32, c: bv32, d: bv32)
    requires a < 16 && b < 16 && c < 16 && d < 16
    ensures Gather(Lanes(a, b, c, d)) == Add4(a, b, c, d)
  {
  }

  function Pairs1(a: bv32): bv32 { Plus(Even1(a), Odd1(a)) }

  lemma HalvesSmall(a: bv32)
    ensures Even1(a) < 128 && Odd1(a) < 128
  {
  }

  function Nibbles1(a: bv32): bv32 { (a & 0x33) + ((a >> 2) & 0x33) }

  function Byte1(a: bv32): bv32 { (a & 0x0f) + ((a >> 4) & 0x0f) }

  lemma PairsLanes(a: bv32, b: bv32, c: bv32, d: bv32)
    requires a < 256 && b < 256 && c < 256 && d < 256
    ensures Pairs(Lanes(a, b, c, d)) == Lanes(Pairs1(a), Pairs1(b), Pairs1(c), Pairs1(d))
  {
    hide Pairs, Lanes, EvenBits, OddBits, Even1, Odd1, Plus;
    PairsIsSum(Lanes(a, b, c, d));
    MaskPairs(a, b, c, d);
    HalvesSmall(a);
    HalvesSmall(b);
    HalvesSmall(c);
    HalvesSmall(d);
    LanesPlus(Even1(a), Even1(b), Even1(c), Even1(d), Odd1(a), Odd1(b), Odd1(c), Odd1(d));
  }

  lemma NibblesLanes(a: bv32, b: bv32, c: bv32, d: bv32)
    requires a < 256 && b < 256 && c < 256 && d < 256
    ensures Nibbles(Lanes(a, b, c, d)) == Lanes(Nibbles1(a), Nibbles1(b), Nibbles1(c), Nibbles1(d))
  {
    hide Lanes;
    MaskNibbles(a, b, c, d);
    LanesAdd(a & 0x33, b & 0x33, c & 0x33, d & 0x33, (a >> 2) & 0x33, (b >> 2) & 0x33, (c >> 2) & 0x33,
             (d >> 2) & 0x33);
  }

  lemma HighBitsClear(a: bv32, b: bv32, c: bv32, d: bv32)
    requires a & 0x88 == 0 && b & 0x88 == 0 && c & 0x88 == 0 && d & 0x88 == 0
    requires a < 256 && b < 256 && c < 256 && d < 256
    ensures Lanes(a, b, c, d) & 0x88888888 == 0
  {
  }

  lemma Byte1Small(a: bv32)
    ensures Byte1(a) < 32 && (a & 0x88 == 0 ==> Byte1(a) < 16)
    ensures a & 0x0f < 128 && (a >> 4) & 0x0f < 128
  {
  }

  lemma OctetsLanes(a: bv32, b: bv32, c: bv32, d: bv32)
    requires a & 0x88 == 0 && b & 0x88 == 0 && c & 0x88 == 0 && d & 0x88 == 0
    requires a < 256 && b < 256 && c < 256 && d < 256
    ensures Octets(Lanes(a, b, c, d)) == Lanes(Byte1(a), Byte1(b), Byte1(c), Byte1(d))
    ensures Byte1(a) < 16 && Byte1(b) < 16 && Byte1(c) < 16 && Byte1(d) < 16
  {
    hide Lanes, Octets;
    HighBitsClear(a, b, c, d);
    NoCarry(Lanes(a, b, c, d));
    MaskBytes(a, b, c, d);
    LanesAdd(a & 0x0f, b & 0x0f, c & 0x0f, d & 0x0f, (a >> 4) & 0x0f, (b >> 4) & 0x0f, (c >> 4) & 0x0f,
             (d >> 4) & 0x0f);
    Byte1Small(a);
    Byte1Small(b);
    Byte1Small(c);
    Byte1Small(d);
  }

  function Byte32(b: bv8): bv32 { b as bv32 }

  function Ones32(b: bv8): bv32 { Byte1(Nibbles1(Pairs1(Byte32(b)))) }

  lemma OneByte(b: bv8)
    ensures var a := Byte32(b); a < 256 && Pairs1(a) < 256 && Nibbles1(Pairs1(a)) < 256 && Nibbles1(Pairs1(a)) & 0x88 == 0
  {
  }

  lemma OnesAgree(b: bv8)
    ensures Wide(Ones32(b)) == Ones(b) && Ones32(b) <= 8
  {
  }

  function Wide(x: bv32): nat { x as nat }

  /** The word at four bytes in memory. */
  function Load32(a: bv8, b: bv8, c: bv8, d: bv8): bv32 {
    Lanes(Byte32(a), Byte32(b), Byte32(c), Byte32(d))
  }

  lemma WideAdd(x: bv32, y: bv32)
    requires x <= 24 && y <= 8
    ensures x + y <= 32 && Wide(x + y) == Wide(x) + Wide(y)
  {
  }

  lemma Widen(a: bv32, b: bv32, c: bv32, d: bv32)
    requires a <= 8 && b <= 8 && c <= 8 && d <= 8
    ensures Wide(Add4(a, b, c, d)) == Wide(a) + Wide(b) + Wide(c) + Wide(d)
  {
    hide Wide;
    SmallSums(a, b, c);
    WideAdd(a, b);
    WideAdd(a + b, c);
    WideAdd(a + b + c, d);
  }

  lemma SmallSums(a: bv32, b: bv32, c: bv32)
    requires a <= 8 && b <= 8 && c <= 8
    ensures a + b <= 16 && a + b + c <= 24
  {
  }

  /** The parallel count of a word is the number of ones in its bytes. */
  lemma SwarCounts(a: bv8, b: bv8, c: bv8, d: bv8)
    ensures Wide(Swar(Load32(a, b, c, d))) == Ones(a) + Ones(b) + Ones(c) + Ones(d)
  {
    hide Lanes, Pairs, Nibbles, Octets, Gather, Pairs1, Nibbles1, Byte1, Ones, Byte32, Wide, Add4;
    OneByte(a);
    OneByte(b);
    OneByte(c);
    OneByte(d);
    var w, x, y, z := Byte32(a), Byte32(b), Byte32(c), Byte32(d);
    PairsLanes(w, x, y, z);
    NibblesLanes(Pairs1(w), Pairs1(x), Pairs1(y), Pairs1(z));
    OctetsLanes(Nibbles1(Pairs1(w)), Nibbles1(Pairs1(x)), Nibbles1(Pairs1(y)), Nibbles1(Pairs1(z)));
    SumLanes(Ones32(a), Ones32(b), Ones32(c), Ones32(d));
    OnesAgree(a);
    OnesAgree(b);
    OnesAgree(c);
    OnesAgree(d);
    Widen(Ones32(a), Ones32(b), Ones32(c), Ones32(d));
  }

  // ----- redisPopcount -----

  lemma PopcountNext(s: seq<bv8>, i: nat)
    requires i < |s|
    ensures Popcount(s[..i + 1]) == Popcount(s[..i]) + Ones(s[i])
  {
    hide Ones;
    assert s[..i + 1][..i] == s[..i];
  }

  /** The parallel count of the word at `i`. */
  function WordCount(s: seq<bv8>, i: nat): nat
    requires i + 4 <= |s|
  {
    Wide(Swar(Load32(s[i], s[i + 1], s[i + 2], s[i + 3])))
  }

  lemma PopcountWord(s: seq<bv8>, i: nat)
    requires i + 4 <= |s|
    ensures Popcount(s[..i + 4]) == Popcount(s[..i]) + WordCount(s, i)
  {
    hide Popcount, Ones, Swar, Load32, Wide;
    PopcountNext(s, i);
    PopcountNext(s, i + 1);
    PopcountNext(s, i + 2);
    PopcountNext(s, i + 3);
    SwarCounts(s[i], s[i + 1], s[i + 2], s[i + 3]);
  }

  /** redisPopcount of the bytes at address `addr`: bytes up to alignment, words four at a time, and the rest. */
  method RedisPopcount(addr: nat, s: seq<bv8>) returns (bits: nat)
    ensures bits == Popcount(s)
  {
    hide Ones, BitsInByte, WordCount, Popcount;
    bits := 0;
    var p: nat, count: nat := 0, |s|;
    PopcountEmpty(s);
    while (addr + p) % 4 != 0 && count > 0
      invariant p + count == |s| && bits == Popcount(s[..p])
      decreases count
    {
      PopcountNext(s, p);
      TableCounts(s[p]);
      bits := bits + BitsInByte(s[p]);
      p := p + 1;
      count := count - 1;
    }
    while count >= 16
      invariant p + count == |s| && bits == Popcount(s[..p])
      decreases count
    {
      PopcountWord(s, p);
      PopcountWord(s, p + 4);
      PopcountWord(s, p + 8);
      PopcountWord(s, p + 12);
      count := count - 16;
      bits := bits + WordCount(s, p) + WordCount(s, p + 4) + WordCount(s, p + 8) + WordCount(s, p + 12);
      p := p + 16;
    }
    while count > 0
      invariant p + count == |s| && bits == Popcount(s[..p])
      decreases count
    {
      PopcountNext(s, p);
      TableCounts(s[p]);
      count := count - 1;
      bits := bits + BitsInByte(s[p]);
      p := p + 1;
    }
    assert s[..p] == s;
  }

  lemma PopcountEmpty(s: seq<bv8>)
    ensures Popcount(s[..0]) == 0
  {
  }

  // ----- Words of eight bytes -----

  /** What a load of an unsigned long yields. */
  function Load64(b0: bv8, b1: bv8, b2: bv8, b3: bv8, b4: bv8, b5: bv8, b6: bv8, b7: bv8): bv64 {
    (b0 as bv64) | ((b1 as bv64) << 8) | ((b2 as bv64) << 16) | ((b3 as bv64) << 24)
    | ((b4 as bv64) << 32) | ((b5 as bv64) << 40) | ((b6 as bv64) << 48) | ((b7 as bv64) << 56)
  }

  const ULONG_MAX: bv64 := 0xffff_ffff_ffff_ffff
  const UCHAR_MAX: bv8 := 0xff

  lemma LoadZero(b0: bv8, b1: bv8, b2: bv8, b3: bv8, b4: bv8, b5: bv8, b6: bv8, b7: bv8)
    ensures Load64(b0, b1, b2, b3, b4, b5, b6, b7) == 0
            <==> b0 == 0 && b1 == 0 && b2 == 0 && b3 == 0 && b4 == 0 && b5 == 0 && b6 == 0 && b7 == 0
  {
  }

  lemma LoadOnes(b0: bv8, b1: bv8, b2: bv8, b3: bv8, b4: bv8, b5: bv8, b6: bv8, b7: bv8)
    ensures Load64(b0, b1, b2, b3, b4, b5, b6, b7) == ULONG_MAX
            <==> b0 == 0xff && b1 == 0xff && b2 == 0xff && b3 == 0xff && b4 == 0xff && b5 == 0xff && b6 == 0xff && b7 == 0xff
  {
  }

  // ----- redisBitpos -----

  /** Bit `k` of a byte, the most significant one first. */
  predicate ByteBit(b: bv8, k: nat)
    requires k < 8
  {
    match k
    case 0 => b & 0x80 != 0
    case 1 => b & 0x40 != 0
    case 2 => b & 0x20 != 0
    case 3 => b & 0x10 != 0
    case 4 => b & 0x08 != 0
    case 5 => b & 0x04 != 0
    case 6 => b & 0x02 != 0
    case _ => b & 0x01 != 0
  }

  /** Bit `k` of a string. */
  predicate BitAt(s: seq<bv8>, k: nat)
    requires k < 8 * |s|
  {
    ByteBit(s[k / 8], k % 8)
  }

  /** The bit that is `t` places behind the most significant one of a word. */
  predicate TestBit(w: bv64, t: nat)
    decreases t
  {
    if t == 0 then w & 0x8000_0000_0000_0000 != 0 else TestBit(Up(w), t - 1)
  }

  function Up(w: bv64): bv64 { w << 1 }

  function Down(w: bv64): bv64 { w >> 1 }

  predicate Meets(one: bv64, w: bv64) { one & w != 0 }

  lemma Slide(one: bv64, w: bv64)
    ensures Meets(Down(one), w) <==> Meets(one, Up(w))
  {
  }

  /** The mask after `t` rounds of the scan. */
  function One(t: nat): bv64 {
    if t == 0 then 0x8000_0000_0000_0000 else Down(One(t - 1))
  }

  /** Shifting the mask down tests what shifting the word up does. */
  lemma {:induction false} MaskTests(w: bv64, t: nat)
    ensures Meets(One(t), w) <==> TestBit(w, t)
    decreases t
  {
    hide Up, Down;
    if t == 0 {
      MeetsTop(w);
    } else {
      hide Meets;
      Slide(One(t - 1), w);
      MaskTests(Up(w), t - 1);
    }
  }

  lemma MeetsTop(w: bv64)
    ensures Meets(0x8000_0000_0000_0000, w) <==> TestBit(w, 0)
  {
  }

  // ----- The word that is scanned -----

  function TopByte(w: bv64): bv8 { (w >> 56) as bv8 }

  function Up8(w: bv64): bv64 { w << 8 }

  /** One round of the loading loop. */
  function LoadStep(w: bv64, b: bv8): bv64 { Up8(w) | (b as bv64) }

  lemma LoadNothing(w: bv64)
    ensures LoadStep(w, 0) == Up8(w)
  {
  }

  /** The first byte loaded ends up on top. */
  lemma BytesLoaded(w: bv64, b0: bv8, b1: bv8, b2: bv8, b3: bv8, b4: bv8, b5: bv8, b6: bv8, b7: bv8)
    requires w == LoadStep(LoadStep(LoadStep(LoadStep(LoadStep(LoadStep(LoadStep(LoadStep(0, b0), b1), b2), b3), b4),
                                             b5), b6), b7)
    ensures TopByte(w) == b0
    ensures TopByte(Up8(w)) == b1
    ensures TopByte(Up8(Up8(w))) == b2
    ensures TopByte(Up8(Up8(Up8(w)))) == b3
    ensures TopByte(Up8(Up8(Up8(Up8(w))))) == b4
    ensures TopByte(Up8(Up8(Up8(Up8(Up8(w)))))) == b5
    ensures TopByte(Up8(Up8(Up8(Up8(Up8(Up8(w))))))) == b6
    ensures TopByte(Up8(Up8(Up8(Up8(Up8(Up8(Up8(w)))))))) == b7
    ensures Up8(Up8(Up8(Up8(Up8(Up8(Up8(Up8(w)))))))) == 0
  {
  }

  function Loaded(s: seq<bv8>): bv64
    decreases |s|
  {
    if s == [] then 0 else LoadStep(Loaded(s[..|s| - 1]), s[|s| - 1])
  }

  lemma LoadedNext(s: seq<bv8>, i: nat)
    requires i < |s|
    ensures Loaded(s[..i + 1]) == LoadStep(Loaded(s[..i]), s[i])
  {
    hide LoadStep;
    assert s[..i + 1][..i] == s[..i];
  }

  lemma TopUp(w: bv64, k: nat)
    requires 1 <= k < 8
    ensures ByteBit(TopByte(Up(w)), k - 1) <==> ByteBit(TopByte(w), k)
  {
    match k {
      case 1 =>
      case 2 =>
      case 3 =>
      case 4 =>
      case 5 =>
      case 6 =>
      case _ =>
    }
  }

  lemma TopBit(w: bv64)
    ensures TestBit(w, 0) <==> ByteBit(TopByte(w), 0)
  {
  }

  /** The top eight bits of a word are those of its top byte. */
  lemma {:induction false} TestTop(w: bv64, t: nat)
    requires t < 8
    ensures TestBit(w, t) <==> ByteBit(TopByte(w), t)
    decreases t
  {
    hide ByteBit, TopByte, Up;
    if t == 0 {
      TopBit(w);
    } else {
      TestTop(Up(w), t - 1);
      TopUp(w, t);
    }
  }

  lemma UpEight(w: bv64)
    ensures Up(Up(Up(Up(Up(Up(Up(Up(w)))))))) == Up8(w)
  {
  }

  lemma TestNext(w: bv64, t: nat)
    ensures TestBit(w, t + 8) <==> TestBit(Up8(w), t)
  {
    hide Up, Up8;
    UpEight(w);
    var v := Up(Up(Up(w)));
    assert TestBit(w, t + 8) == TestBit(Up(w), t + 7) == TestBit(Up(Up(w)), t + 6) == TestBit(v, t + 5);
    assert TestBit(v, t + 5) == TestBit(Up(v), t + 4) == TestBit(Up(Up(v)), t + 3) == TestBit(Up(Up(Up(v))), t + 2);
    var u := Up(Up(Up(v)));
    assert TestBit(u, t + 2) == TestBit(Up(u), t + 1) == TestBit(Up(Up(u)), t);
  }

  function Nth(w: bv64, j: nat): bv64
    decreases j
  {
    if j == 0 then w else Nth(Up8(w), j - 1)
  }

  lemma {:induction false} TestNth(w: bv64, j: nat, i: nat)
    requires i < 8
    ensures TestBit(w, 8 * j + i) <==> ByteBit(TopByte(Nth(w, j)), i)
    decreases j
  {
    hide TestBit, ByteBit, TopByte, Up8;
    if j == 0 {
      TestTop(w, i);
    } else {
      TestNext(w, 8 * (j - 1) + i);
      TestNth(Up8(w), j - 1, i);
    }
  }

  /** Each byte of eight can be found in the word they were loaded into. */
  lemma LoadedBytes(p: seq<bv8>)
    requires |p| == 8
    ensures forall j :: 0 <= j < 8 ==> TopByte(Nth(Loaded(p), j)) == p[j]
    ensures Nth(Loaded(p), 8) == 0
  {
    hide LoadStep, TopByte, Up8, Loaded;
    UnrollLoad(p);
    var w := Loaded(p);
    BytesLoaded(w, p[0], p[1], p[2], p[3], p[4], p[5], p[6], p[7]);
    UnrollNth(w);
  }

  lemma UnrollLoad(p: seq<bv8>)
    requires |p| == 8
    ensures Loaded(p) == LoadStep(LoadStep(LoadStep(LoadStep(LoadStep(LoadStep(LoadStep(LoadStep(0, p[0]), p[1]),
                                                                               p[2]), p[3]), p[4]), p[5]), p[6]), p[7])
  {
    hide LoadStep, Loaded;
    LoadedNone(p);
    LoadedNext(p, 0);
    LoadedNext(p, 1);
    LoadedNext(p, 2);
    LoadedNext(p, 3);
    LoadedNext(p, 4);
    LoadedNext(p, 5);
    LoadedNext(p, 6);
    LoadedNext(p, 7);
    assert p[..8] == p;
  }

  lemma LoadedNone(p: seq<bv8>)
    ensures Loaded(p[..0]) == 0
  {
  }

  lemma UnrollNth(w: bv64)
    ensures Nth(w, 0) == w && Nth(w, 1) == Up8(w) && Nth(w, 2) == Up8(Up8(w)) && Nth(w, 3) == Up8(Up8(Up8(w)))
    ensures Nth(w, 4) == Up8(Up8(Up8(Up8(w)))) && Nth(w, 5) == Up8(Up8(Up8(Up8(Up8(w)))))
    ensures Nth(w, 6) == Up8(Up8(Up8(Up8(Up8(Up8(w)))))) && Nth(w, 7) == Up8(Up8(Up8(Up8(Up8(Up8(Up8(w)))))))
    ensures Nth(w, 8) == Up8(Up8(Up8(Up8(Up8(Up8(Up8(Up8(w))))))))
  {
    hide Up8, Nth;
    NthZero(w);
    NthUp(w, 0);
    NthUp(w, 1);
    NthUp(w, 2);
    NthUp(w, 3);
    NthUp(w, 4);
    NthUp(w, 5);
    NthUp(w, 6);
    NthUp(w, 7);
  }

  lemma NthZero(w: bv64)
    ensures Nth(w, 0) == w
  {
  }

  lemma {:induction false} NthUp(w: bv64, j: nat)
    ensures Nth(w, j + 1) == Up8(Nth(w, j))
    decreases j
  {
    hide Up8;
    if j > 0 {
      NthUp(Up8(w), j - 1);
    } else {
      NthZero(Up8(w));
    }
  }

  /** Bit `t` of the scan is bit `t` of the eight bytes, from the left. */
  lemma ScanBit(p: seq<bv8>, t: nat)
    requires |p| == 8 && t < 64
    ensures Meets(One(t), Loaded(p)) <==> BitAt(p, t)
  {
    hide Meets, One, Loaded, TestBit, TopByte, Nth, ByteBit;
    MaskTests(Loaded(p), t);
    TestNth(Loaded(p), t / 8, t % 8);
    LoadedBytes(p);
  }

  /** The mask runs out after exactly 64 rounds. */
  lemma MaskEnds(t: nat)
    requires t <= 64
    ensures One(t) == 0 <==> t == 64
  {
    hide Meets, One, Loaded, ByteBit;
    var ones: seq<bv8> := [0xff, 0xff, 0xff, 0xff, 0xff, 0xff, 0xff, 0xff];
    MeetsZero(Loaded(ones));
    if t < 64 {
      ScanBit(ones, t);
      AllBits(t % 8);
    } else {
      LastMask(ones);
    }
  }

  lemma MeetsZero(w: bv64)
    ensures !Meets(0, w)
  {
  }

  lemma AllBits(k: nat)
    requires k < 8
    ensures ByteBit(0xff, k) && !ByteBit(0, k)
  {
  }

  lemma LastMask(ones: seq<bv8>)
    requires ones == [0xff, 0xff, 0xff, 0xff, 0xff, 0xff, 0xff, 0xff]
    ensures One(64) == 0
  {
    hide Meets, One, Loaded, TestBit, TopByte, Nth, ByteBit;
    assert ones[0] == 0xff && ones[1] == 0xff && ones[2] == 0xff && ones[3] == 0xff;
    assert ones[4] == 0xff && ones[5] == 0xff && ones[6] == 0xff && ones[7] == 0xff;
    MaskTests(Loaded(ones), 64);
    TestNth(Loaded(ones), 8, 0);
    LoadedBytes(ones);
    ZeroTop();
    FullWord(ones);
    MeetsFull(One(64));
  }

  lemma ZeroTop()
    ensures !ByteBit(TopByte(0), 0)
  {
  }

  lemma FullWord(ones: seq<bv8>)
    requires |ones| == 8 && forall j :: 0 <= j < 8 ==> ones[j] == 0xff
    ensures Loaded(ones) == ULONG_MAX
  {
    hide LoadStep, Loaded;
    UnrollLoad(ones);
    FullSteps();
  }

  lemma FullSteps()
    ensures LoadStep(LoadStep(LoadStep(LoadStep(LoadStep(LoadStep(LoadStep(LoadStep(0, 0xff), 0xff), 0xff), 0xff),
                                                0xff), 0xff), 0xff), 0xff)
            == ULONG_MAX
  {
  }

  lemma MeetsFull(one: bv64)
    requires !Meets(one, ULONG_MAX)
    ensures one == 0
  {
  }

  /** A byte with none, or all, of its bits set. */
  lemma UniformByte(b: bv8)
    ensures b == 0 <==> forall k :: 0 <= k < 8 ==> !ByteBit(b, k)
    ensures b == 0xff <==> forall k :: 0 <= k < 8 ==> ByteBit(b, k)
  {
    assert ByteBit(b, 0) <==> b & 0x80 != 0;
    assert ByteBit(b, 1) <==> b & 0x40 != 0;
    assert ByteBit(b, 2) <==> b & 0x20 != 0;
    assert ByteBit(b, 3) <==> b & 0x10 != 0;
    assert ByteBit(b, 4) <==> b & 0x08 != 0;
    assert ByteBit(b, 5) <==> b & 0x04 != 0;
    assert ByteBit(b, 6) <==> b & 0x02 != 0;
    assert ByteBit(b, 7) <==> b & 0x01 != 0;
    EightBits(b);
  }

  lemma EightBits(b: bv8)
    ensures b == 0 <==> b & 0x80 == 0 && b & 0x40 == 0 && b & 0x20 == 0 && b & 0x10 == 0
                        && b & 0x08 == 0 && b & 0x04 == 0 && b & 0x02 == 0 && b & 0x01 == 0
    ensures b == 0xff <==> b & 0x80 != 0 && b & 0x40 != 0 && b & 0x20 != 0 && b & 0x10 != 0
                           && b & 0x08 != 0 && b & 0x04 != 0 && b & 0x02 != 0 && b & 0x01 != 0
  {
  }

  function SkipVal(bit: bool): bv8 { if bit then 0 else UCHAR_MAX }

  /** No bit before `k` is `bit`. */
  ghost predicate NoneBefore(s: seq<bv8>, k: nat, bit: bool)
    requires k <= 8 * |s|
  {
    forall i :: 0 <= i < k ==> BitAt(s, i) != bit
  }

  lemma SkipByte(s: seq<bv8>, i: nat, bit: bool)
    requires i < |s| && NoneBefore(s, 8 * i, bit) && s[i] == SkipVal(bit)
    ensures NoneBefore(s, 8 * i + 8, bit)
  {
    hide ByteBit;
    UniformByte(s[i]);
    forall k | 8 * i <= k < 8 * i + 8
      ensures BitAt(s, k) != bit
    {
      assert k / 8 == i;
    }
  }

  function WordAt(s: seq<bv8>, i: nat): bv64
    requires i + 8 <= |s|
  {
    Load64(s[i], s[i + 1], s[i + 2], s[i + 3], s[i + 4], s[i + 5], s[i + 6], s[i + 7])
  }

  function SkipWord(bit: bool): bv64 { if bit then 0 else ULONG_MAX }

  lemma UniformWord(s: seq<bv8>, i: nat, bit: bool)
    requires i + 8 <= |s|
    ensures WordAt(s, i) == SkipWord(bit) <==> forall j :: i <= j < i + 8 ==> s[j] == SkipVal(bit)
  {
    hide Load64;
    LoadZero(s[i], s[i + 1], s[i + 2], s[i + 3], s[i + 4], s[i + 5], s[i + 6], s[i + 7]);
    LoadOnes(s[i], s[i + 1], s[i + 2], s[i + 3], s[i + 4], s[i + 5], s[i + 6], s[i + 7]);
  }

  lemma SkipEight(s: seq<bv8>, i: nat, bit: bool)
    requires i + 8 <= |s| && NoneBefore(s, 8 * i, bit) && WordAt(s, i) == SkipWord(bit)
    ensures NoneBefore(s, 8 * i + 64, bit)
  {
    hide NoneBefore, WordAt, SkipWord, SkipVal;
    UniformWord(s, i, bit);
    SkipByte(s, i, bit);
    SkipByte(s, i + 1, bit);
    SkipByte(s, i + 2, bit);
    SkipByte(s, i + 3, bit);
    SkipByte(s, i + 4, bit);
    SkipByte(s, i + 5, bit);
    SkipByte(s, i + 6, bit);
    SkipByte(s, i + 7, bit);
  }

  /** The eight bytes from `i` on, with zeros behind the end of the string. */
  function Window(s: seq<bv8>, i: nat): (p: seq<bv8>)
    requires i <= |s|
    ensures |p| == 8 && forall j :: 0 <= j < 8 ==> p[j] == if i + j < |s| then s[i + j] else 0
  {
    seq(8, j requires 0 <= j && i <= |s| => if i + j < |s| then s[i + j] else 0)
  }

  /** The loading loop. */
  method LoadWindow(s: seq<bv8>, i: nat) returns (word: bv64)
    requires i <= |s|
    ensures word == Loaded(Window(s, i))
  {
    hide LoadStep, Loaded, Up8;
    ghost var p := Window(s, i);
    word := 0;
    var c: nat, count: nat, j := i, |s| - i, 0;
    LoadedNone(p);
    while j < 8
      invariant 0 <= j <= 8 && c + count == |s| && c == (if i + j < |s| then i + j else |s|)
      invariant word == Loaded(p[..j])
    {
      LoadedNext(p, j);
      LoadNothing(word);
      word := Up8(word);
      if count > 0 {
        OrLoad(p[..j], s[c]);
        word := OrByte(word, s[c]);
        c := c + 1;
        count := count - 1;
      }
      j := j + 1;
    }
    assert p[..8] == p;
  }

  function OrByte(w: bv64, b: bv8): bv64 { w | (b as bv64) }

  lemma OrLoad(p: seq<bv8>, b: bv8)
    ensures OrByte(Up8(Loaded(p)), b) == LoadStep(Loaded(p), b)
  {
    hide Loaded;
  }

  /** What redisBitpos promises. */
  ghost predicate FirstBit(s: seq<bv8>, bit: bool, pos: int) {
    if pos == -1 then bit && NoneBefore(s, 8 * |s|, bit)
    else
      && 0 <= pos <= 8 * |s| && NoneBefore(s, pos, bit)
      && (if pos == 8 * |s| then !bit else BitAt(s, pos) == bit)
  }

  /** A bit of the window is that of the string, and zero behind its end. */
  lemma WindowBit(s: seq<bv8>, i: nat, t: nat)
    requires i <= |s| && t < 64
    ensures BitAt(Window(s, i), t) <==> 8 * i + t < 8 * |s| && BitAt(s, 8 * i + t)
  {
    hide ByteBit, Window;
    AllBits(t % 8);
    assert (8 * i + t) / 8 == i + t / 8 && (8 * i + t) % 8 == t % 8;
  }

  lemma NoneAtStart(s: seq<bv8>, bit: bool)
    ensures NoneBefore(s, 0, bit)
  {
  }

  lemma ZeroBytes(p: seq<bv8>)
    requires |p| == 8
    ensures Loaded(p) == 0 <==> forall j :: 0 <= j < 8 ==> p[j] == 0
  {
    hide Loaded, LoadStep, TopByte, Nth;
    LoadedBytes(p);
    forall j | 0 <= j < 8
      ensures TopByte(Nth(0, j)) == 0
    {
      NthOfZero(j);
    }
    UnrollLoad(p);
    ZeroSteps();
  }

  lemma ZeroSteps()
    ensures LoadStep(LoadStep(LoadStep(LoadStep(LoadStep(LoadStep(LoadStep(LoadStep(0, 0), 0), 0), 0), 0), 0), 0), 0)
         == 0
  {
  }

  lemma {:induction false} NthOfZero(j: nat)
    ensures Nth(0, j) == 0 && TopByte(0) == 0
    decreases j
  {
    if j > 0 {
      NthOfZero(j - 1);
    }
  }

  /** A zero word means that no byte from `i` on has a bit set, unless a whole word was seen before it. */
  lemma WordEmpty(s: seq<bv8>, i: nat)
    requires i <= |s| && NoneBefore(s, 8 * i, true) && Loaded(Window(s, i)) == 0
    requires |s| - i >= 8 ==> WordAt(s, i) != SkipWord(true)
    ensures NoneBefore(s, 8 * |s|, true)
  {
    hide ByteBit, Loaded, WordAt, SkipWord;
    var p := Window(s, i);
    ZeroBytes(p);
    if |s| - i >= 8 {
      assert forall j :: i <= j < i + 8 ==> s[j] == p[j - i];
      UniformWord(s, i, true);
    }
    forall k | 8 * i <= k < 8 * |s|
      ensures !BitAt(s, k)
    {
      assert s[k / 8] == p[k / 8 - i];
      UniformByte(s[k / 8]);
    }
  }

  /** Some bit of the window is the one looked for. */
  lemma BitExists(s: seq<bv8>, i: nat, bit: bool)
    requires i <= |s| && (bit ==> Loaded(Window(s, i)) != 0)
    requires |s| - i >= 8 ==> WordAt(s, i) != SkipWord(bit)
    ensures exists t :: 0 <= t < 64 && BitAt(Window(s, i), t) == bit
  {
    hide ByteBit, Loaded, WordAt, SkipWord;
    var p := Window(s, i);
    assert |s| - i < 8 ==> p[|s| - i] == 0;
    if forall t :: 0 <= t < 64 ==> BitAt(p, t) != bit {
      forall j | 0 <= j < 8
        ensures p[j] == SkipVal(bit)
      {
        UniformByte(p[j]);
        assert forall k :: 0 <= k < 8 ==> BitAt(p, 8 * j + k) == ByteBit(p[j], k);
      }
      ZeroBytes(p);
      if |s| - i >= 8 {
        assert forall j :: i <= j < i + 8 ==> s[j] == p[j - i];
        UniformWord(s, i, bit);
      }
      assert false;
    }
  }

  lemma Found(s: seq<bv8>, i: nat, bit: bool, t: nat)
    requires i <= |s| && t < 64 && NoneBefore(s, 8 * i, bit)
    requires NoneBefore(Window(s, i), t, bit) && BitAt(Window(s, i), t) == bit
    ensures FirstBit(s, bit, 8 * i + t)
  {
    hide ByteBit, Window, BitAt;
    var p := Window(s, i);
    WindowBit(s, i, t);
    var end := 8 * (|s| - i);
    if !bit && t > end {
      WindowBit(s, i, end);
    }
    forall k | 8 * i <= k < 8 * i + t
      ensures k < 8 * |s| && BitAt(s, k) != bit
    {
      WindowBit(s, i, k - 8 * i);
    }
  }

  /** The scan of the last word, bit by bit; the panic behind it cannot be reached. */
  method ScanWord(s: seq<bv8>, i: nat, bit: bool, word: bv64) returns (pos: int)
    requires i <= |s| && word == Loaded(Window(s, i)) && NoneBefore(s, 8 * i, bit) && !(bit && word == 0)
    requires |s| - i >= 8 ==> WordAt(s, i) != SkipWord(bit)
    ensures FirstBit(s, bit, pos)
  {
    hide ByteBit, Loaded, Window, Meets, One, WordAt, SkipWord, BitAt, FirstBit;
    ghost var p := Window(s, i);
    pos := 8 * i;
    var one := TopMask();
    ghost var t := 0;
    FirstMask();
    NoneAtStart(p, bit);
    while one != 0
      invariant 0 <= t <= 64 && one == One(t) && pos == 8 * i + t && NoneBefore(p, t, bit)
      decreases 64 - t
    {
      MaskEnds(t);
      ScanBit(p, t);
      if Meets(one, word) == bit {
        hide NoneBefore;
        Found(s, i, bit, t);
        return;
      }
      NextMask(t);
      pos := pos + 1;
      one := Down(one);
      t := t + 1;
    }
    MaskEnds(t);
    BitExists(s, i, bit);
    assert false;
  }

  /** All ones shifted down by one, inverted. */
  function TopMask(): bv64 { !(ULONG_MAX >> 1) }

  lemma FirstMask()
    ensures TopMask() == One(0)
  {
  }

  lemma NextMask(t: nat)
    ensures One(t + 1) == Down(One(t))
  {
  }

  /** redisBitpos: bytes up to alignment, whole words, and the first word with a bit that counts. */
  method RedisBitpos(addr: nat, s: seq<bv8>, bit: bool) returns (pos: int)
    ensures FirstBit(s, bit, pos)
  {
    hide ByteBit, NoneBefore, Loaded, Window, Meets, One, WordAt, SkipWord, SkipVal;
    pos := 0;
    var c: nat, count: nat := 0, |s|;
    assert NoneBefore(s, 0, bit) by {
      NoneAtStart(s, bit);
    }
    while (addr + c) % 8 != 0 && count > 0
      invariant c + count == |s| && pos == 8 * c && NoneBefore(s, 8 * c, bit)
      decreases count
    {
      if s[c] != SkipVal(bit) {
        break;
      }
      SkipByte(s, c, bit);
      c, count, pos := c + 1, count - 1, pos + 8;
    }
    while count >= 8
      invariant c + count == |s| && pos == 8 * c && NoneBefore(s, 8 * c, bit)
      decreases count
    {
      if WordAt(s, c) != SkipWord(bit) {
        break;
      }
      SkipEight(s, c, bit);
      c, count, pos := c + 8, count - 8, pos + 64;
    }
    var word := LoadWindow(s, c);
    if bit && word == 0 {
      WordEmpty(s, c);
      return -1;
    }
    pos := ScanWord(s, c, bit, word);
  }

  // ----- BITOP -----

  datatype Op = And | Or | Xor | Not

  function Apply(op: Op, x: bv8, y: bv8): bv8 {
    match op
    case And => x & y
    case Or => x | y
    case Xor => x ^ y
    case Not => x
  }

  /** A byte of a source, zero behind its end. */
  function At(s: seq<bv8>, j: nat): bv8 {
    if j < |s| then s[j] else 0
  }

  /** Byte `j` of the operation over the first `n` sources. */
  function Fold(op: Op, srcs: seq<seq<bv8>>, j: nat, n: nat): bv8
    requires 1 <= n <= |srcs|
  {
    if n == 1 then if op == Not then !At(srcs[0], j) else At(srcs[0], j)
    else Apply(op, Fold(op, srcs, j, n - 1), At(srcs[n - 1], j))
  }

  function MaxLen(srcs: seq<seq<bv8>>): nat {
    if srcs == [] then 0
    else
      var m := MaxLen(srcs[..|srcs| - 1]);
      if |srcs[|srcs| - 1]| > m then |srcs[|srcs| - 1]| else m
  }

  /** The operation on one word of eight bytes. */
  function ApplyWord(op: Op, x: bv64, y: bv64): bv64 {
    match op
    case And => x & y
    case Or => x | y
    case Xor => x ^ y
    case Not => !x
  }

  function ApplyByte(op: Op, x: bv8, y: bv8): bv8 {
    if op == Not then !x else Apply(op, x, y)
  }

  function Store64(w: bv64): (s: seq<bv8>)
    ensures |s| == 8
  {
    [(w & 0xff) as bv8, ((w >> 8) & 0xff) as bv8, ((w >> 16) & 0xff) as bv8, ((w >> 24) & 0xff) as bv8,
     ((w >> 32) & 0xff) as bv8, ((w >> 40) & 0xff) as bv8, ((w >> 48) & 0xff) as bv8, ((w >> 56) & 0xff) as bv8]
  }

  lemma AndBits(b0: bv8, b1: bv8, b2: bv8, b3: bv8, b4: bv8, b5: bv8, b6: bv8, b7: bv8,
             c0: bv8, c1: bv8, c2: bv8, c3: bv8, c4: bv8, c5: bv8, c6: bv8, c7: bv8)
    ensures Load64(b0, b1, b2, b3, b4, b5, b6, b7) & Load64(c0, c1, c2, c3, c4, c5, c6, c7)
            == Load64(b0 & c0, b1 & c1, b2 & c2, b3 & c3, b4 & c4, b5 & c5, b6 & c6, b7 & c7)
  {
  }

  lemma AndWord(b0: bv8, b1: bv8, b2: bv8, b3: bv8, b4: bv8, b5: bv8, b6: bv8, b7: bv8,
             c0: bv8, c1: bv8, c2: bv8, c3: bv8, c4: bv8, c5: bv8, c6: bv8, c7: bv8)
    ensures ApplyWord(And, Load64(b0, b1, b2, b3, b4, b5, b6, b7), Load64(c0, c1, c2, c3, c4, c5, c6, c7))
            == Load64(ApplyByte(And, b0, c0), ApplyByte(And, b1, c1), ApplyByte(And, b2, c2), ApplyByte(And, b3, c3),
                      ApplyByte(And, b4, c4), ApplyByte(And, b5, c5), ApplyByte(And, b6, c6), ApplyByte(And, b7, c7))
  {
    hide Load64;
    AndBits(b0, b1, b2, b3, b4, b5, b6, b7, c0, c1, c2, c3, c4, c5, c6, c7);
  }

  lemma OrBits(b0: bv8, b1: bv8, b2: bv8, b3: bv8, b4: bv8, b5: bv8, b6: bv8, b7: bv8,
             c0: bv8, c1: bv8, c2: bv8, c3: bv8, c4: bv8, c5: bv8, c6: bv8, c7: bv8)
    ensures Load64(b0, b1, b2, b3, b4, b5, b6, b7) | Load64(c0, c1, c2, c3, c4, c5, c6, c7)
            == Load64(b0 | c0, b1 | c1, b2 | c2, b3 | c3, b4 | c4, b5 | c5, b6 | c6, b7 | c7)
  {
  }

  lemma OrWord(b0: bv8, b1: bv8, b2: bv8, b3: bv8, b4: bv8, b5: bv8, b6: bv8, b7: bv8,
             c0: bv8, c1: bv8, c2: bv8, c3: bv8, c4: bv8, c5: bv8, c6: bv8, c7: bv8)
    ensures ApplyWord(Or, Load64(b0, b1, b2, b3, b4, b5, b6, b7), Load64(c0, c1, c2, c3, c4, c5, c6, c7))
            == Load64(ApplyByte(Or, b0, c0), ApplyByte(Or, b1, c1), ApplyByte(Or, b2, c2), ApplyByte(Or, b3, c3),
                      ApplyByte(Or, b4, c4), ApplyByte(Or, b5, c5), ApplyByte(Or, b6, c6), ApplyByte(Or, b7, c7))
  {
    hide Load64;
    OrBits(b0, b1, b2, b3, b4, b5, b6, b7, c0, c1, c2, c3, c4, c5, c6, c7);
  }

  lemma XorBits(b0: bv8, b1: bv8, b2: bv8, b3: bv8, b4: bv8, b5: bv8, b6: bv8, b7: bv8,
             c0: bv8, c1: bv8, c2: bv8, c3: bv8, c4: bv8, c5: bv8, c6: bv8, c7: bv8)
    ensures Load64(b0, b1, b2, b3, b4, b5, b6, b7) ^ Load64(c0, c1, c2, c3, c4, c5, c6, c7)
            == Load64(b0 ^ c0, b1 ^ c1, b2 ^ c2, b3 ^ c3, b4 ^ c4, b5 ^ c5, b6 ^ c6, b7 ^ c7)
  {
  }

  lemma XorWord(b0: bv8, b1: bv8, b2: bv8, b3: bv8, b4: bv8, b5: bv8, b6: bv8, b7: bv8,
             c0: bv8, c1: bv8, c2: bv8, c3: bv8, c4: bv8, c5: bv8, c6: bv8, c7: bv8)
    ensures ApplyWord(Xor, Load64(b0, b1, b2, b3, b4, b5, b6, b7), Load64(c0, c1, c2, c3, c4, c5, c6, c7))
            == Load64(ApplyByte(Xor, b0, c0), ApplyByte(Xor, b1, c1), ApplyByte(Xor, b2, c2), ApplyByte(Xor, b3, c3),
                      ApplyByte(Xor, b4, c4), ApplyByte(Xor, b5, c5), ApplyByte(Xor, b6, c6), ApplyByte(Xor, b7, c7))
  {
    hide Load64;
    XorBits(b0, b1, b2, b3, b4, b5, b6, b7, c0, c1, c2, c3, c4, c5, c6, c7);
  }

  lemma NotBits(b0: bv8, b1: bv8, b2: bv8, b3: bv8, b4: bv8, b5: bv8, b6: bv8, b7: bv8)
    ensures !Load64(b0, b1, b2, b3, b4, b5, b6, b7)
            == Load64(!b0, !b1, !b2, !b3, !b4, !b5, !b6, !b7)
  {
  }

  lemma NotWord(b0: bv8, b1: bv8, b2: bv8, b3: bv8, b4: bv8, b5: bv8, b6: bv8, b7: bv8,
             c0: bv8, c1: bv8, c2: bv8, c3: bv8, c4: bv8, c5: bv8, c6: bv8, c7: bv8)
    ensures ApplyWord(Not, Load64(b0, b1, b2, b3, b4, b5, b6, b7), Load64(c0, c1, c2, c3, c4, c5, c6, c7))
            == Load64(ApplyByte(Not, b0, c0), ApplyByte(Not, b1, c1), ApplyByte(Not, b2, c2), ApplyByte(Not, b3, c3),
                      ApplyByte(Not, b4, c4), ApplyByte(Not, b5, c5), ApplyByte(Not, b6, c6), ApplyByte(Not, b7, c7))
  {
    hide Load64;
    NotBits(b0, b1, b2, b3, b4, b5, b6, b7);
  }

  lemma StoreLoad(b0: bv8, b1: bv8, b2: bv8, b3: bv8, b4: bv8, b5: bv8, b6: bv8, b7: bv8)
    ensures Store64(Load64(b0, b1, b2, b3, b4, b5, b6, b7)) == [b0, b1, b2, b3, b4, b5, b6, b7]
  {
    StoreLanes(b0, b1, b2, b3, b4, b5, b6, b7);
  }

  lemma StoreLanes(b0: bv8, b1: bv8, b2: bv8, b3: bv8, b4: bv8, b5: bv8, b6: bv8, b7: bv8)
    ensures var w := Load64(b0, b1, b2, b3, b4, b5, b6, b7);
            && (w & 0xff) as bv8 == b0 && ((w >> 8) & 0xff) as bv8 == b1 && ((w >> 16) & 0xff) as bv8 == b2
            && ((w >> 24) & 0xff) as bv8 == b3 && ((w >> 32) & 0xff) as bv8 == b4 && ((w >> 40) & 0xff) as bv8 == b5
            && ((w >> 48) & 0xff) as bv8 == b6 && ((w >> 56) & 0xff) as bv8 == b7
  {
  }

  lemma BytewiseWord(op: Op, x0: bv8, x1: bv8, x2: bv8, x3: bv8, x4: bv8, x5: bv8, x6: bv8, x7: bv8,
                     y0: bv8, y1: bv8, y2: bv8, y3: bv8, y4: bv8, y5: bv8, y6: bv8, y7: bv8)
    ensures Store64(ApplyWord(op, Load64(x0, x1, x2, x3, x4, x5, x6, x7), Load64(y0, y1, y2, y3, y4, y5, y6, y7)))
            == [ApplyByte(op, x0, y0), ApplyByte(op, x1, y1), ApplyByte(op, x2, y2), ApplyByte(op, x3, y3),
                ApplyByte(op, x4, y4), ApplyByte(op, x5, y5), ApplyByte(op, x6, y6), ApplyByte(op, x7, y7)]
  {
    hide Load64, Store64, ApplyByte, ApplyWord;
    match op {
      case And => AndWord(x0, x1, x2, x3, x4, x5, x6, x7, y0, y1, y2, y3, y4, y5, y6, y7);
      case Or => OrWord(x0, x1, x2, x3, x4, x5, x6, x7, y0, y1, y2, y3, y4, y5, y6, y7);
      case Xor => XorWord(x0, x1, x2, x3, x4, x5, x6, x7, y0, y1, y2, y3, y4, y5, y6, y7);
      case Not => NotWord(x0, x1, x2, x3, x4, x5, x6, x7, y0, y1, y2, y3, y4, y5, y6, y7);
    }
    StoreLoad(ApplyByte(op, x0, y0), ApplyByte(op, x1, y1), ApplyByte(op, x2, y2), ApplyByte(op, x3, y3),
              ApplyByte(op, x4, y4), ApplyByte(op, x5, y5), ApplyByte(op, x6, y6), ApplyByte(op, x7, y7));
  }

  /** Operating on words is operating on their bytes. */
  lemma WordIsBytes(op: Op, x: seq<bv8>, y: seq<bv8>)
    requires |x| == 8 && |y| == 8
    ensures Store64(ApplyWord(op, WordAt(x, 0), WordAt(y, 0)))
         == seq(8, k requires 0 <= k < 8 && |x| == 8 && |y| == 8 => ApplyByte(op, x[k], y[k]))
  {
    hide Load64, Store64, ApplyByte, ApplyWord;
    BytewiseWord(op, x[0], x[1], x[2], x[3], x[4], x[5], x[6], x[7], y[0], y[1], y[2], y[3], y[4], y[5], y[6], y[7]);
  }

  /** One word of the result combined with the word of a source at the same place. */
  method CombineWord(op: Op, res: array<bv8>, at: nat, src: seq<bv8>)
    requires at + 8 <= res.Length && (op != Not ==> at + 8 <= |src|)
    modifies res
    ensures forall k :: at <= k < at + 8 ==> res[k] == ApplyByte(op, old(res[k]), At(src, k))
    ensures forall k :: 0 <= k < res.Length && !(at <= k < at + 8) ==> res[k] == old(res[k])
  {
    hide Store64, ApplyByte, ApplyWord, WordAt;
    var x := res[at..at + 8];
    var y := if op == Not then x else src[at..at + 8];
    var w := ApplyWord(op, WordAt(x, 0), WordAt(y, 0));
    WordIsBytes(op, x, y);
    var bytes := Store64(w);
    forall k | 0 <= k < 8 {
      res[at + k] := bytes[k];
    }
    forall k | at <= k < at + 8
      ensures res[k] == ApplyByte(op, old(res[k]), At(src, k))
    {
      assert res[k] == bytes[k - at] && x[k - at] == old(res[k]);
      NotIgnores(op, x[k - at], y[k - at], At(src, k));
    }
  }

  lemma NotIgnores(op: Op, x: bv8, y: bv8, z: bv8)
    requires op == Not || y == z
    ensures ApplyByte(op, x, y) == ApplyByte(op, x, z)
  {
  }

  /** Four words, as one round of the fast path does for a source. */
  method CombineBlock(op: Op, res: array<bv8>, at: nat, src: seq<bv8>)
    requires at + 32 <= res.Length && (op != Not ==> at + 32 <= |src|)
    modifies res
    ensures forall k :: at <= k < at + 32 ==> res[k] == ApplyByte(op, old(res[k]), At(src, k))
    ensures forall k :: 0 <= k < res.Length && !(at <= k < at + 32) ==> res[k] == old(res[k])
  {
    hide ApplyByte, At;
    CombineWord(op, res, at, src);
    CombineWord(op, res, at + 8, src);
    CombineWord(op, res, at + 16, src);
    CombineWord(op, res, at + 24, src);
  }

  /** One round of the fast path: 32 bytes of the result become those of the operation over all sources. */
  method FastRound(op: Op, srcs: seq<seq<bv8>>, res: array<bv8>, j: nat)
    requires 1 <= |srcs| && (op == Not ==> |srcs| == 1) && j + 32 <= res.Length
    requires forall i :: 0 <= i < |srcs| ==> j + 32 <= |srcs[i]|
    requires forall k :: j <= k < j + 32 ==> res[k] == srcs[0][k]
    modifies res
    ensures forall k :: j <= k < j + 32 ==> res[k] == Fold(op, srcs, k, |srcs|)
    ensures forall k :: 0 <= k < res.Length && !(j <= k < j + 32) ==> res[k] == old(res[k])
  {
    hide Fold, ApplyByte;
    if op == Not {
      CombineBlock(op, res, j, srcs[0]);
      forall k | j <= k < j + 32
        ensures res[k] == Fold(op, srcs, k, 1)
      {
        FoldOne(op, srcs, k);
      }
    } else {
      forall k | j <= k < j + 32
        ensures res[k] == Fold(op, srcs, k, 1)
      {
        FoldOne(op, srcs, k);
      }
      var i := 1;
      while i < |srcs|
        invariant 1 <= i <= |srcs|
        invariant forall k :: j <= k < j + 32 ==> res[k] == Fold(op, srcs, k, i)
        invariant forall k :: 0 <= k < res.Length && !(j <= k < j + 32) ==> res[k] == old(res[k])
      {
        ghost var before := res[..];
        CombineBlock(op, res, j, srcs[i]);
        forall k | j <= k < j + 32
          ensures res[k] == Fold(op, srcs, k, i + 1)
        {
          assert before[k] == Fold(op, srcs, k, i);
          FoldNext(op, srcs, k, i);
        }
        i := i + 1;
      }
    }
  }

  lemma FoldOne(op: Op, srcs: seq<seq<bv8>>, j: nat)
    requires 1 <= |srcs|
    ensures Fold(op, srcs, j, 1) == if op == Not then ApplyByte(op, At(srcs[0], j), At(srcs[0], j)) else At(srcs[0], j)
  {
  }

  lemma FoldNext(op: Op, srcs: seq<seq<bv8>>, j: nat, n: nat)
    requires 1 <= n < |srcs| && op != Not
    ensures Fold(op, srcs, j, n + 1) == ApplyByte(op, Fold(op, srcs, j, n), At(srcs[n], j))
  {
    hide At;
  }

  /** The fast path: whole blocks of 32 bytes as far as every source reaches. */
  method FastPath(op: Op, srcs: seq<seq<bv8>>, res: array<bv8>, minlen0: nat) returns (j: nat)
    requires 1 <= |srcs| && (op == Not ==> |srcs| == 1) && minlen0 <= res.Length
    requires forall i :: 0 <= i < |srcs| ==> minlen0 <= |srcs[i]|
    modifies res
    ensures j <= minlen0 && forall k :: 0 <= k < j ==> res[k] == Fold(op, srcs, k, |srcs|)
  {
    hide Fold;
    forall k | 0 <= k < minlen0 {
      res[k] := srcs[0][k];
    }
    j := 0;
    var minlen := minlen0;
    while minlen >= 32
      invariant 0 <= minlen && j + minlen == minlen0
      invariant forall k :: 0 <= k < j ==> res[k] == Fold(op, srcs, k, |srcs|)
      invariant forall k :: j <= k < minlen0 ==> res[k] == srcs[0][k]
    {
      FastRound(op, srcs, res, j);
      j := j + 32;
      minlen := minlen - 32;
    }
  }

  /** The sources among the first `n` that have bit `k` of byte `j`. */
  ghost function OnesAt(srcs: seq<seq<bv8>>, j: nat, k: nat, n: nat): set<nat>
    requires n <= |srcs| && k < 8
  {
    set i: nat | i < n && ByteBit(if j < |srcs[i]| then srcs[i][j] else 0, k)
  }

  /** The mask of bit `k` of a byte. */
  function BitMask(k: nat): (m: bv8)
    requires k < 8
  {
    match k
    case 0 => 0x80
    case 1 => 0x40
    case 2 => 0x20
    case 3 => 0x10
    case 4 => 0x08
    case 5 => 0x04
    case 6 => 0x02
    case _ => 0x01
  }

  predicate Has(b: bv8, m: bv8) { b & m != 0 }

  predicate OneBit(m: bv8) { m & (m - 1) == 0 }

  lemma BitByMask(b: bv8, k: nat)
    requires k < 8
    ensures ByteBit(b, k) <==> Has(b, BitMask(k))
    ensures OneBit(BitMask(k))
  {
  }

  lemma AndMasked(x: bv8, y: bv8, m: bv8)
    requires OneBit(m)
    ensures Has(x & y, m) <==> Has(x, m) && Has(y, m)
  {
  }

  lemma OrMasked(x: bv8, y: bv8, m: bv8)
    ensures Has(x | y, m) <==> Has(x, m) || Has(y, m)
  {
  }

  lemma XorMasked(x: bv8, y: bv8, m: bv8)
    requires OneBit(m)
    ensures Has(x ^ y, m) <==> Has(x, m) != Has(y, m)
  {
  }

  lemma AndBit(x: bv8, y: bv8, k: nat)
    requires k < 8
    ensures ByteBit(x & y, k) <==> ByteBit(x, k) && ByteBit(y, k)
  {
    hide ByteBit, Has, OneBit, BitMask;
    BitByMask(x, k);
    BitByMask(y, k);
    BitByMask(x & y, k);
    AndMasked(x, y, BitMask(k));
  }

  lemma OrBit(x: bv8, y: bv8, k: nat)
    requires k < 8
    ensures ByteBit(x | y, k) <==> ByteBit(x, k) || ByteBit(y, k)
  {
    hide ByteBit, Has, OneBit, BitMask;
    BitByMask(x, k);
    BitByMask(y, k);
    BitByMask(x | y, k);
    OrMasked(x, y, BitMask(k));
  }

  lemma XorBit(x: bv8, y: bv8, k: nat)
    requires k < 8
    ensures ByteBit(x ^ y, k) <==> ByteBit(x, k) != ByteBit(y, k)
  {
    hide ByteBit, Has, OneBit, BitMask;
    BitByMask(x, k);
    BitByMask(y, k);
    BitByMask(x ^ y, k);
    XorMasked(x, y, BitMask(k));
  }

  /** One more source, with the bit `y`, after `n` of which `ones` have it. */
  lemma ApplyBit(op: Op, x: bv8, y: bv8, k: nat, ones: nat, n: nat)
    requires k < 8 && op != Not && ones <= n && BitRight(op, ByteBit(x, k), ones, n)
    ensures BitRight(op, ByteBit(Apply(op, x, y), k), ones + if ByteBit(y, k) then 1 else 0, n + 1)
  {
    hide ByteBit;
    match op {
      case And => AndBit(x, y, k);
      case Or => OrBit(x, y, k);
      case Xor => XorBit(x, y, k);
    }
  }

  lemma NotBit(x: bv8, k: nat)
    requires k < 8
    ensures ByteBit(!x, k) <==> !ByteBit(x, k)
  {
  }

  /** `b` is what the first `n` sources give at bit `k`, where `ones` of them have it. */
  predicate BitRight(op: Op, b: bool, ones: nat, n: nat) {
    match op
    case And => b <==> ones == n
    case Or => b <==> ones > 0
    case Xor => b <==> ones % 2 == 1
    case Not => b <==> ones == 0
  }

  /**
   What BITOP promises of byte `j`: bit by bit, a one where all sources have one, some has, an odd number of them
   have, or the only one has not. Sources are padded with zeros.
   */
  ghost predicate IsBitwise(op: Op, srcs: seq<seq<bv8>>, j: nat, b: bv8) {
    forall k: nat :: k < 8 ==> BitRight(op, ByteBit(b, k), |OnesAt(srcs, j, k, |srcs|)|, |srcs|)
  }

  lemma OnesNext(srcs: seq<seq<bv8>>, j: nat, k: nat, n: nat)
    requires n < |srcs| && k < 8
    ensures |OnesAt(srcs, j, k, n + 1)| == |OnesAt(srcs, j, k, n)| + if ByteBit(At(srcs[n], j), k) then 1 else 0
    ensures |OnesAt(srcs, j, k, n)| <= n && |OnesAt(srcs, j, k, 0)| == 0
  {
    hide ByteBit;
    var some := OnesAt(srcs, j, k, n);
    assert OnesAt(srcs, j, k, n + 1) == some + if ByteBit(At(srcs[n], j), k) then {n} else {};
    assert OnesAt(srcs, j, k, 0) == {};
    OnesFew(srcs, j, k, n);
  }

  lemma {:induction false} OnesFew(srcs: seq<seq<bv8>>, j: nat, k: nat, n: nat)
    requires n <= |srcs| && k < 8
    ensures |OnesAt(srcs, j, k, n)| <= n
  {
    hide ByteBit;
    if n == 0 {
      assert OnesAt(srcs, j, k, 0) == {};
    } else {
      OnesFew(srcs, j, k, n - 1);
      assert OnesAt(srcs, j, k, n) <= OnesAt(srcs, j, k, n - 1) + {n - 1};
      assert OnesAt(srcs, j, k, n) == OnesAt(srcs, j, k, n - 1)
          || OnesAt(srcs, j, k, n) == OnesAt(srcs, j, k, n - 1) + {n - 1};
    }
  }

  lemma {:induction false} FoldBit(op: Op, srcs: seq<seq<bv8>>, j: nat, k: nat, n: nat)
    requires 1 <= n <= |srcs| && k < 8 && (op == Not ==> n == 1)
    ensures BitRight(op, ByteBit(Fold(op, srcs, j, n), k), |OnesAt(srcs, j, k, n)|, n)
  {
    hide ByteBit, At, OnesAt;
    OnesNext(srcs, j, k, n - 1);
    if n == 1 {
      NotBit(At(srcs[0], j), k);
    } else {
      FoldBit(op, srcs, j, k, n - 1);
      hide BitRight, Apply;
      ApplyBit(op, Fold(op, srcs, j, n - 1), At(srcs[n - 1], j), k, |OnesAt(srcs, j, k, n - 1)|, n - 1);
    }
  }

  lemma FoldIsBitwise(op: Op, srcs: seq<seq<bv8>>, j: nat)
    requires 1 <= |srcs| && (op == Not ==> |srcs| == 1)
    ensures IsBitwise(op, srcs, j, Fold(op, srcs, j, |srcs|))
  {
    hide ByteBit, Fold, BitRight;
    forall k: nat | k < 8
      ensures BitRight(op, ByteBit(Fold(op, srcs, j, |srcs|), k), |OnesAt(srcs, j, k, |srcs|)|, |srcs|)
    {
      FoldBit(op, srcs, j, k, |srcs|);
    }
  }

  /** The result is as long as the longest source. */
  lemma {:induction false} MaxLenIsLongest(srcs: seq<seq<bv8>>)
    requires srcs != []
    ensures forall i :: 0 <= i < |srcs| ==> |srcs[i]| <= MaxLen(srcs)
    ensures exists i :: 0 <= i < |srcs| && |srcs[i]| == MaxLen(srcs)
  {
    var init, last := srcs[..|srcs| - 1], |srcs| - 1;
    if init != [] {
      MaxLenIsLongest(init);
      var i :| 0 <= i < |init| && |init[i]| == MaxLen(init);
      assert |srcs[i]| == MaxLen(init);
      assert forall i :: 0 <= i < last ==> srcs[i] == init[i];
    }
    assert |srcs[last]| <= MaxLen(srcs);
  }

  /**
   The computation of bitopCommand. Missing keys are empty strings; NOT has one source. The word-wise fast path and
   the bytes behind it together are the byte-wise operation over the sources padded with zeros.
   */
  method Bitop(op: Op, srcs: seq<seq<bv8>>) returns (res: array<bv8>)
    requires 1 <= |srcs| && (op == Not ==> |srcs| == 1)
    ensures fresh(res) && res.Length == MaxLen(srcs)
    ensures forall j :: 0 <= j < res.Length ==> res[j] == Fold(op, srcs, j, |srcs|) && IsBitwise(op, srcs, j, res[j])
    ensures forall i :: 0 <= i < |srcs| ==> |srcs[i]| <= res.Length
    ensures exists i :: 0 <= i < |srcs| && |srcs[i]| == res.Length
  {
    hide Fold, IsBitwise;
    MaxLenIsLongest(srcs);
    var maxlen, minlen := Lengths(srcs);
    res := new bv8[maxlen];
    if maxlen > 0 {
      var j := 0;
      if minlen > 0 && |srcs| <= 16 {
        j := FastPath(op, srcs, res, minlen);
      }
      while j < maxlen
        invariant j <= maxlen
        invariant forall k :: 0 <= k < j ==> res[k] == Fold(op, srcs, k, |srcs|)
      {
        var output := SlowByte(op, srcs, j);
        res[j] := output;
        j := j + 1;
      }
    }
    forall j | 0 <= j < res.Length
      ensures IsBitwise(op, srcs, j, res[j])
    {
      FoldIsBitwise(op, srcs, j);
    }
  }

  /** The body of the byte-wise loop. */
  method SlowByte(op: Op, srcs: seq<seq<bv8>>, j: nat) returns (output: bv8)
    requires 1 <= |srcs| && (op == Not ==> |srcs| == 1)
    ensures output == Fold(op, srcs, j, |srcs|)
  {
    hide Fold, At;
    FoldOne(op, srcs, j);
    output := At(srcs[0], j);
    if op == Not {
      output := !output;
    }
    var i := 1;
    while i < |srcs|
      invariant 1 <= i <= |srcs| && output == Fold(op, srcs, j, i)
    {
      FoldNext(op, srcs, j, i);
      output := ApplyByte(op, output, At(srcs[i], j));
      i := i + 1;
    }
  }

  /** The loop over the keys: the greatest and the least length. */
  method Lengths(srcs: seq<seq<bv8>>) returns (maxlen: nat, minlen: nat)
    requires 1 <= |srcs|
    ensures maxlen == MaxLen(srcs)
    ensures forall i :: 0 <= i < |srcs| ==> minlen <= |srcs[i]| <= maxlen
  {
    maxlen, minlen := 0, 0;
    var j := 0;
    while j < |srcs|
      invariant 0 <= j <= |srcs| && maxlen == MaxLen(srcs[..j])
      invariant forall i :: 0 <= i < j ==> minlen <= |srcs[i]| <= maxlen
    {
      assert srcs[..j + 1][..j] == srcs[..j];
      var len := |srcs[j]|;
      if len > maxlen {
        maxlen := len;
      }
      if j == 0 || len < minlen {
        minlen := len;
      }
      j := j + 1;
    }
    assert srcs[..j] == srcs;
  }
}
