/**
 The formats of the bytes that the modules read and write, in numerals: what a given byte of a number, a message,
 a dump, a compressed string or a HyperLogLog stands for.
 */
module Formats {
  import opened Arith
  import opened Bits64
  import opened Bytes
  import opened Decimal
  import opened Endian
  import opened Wrappers
  import Crc
  import Dump
  import Hll
  import Lzf
  import Rdb
  import Resp

  // ----- Numbers -----

  /** The digit of a decimal text at position `k` from the right, and how many there are. */
  lemma {:induction false} DecimalText(n: nat, k: nat)
    ensures var s := Print(n);
            && (k < |s| ==> s[|s| - 1 - k] as int == 48 + n / Pow10(k) % 10)
            && (n > 0 ==> Pow10(|s| - 1) <= n < Pow10(|s|))
            && (n == 0 ==> |s| == 1)
            && (n > 0 ==> Print(0 - n) == [45] + s)
    decreases n
  {
    if n >= 10 {
      if k > 0 {
        DivDiv(n, 10, Pow10(k - 1), Pow10(k));
      }
      DecimalText(n / 10, if k > 0 then k - 1 else 0);
    } else {
      assert Pow10(1) == 10 && Pow10(0) == 1;
    }
  }

  /** Byte `k` of a little endian number. */
  lemma {:induction false} LittleEndianByte(u: nat, n: nat, k: nat)
    requires k < n
    ensures LittleEndian(u, n)[k] as int == u / Power256(k) % 0x100
    decreases n
  {
    if k > 0 {
      DivDiv(u, 0x100, Power256(k - 1), Power256(k));
      LittleEndianByte(u / 0x100, n - 1, k - 1);
    }
  }

  /** Signed numbers of one, two and four bytes: the top byte decides about the sign. */
  lemma SignedBytes(b0: byte, b1: byte, b2: byte, b3: byte)
    ensures ToSigned(FromLittleEndian([b0]), 1) == b0 as int - (if b0 >= 128 then 0x100 else 0)
    ensures ToSigned(FromLittleEndian([b0, b1]), 2)
         == b0 as int + 0x100 * b1 as int - (if b1 >= 128 then 0x1_0000 else 0)
    ensures ToSigned(FromLittleEndian([b0, b1, b2, b3]), 4)
         == b0 as int + 0x100 * b1 as int + 0x1_0000 * b2 as int + 0x100_0000 * b3 as int
            - (if b3 >= 128 then 0x1_0000_0000 else 0)
  {
    assert Power256(1) == 0x100 && Power256(2) == 0x1_0000;
    assert Power256(3) == 0x100_0000 && Power256(4) == 0x1_0000_0000;
    Four(b0, b1, b2, b3);
  }

  lemma Four(b0: byte, b1: byte, b2: byte, b3: byte)
    ensures FromLittleEndian([b0]) == b0 as int && FromLittleEndian([b0, b1]) == b0 as int + 0x100 * b1 as int
    ensures FromLittleEndian([b0, b1, b2, b3])
         == b0 as int + 0x100 * b1 as int + 0x1_0000 * b2 as int + 0x100_0000 * b3 as int
  {
    hide FromLittleEndian;
    FromNothing();
    FromFirst(b0, []);
    FromFirst(b1, []);
    FromFirst(b3, []);
    assert [b0] + [] == [b0] && [b1] + [] == [b1] && [b3] + [] == [b3];
    FromFirst(b0, [b1]);
    FromFirst(b2, [b3]);
    assert [b0] + [b1] == [b0, b1] && [b2] + [b3] == [b2, b3];
    FromFirst(b1, [b2, b3]);
    FromFirst(b0, [b1, b2, b3]);
    assert [b1] + [b2, b3] == [b1, b2, b3] && [b0] + [b1, b2, b3] == [b0, b1, b2, b3];
  }

  lemma FromNothing()
    ensures FromLittleEndian([]) == 0
  {
  }

  lemma FromFirst(b: byte, s: seq<byte>)
    ensures FromLittleEndian([b] + s) == b as int + 0x100 * FromLittleEndian(s)
  {
    assert ([b] + s)[1..] == s;
  }

  // ----- Requests -----

  /** A request of two arguments, as it is sent. */
  lemma RequestText(a: seq<byte>, b: seq<byte>)
    ensures Resp.Encode([a, b]) == [42, 50, 13, 10, 36] + Print(|a|) + [13, 10] + a + [13, 10]
                                   + [36] + Print(|b|) + [13, 10] + b + [13, 10]
  {
    hide Print;
    var none: seq<seq<byte>> := [];
    assert Print(2) == [50] by {
      PrintTwo();
    }
    assert [a, b][1..] == [b] && [b][1..] == none;
    assert Resp.EncodeArgs([b]) == Resp.EncodeArg(b) + Resp.EncodeArgs(none);
  }

  lemma PrintTwo()
    ensures Print(2) == [50]
  {
  }

  // ----- Dumps -----

  /** Strings behind a length of one byte, of two bytes, or of five. */
  lemma StoredString(data: seq<byte>, rest: seq<byte>)
    ensures |data| < 0x40 ==> Rdb.LoadString([|data|] + data + rest) == Rdb.Loaded(data, 1 + |data|)
    ensures |data| < 0x4000 ==>
      Rdb.LoadString([0x40 + |data| / 0x100, |data| % 0x100] + data + rest) == Rdb.Loaded(data, 2 + |data|)
    ensures |data| < 0xffff_ffff ==>
      Rdb.LoadString([0x80, |data| / 0x100_0000, |data| / 0x1_0000 % 0x100, |data| / 0x100 % 0x100, |data| % 0x100]
                     + data + rest) == Rdb.Loaded(data, 5 + |data|)
  {
    var n := |data|;
    if n < 0x40 {
      StoredBehind([n], data, rest);
    }
    if n < 0x4000 {
      StoredBehind([0x40 + n / 0x100, n % 0x100], data, rest);
    }
    if n < 0xffff_ffff {
      Rdb.Digits256(n);
      StoredBehind([0x80, n / 0x100_0000, n / 0x1_0000 % 0x100, n / 0x100 % 0x100, n % 0x100], data, rest);
    }
  }

  lemma StoredBehind(head: seq<byte>, data: seq<byte>, rest: seq<byte>)
    requires |data| < 0xffff_ffff
    requires Rdb.ReadLength(head + data + rest) == Some(Rdb.Length(false, |data|, |head|))
    ensures Rdb.LoadString(head + data + rest) == Rdb.Loaded(data, |head| + |data|)
  {
    hide Rdb.ReadLength;
    assert (head + data + rest)[|head|..|head| + |data|] == data;
  }

  /** Integers behind 0xc0, 0xc1 and 0xc2 are loaded as their decimal text. */
  lemma StoredInteger(b0: byte, b1: byte, b2: byte, b3: byte, rest: seq<byte>)
    ensures Rdb.LoadString([0xc0, b0] + rest) == Rdb.Loaded(Print(b0 as int - (if b0 >= 128 then 0x100 else 0)), 2)
    ensures Rdb.LoadString([0xc1, b0, b1] + rest)
         == Rdb.Loaded(Print(b0 as int + 0x100 * b1 as int - (if b1 >= 128 then 0x1_0000 else 0)), 3)
    ensures Rdb.LoadString([0xc2, b0, b1, b2, b3] + rest)
         == Rdb.Loaded(Print(b0 as int + 0x100 * b1 as int + 0x1_0000 * b2 as int + 0x100_0000 * b3 as int
                             - (if b3 >= 128 then 0x1_0000_0000 else 0)), 5)
  {
    hide Print, FromLittleEndian, ToSigned;
    SignedBytes(b0, b1, b2, b3);
    assert ([0xc0, b0] + rest)[1..2] == [b0];
    assert ([0xc1, b0, b1] + rest)[1..3] == [b0, b1];
    assert ([0xc2, b0, b1, b2, b3] + rest)[1..5] == [b0, b1, b2, b3];
  }

  /** A short compressed string: 0xc3, the two lengths, and the compressed bytes. */
  lemma StoredCompressed(out: seq<byte>, data: seq<byte>, rest: seq<byte>)
    requires 0 < |out| < 0x40 && 0 < |data| < 0x40 && Lzf.Decode(out, [], |data|) == Lzf.Data(data)
    ensures Rdb.LoadString([0xc3, |out|, |data|] + out + rest) == Rdb.Loaded(data, 3 + |out|)
  {
    hide Rdb.LoadString, Rdb.LzfBytes, Lzf.Decode;
    CompressedHead(|out|, |data|, out);
    Rdb.LzfEncodes(out, data);
  }

  lemma CompressedHead(clen: nat, len: nat, out: seq<byte>)
    requires clen < 0x40 && len < 0x40
    ensures Rdb.LzfBytes(clen, len, out) == [0xc3, clen, len] + out
  {
  }

  /** Byte `k` of a word, the lowest being byte 0. */
  function ByteAt(w: bv64, k: nat): int
    requires k < 8
  {
    match k
    case 0 => (w & 0xff) as bv8 as int
    case 1 => ((w >> 8) & 0xff) as bv8 as int
    case 2 => ((w >> 16) & 0xff) as bv8 as int
    case 3 => ((w >> 24) & 0xff) as bv8 as int
    case 4 => ((w >> 32) & 0xff) as bv8 as int
    case 5 => ((w >> 40) & 0xff) as bv8 as int
    case 6 => ((w >> 48) & 0xff) as bv8 as int
    case _ => ((w >> 56) & 0xff) as bv8 as int
  }

  lemma WordInBytes(w: bv64)
    ensures var s := Dump.WordBytes(w);
            && s[0] == ByteAt(w, 0) && s[1] == ByteAt(w, 1) && s[2] == ByteAt(w, 2) && s[3] == ByteAt(w, 3)
            && s[4] == ByteAt(w, 4) && s[5] == ByteAt(w, 5) && s[6] == ByteAt(w, 6) && s[7] == ByteAt(w, 7)
  {
  }

  /** The footer of a payload: version 6 in two bytes, and the checksum in eight, both with the low byte first. */
  lemma PayloadFooter(p: seq<byte>)
    requires |p| >= 10
    ensures var n, w := |p| - 8, Crc.BitSerial(0, p[..|p| - 8]);
            Dump.Accepted(p) <==> p[n - 2] == 6 && p[n - 1] == 0 && forall k :: 0 <= k < 8 ==> p[n + k] == ByteAt(w, k)
  {
    hide Crc.BitSerial, Crc.Crc64, Dump.WordBytes, ByteAt;
    var n, w := |p| - 8, Crc.BitSerial(0, p[..|p| - 8]);
    Crc.Crc64IsSerial(0, p[..n]);
    WordInBytes(w);
    SameEight(p[n..], Dump.WordBytes(w), ByteAt(w, 0), ByteAt(w, 1), ByteAt(w, 2), ByteAt(w, 3),
              ByteAt(w, 4), ByteAt(w, 5), ByteAt(w, 6), ByteAt(w, 7));
  }

  lemma SameEight(s: seq<byte>, t: seq<byte>, c0: int, c1: int, c2: int, c3: int, c4: int, c5: int, c6: int, c7: int)
    requires |s| == 8 && |t| == 8 && t[0] == c0 && t[1] == c1 && t[2] == c2 && t[3] == c3
    requires t[4] == c4 && t[5] == c5 && t[6] == c6 && t[7] == c7
    ensures s == t <==> s[0] == c0 && s[1] == c1 && s[2] == c2 && s[3] == c3
                        && s[4] == c4 && s[5] == c5 && s[6] == c6 && s[7] == c7
  {
  }

  // ----- Compressed strings -----

  /** A back reference of two bytes, or of three when the length in the first one is 7. */
  lemma BackReference(a: seq<byte>, top: nat, more: byte, high: nat, low: byte, dst: seq<byte>, cap: nat)
    requires Lzf.Decode(a, [], cap) == Lzf.Data(dst) && 1 <= top <= 7 && high < 32
    requires 256 * high + low as int + 1 <= |dst|
    requires |dst| + top + 2 + (if top == 7 then more as int else 0) <= cap
    ensures var len, dist := top + 2 + (if top == 7 then more as int else 0), 256 * high + low as int + 1;
            var out := Lzf.Decode(a + [32 * top + high] + (if top == 7 then [more] else []) + [low], [], cap);
            && out.Data? && |out.data| == |dst| + len && out.data[..|dst|] == dst
            && forall k :: |dst| <= k < |dst| + len ==> out.data[k] == out.data[k - dist]
  {
    hide Lzf.Decode, Lzf.CopyBack;
    var len, dist := top + 2 + (if top == 7 then more as int else 0), 256 * high + low as int + 1;
    var b := [32 * top + high] + (if top == 7 then [more] else []) + [low];
    assert a + [32 * top + high] + (if top == 7 then [more] else []) + [low] == a + b;
    Lzf.DecodeAppend(a, b, [], cap);
    assert b[0] as int / 32 == top && b[0] as int % 32 == high;
    assert Lzf.RefSize(b[0]) == |b| && Lzf.RefLength(b) == len && Lzf.RefDistance(b) == dist;
    Lzf.DecodeOne(b, dst, cap);
    CopiedBytes(dst, dist, len);
  }

  lemma {:induction false} CopiedBytes(dst: seq<byte>, dist: nat, n: nat)
    requires 1 <= dist <= |dst|
    ensures var out := Lzf.CopyBack(dst, dist, n);
            && |out| == |dst| + n && out[..|dst|] == dst
            && forall k :: |dst| <= k < |dst| + n ==> out[k] == out[k - dist]
    decreases n
  {
    if n > 0 {
      var longer := dst + [dst[|dst| - dist]];
      CopiedBytes(longer, dist, n - 1);
      var out := Lzf.CopyBack(dst, dist, n);
      assert out == Lzf.CopyBack(longer, dist, n - 1);
      assert out[|dst|] == out[..|longer|][|dst|] && out[|dst| - dist] == out[..|longer|][|dst| - dist];
      assert out[..|dst|] == out[..|longer|][..|dst|];
    }
  }

  // ----- HyperLogLog values -----

  /** Bit `j` of a number. */
  function BitNo(z: nat, j: nat): nat { z / Pow2(j) % 2 }

  /** Bit `j` of dense register `r` is bit 6 * r + j of the bytes, the low bits of each byte first. */
  lemma DenseBit(p: seq<byte>, r: nat, j: nat)
    requires Hll.IsDense(p) && r < Hll.HLL_REGISTERS && j < 6
    ensures (6 * r + j) / 8 < |p|
    ensures BitNo(Hll.DenseGet(p, r), j) == BitNo(p[(6 * r + j) / 8], (6 * r + j) % 8)
  {
    hide Hll.GetBits, BitNo;
    Hll.StartOf(r);
    BitPlace(r, j);
    BitOf(p[Hll.FirstByte(r)], p[Hll.FirstByte(r) + 1], r % 4, j);
  }

  lemma BitPlace(r: nat, j: nat)
    requires j < 6
    ensures var bit := 6 * (r % 4) % 8 + j;
            && (6 * r + j) / 8 == r / 4 * 3 + (if r % 4 == 0 then 0 else r % 4 - 1) + (if bit < 8 then 0 else 1)
            && (6 * r + j) % 8 == bit % 8
  {
    var q, k := r / 4, r % 4;
    assert 6 * r + j == 24 * q + 6 * k + j;
  }

  lemma BitOf(b0: byte, b1: byte, k: nat, j: nat)
    requires k < 4 && j < 6
    ensures var bit := 6 * k % 8 + j;
            BitNo(Hll.GetBits(b0, b1, k), j) == BitNo(if bit < 8 then b0 else b1, bit % 8)
  {
    hide *;
    TwoBytes(b0, b1, k);
    BitOfBoth(b0, b1, 6 * k % 8, j);
  }

  lemma NotNegative(x: nat, d: nat)
    requires d > 0
    ensures x / d >= 0
  {
  }

  function Down(x: nat, k: nat): nat {
    NotNegative(x, Pow2(k));
    x / Pow2(k)
  }

  function Up(y: nat, k: nat): nat { y * Pow2(k) }

  lemma BitOfBoth(x: byte, y: byte, s: nat, j: nat)
    requires s <= 6 && j < 6
    ensures BitNo((Down(x, s) + Up(y, 8 - s)) % 64, j) == BitNo(if s + j < 8 then x else y, (s + j) % 8)
  {
    hide Pow2, BitNo, Down, Up;
    BitBelow(Down(x, s) + Up(y, 8 - s), j);
    if s + j < 8 {
      BitOfFirst(x, y, s, 8 - s, j);
    } else {
      PowersOfSix();
      BitOfSecond(x, y, s, 8 - s, j);
    }
  }

  lemma SameBit(z: nat, j: nat, x: nat, i: nat)
    requires z / Pow2(j) % 2 == x / Pow2(i) % 2
    ensures BitNo(z, j) == BitNo(x, i)
  {
  }

  lemma BitOfFirst(x: nat, y: nat, s: nat, e: nat, j: nat)
    requires j < e
    ensures BitNo(Down(x, s) + Up(y, e), j) == BitNo(x, s + j)
  {
    hide *;
    FirstQuotient(x, y, s, e, j);
    SameBit(Down(x, s) + Up(y, e), j, x, s + j);
  }

  lemma FirstQuotient(x: nat, y: nat, s: nat, e: nat, j: nat)
    requires j < e
    ensures (Down(x, s) + Up(y, e)) / Pow2(j) % 2 == x / Pow2(s + j) % 2
  {
    hide Pow2;
    Pow2Grows(j, e);
    EvenPower(e - j);
    BitLow(x / Pow2(s), y, Pow2(j), Pow2(e - j), Pow2(e));
    Pow2Grows(s, s + j);
    DivDiv(x, Pow2(s), Pow2(j), Pow2(s + j));
  }

  lemma BitOfSecond(x: nat, y: nat, s: nat, e: nat, j: nat)
    requires e <= j && x < Pow2(s + e)
    ensures BitNo(Down(x, s) + Up(y, e), j) == BitNo(y, j - e)
  {
    hide *;
    SecondQuotient(x, y, s, e, j);
    SameBit(Down(x, s) + Up(y, e), j, y, j - e);
  }

  lemma SecondQuotient(x: nat, y: nat, s: nat, e: nat, j: nat)
    requires e <= j && x < Pow2(s + e)
    ensures (Down(x, s) + Up(y, e)) / Pow2(j) == y / Pow2(j - e)
  {
    hide Pow2;
    Pow2Grows(e, j);
    Pow2Grows(s, s + e);
    BitHigh(x, y, Pow2(s), Pow2(e), Pow2(j - e), Pow2(j));
  }

  lemma BitBelow(z: nat, j: nat)
    requires j < 6
    ensures BitNo(z % 64, j) == BitNo(z, j)
  {
    hide Pow2;
    PowersOfSix();
    Pow2Grows(j, 6);
    EvenPower(6 - j);
    assert z == z % 64 + z / 64 * 64;
    BitLow(z % 64, z / 64, Pow2(j), Pow2(6 - j), 64);
  }

  lemma TwoBytes(b0: byte, b1: byte, k: nat)
    requires k < 4
    ensures Hll.GetBits(b0, b1, k) == (Down(b0, 6 * k % 8) + Up(b1, 8 - 6 * k % 8)) % 64
  {
    assert Pow2(2) == 4 && Pow2(4) == 16;
    assert Pow2(6) == 64;
    assert Pow2(8) == 256;
  }

  lemma PowersOfSix()
    ensures Pow2(6) == 64 && Pow2(8) == 256
  {
    assert Pow2(4) == 16;
  }

  lemma EvenPower(k: nat)
    requires k > 0
    ensures Pow2(k) % 2 == 0
  {
  }

  lemma BitLow(a: nat, b: nat, p: nat, q: nat, m: nat)
    requires p > 0 && q % 2 == 0 && m == p * q
    ensures (a + b * m) / p % 2 == a / p % 2
  {
    Parts(a, p);
    Regroup(b, q, a / p, p);
    assert a + b * m == (b * q + a / p) * p + a % p;
    ModUnique(a + b * m, p, b * q + a / p, a % p);
    EvenAdded(a / p, b, q / 2);
  }

  lemma EvenAdded(c: nat, b: nat, h: nat)
    ensures (c + b * (2 * h)) % 2 == c % 2
  {
    assert b * (2 * h) == 2 * (b * h);
  }

  lemma BitHigh(x: nat, y: nat, p: nat, e: nat, r: nat, m: nat)
    requires p > 0 && e > 0 && r > 0 && x < p * e && m == e * r
    ensures m > 0 && (x / p + y * e) / m == y / r
  {
    SmallQuotient(x, p, e);
    ModUnique(x / p + y * e, e, y, x / p);
    DivDiv(x / p + y * e, e, r, m);
  }

  lemma SmallQuotient(x: nat, p: nat, e: nat)
    requires p > 0 && x < p * e
    ensures x / p < e
  {
    Parts(x, p);
    if x / p >= e {
      ProductOrder(e, x / p, p);
    }
  }

  lemma ProductOrder(a: nat, b: nat, p: nat)
    requires a <= b
    ensures p * a <= b * p
  {
  }

  /** The opcodes of the sparse encoding: 00xxxxxx, 01xxxxxx yyyyyyyy and 1vvvvvxx. */
  lemma SparseOpcodes(x: nat, y: byte, v: nat, n: nat)
    requires x < 64 && v < 32 && n < 4
    ensures Hll.WellFormed([x]) && Hll.Expand([x]) == seq(x + 1, _ => 0)
    ensures Hll.WellFormed([64 + x, y]) && Hll.Expand([64 + x, y]) == seq(256 * x + y as int + 1, _ => 0)
    ensures Hll.WellFormed([128 + 4 * v + n]) && Hll.Expand([128 + 4 * v + n]) == seq(n + 1, _ => v + 1)
  {
    Hll.ExpandOne([x]);
    Hll.ExpandOne([64 + x, y]);
    Hll.ExpandOne([128 + 4 * v + n]);
    hide Hll.Expand, Hll.WellFormed;
  }
}
