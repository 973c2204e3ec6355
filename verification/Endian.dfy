/** Integers as bytes, least significant first, with the sign in two's complement. */
module Endian {
  import opened Bytes

  /** The `n` low bytes of a two's complement number, least significant first. */
  function LittleEndian(u: nat, n: nat): (s: seq<byte>)
    ensures |s| == n
    decreases n
  {
    if n == 0 then [] else [u % 0x100] + LittleEndian(u / 0x100, n - 1)
  }

  function FromLittleEndian(s: seq<byte>): nat {
    if s == [] then 0 else s[0] as int + 0x100 * FromLittleEndian(s[1..])
  }

  function Power256(n: nat): (p: nat)
    ensures p >= 1
  {
    if n == 0 then 1 else 0x100 * Power256(n - 1)
  }

  lemma {:induction false} LittleEndianRoundTrip(u: nat, n: nat)
    requires u < Power256(n)
    ensures FromLittleEndian(LittleEndian(u, n)) == u
    decreases n
  {
    if n > 0 {
      LittleEndianRoundTrip(u / 0x100, n - 1);
    }
  }

  lemma {:induction false} FromLittleEndianBound(s: seq<byte>)
    ensures FromLittleEndian(s) < Power256(|s|)
  {
    if s != [] {
      FromLittleEndianBound(s[1..]);
    }
  }

  /** The unsigned pattern of `v` in `n` bytes, and back. */
  function ToUnsigned(v: int, n: nat): nat {
    v % Power256(n)
  }

  function ToSigned(u: nat, n: nat): int {
    if u >= Power256(n) / 2 then u - Power256(n) else u
  }

  predicate FitsBytes(v: int, n: nat) {
    -(Power256(n) / 2) <= v < Power256(n) / 2
  }

  lemma Wrap(v: int, m: int)
    requires m > 0 && -m <= v < m
    ensures v % m == if v < 0 then v + m else v
  {
    if v < 0 {
      assert (v + m) % m == v + m;
      assert v == -1 * m + (v + m);
    }
  }

  /** Every value that fits is read back as itself. */
  lemma SignedRoundTrip(v: int, n: nat)
    requires n > 0 && FitsBytes(v, n)
    ensures ToUnsigned(v, n) < Power256(n) && ToSigned(ToUnsigned(v, n), n) == v
    ensures ToSigned(FromLittleEndian(LittleEndian(ToUnsigned(v, n), n)), n) == v
  {
    hide FromLittleEndian, LittleEndian;
    Wrap(v, Power256(n));
    assert Power256(n) % 2 == 0;
    LittleEndianRoundTrip(ToUnsigned(v, n), n);
  }

  /** What is read always fits. */
  lemma SignedFits(s: seq<byte>)
    requires s != []
    ensures FitsBytes(ToSigned(FromLittleEndian(s), |s|), |s|)
  {
    hide FromLittleEndian;
    FromLittleEndianBound(s);
    assert Power256(|s|) % 2 == 0;
  }
}
