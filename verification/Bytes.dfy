/** Bytes as small integers, shared by the modules that work on raw buffers. */
module Bytes {
  type byte = b: int | 0 <= b < 256

  const CR: byte := 13
  const LF: byte := 10
  const MINUS: byte := 45
  const ZERO: byte := 48
  const NINE: byte := 57
  const STAR: byte := 42
  const DOLLAR: byte := 36

  const CRLF: seq<byte> := [CR, LF]

  lemma SliceOfSuffix(s: seq<byte>, from: nat, lo: nat, hi: nat)
    requires lo <= hi && from + hi <= |s|
    ensures s[from..][lo..hi] == s[from + lo..from + hi]
  {
  }
}
