/**
 Decimal numbers as text: the canonical printer (ll2string) and the strict parser
 (string2ll) of util.c, and the lenient reading of a leading number (atoi, strtol).
 */
module Decimal {
  import opened Bytes
  import opened Wrappers

  const LLONG_MIN := -0x8000_0000_0000_0000
  const LLONG_MAX := 0x7fff_ffff_ffff_ffff

  /** The digits of `n`, without leading zeros. */
  function Digits(n: nat): (s: seq<byte>)
    ensures s != []
  {
    if n < 10 then [ZERO as int + n] else Digits(n / 10) + [ZERO as int + n % 10]
  }

  /** ll2string: a minus sign when needed, then the digits. */
  function Print(v: int): (s: seq<byte>)
    ensures s != []
  {
    if v < 0 then [MINUS] + Digits(-v) else Digits(v)
  }

  predicate IsDigit(b: byte) { ZERO <= b <= NINE }

  predicate AllDigits(s: seq<byte>) {
    forall i :: 0 <= i < |s| ==> IsDigit(s[i])
  }

  /** The number written by a string of digits, most significant first. */
  function Value(s: seq<byte>): nat
    requires AllDigits(s)
  {
    if s == [] then 0 else Value(s[..|s| - 1]) * 10 + (s[|s| - 1] as int - ZERO as int)
  }

  /** Digits that do not start with a superfluous zero. */
  predicate Canonical(s: seq<byte>) {
    s != [] && AllDigits(s) && (s[0] == ZERO ==> |s| == 1)
  }

  /** string2ll: accepts canonical numbers in the range of a long long, and nothing else. */
  function Parse(s: seq<byte>): Option<int> {
    if Canonical(s) then
      if Value(s) <= LLONG_MAX then Some(Value(s)) else None
    else if s != [] && s[0] == MINUS && Canonical(s[1..]) && s[1] != ZERO then
      var v: int := Value(s[1..]);
      if -v >= LLONG_MIN then Some(-v) else None
    else
      None
  }

  /** How many digits `s` starts with. */
  function LeadingDigits(s: seq<byte>): (n: nat)
    ensures n <= |s| && AllDigits(s[..n]) && (n < |s| ==> !IsDigit(s[n]))
  {
    if s == [] || !IsDigit(s[0]) then 0
    else
      var n := 1 + LeadingDigits(s[1..]);
      assert forall i :: 0 < i < n ==> s[i] == s[1..][i - 1];
      n
  }

  /** atoi and strtol on text without white space: the number the text starts with, and 0 without one. */
  function Leading(s: seq<byte>): int {
    if s != [] && s[0] == MINUS then
      var v: int := Value(s[1..][..LeadingDigits(s[1..])]);
      -v
    else
      Value(s[..LeadingDigits(s)])
  }

  /** How much of `s` strtol uses up. */
  function LeadingSize(s: seq<byte>): (n: nat)
    ensures n <= |s|
  {
    if s != [] && s[0] == MINUS then
      var n := LeadingDigits(s[1..]);
      if n == 0 then 0 else 1 + n
    else
      LeadingDigits(s)
  }

  // ----- Printing and parsing are inverse -----

  lemma {:induction false} DigitsCanonical(n: nat)
    ensures Canonical(Digits(n)) && Value(Digits(n)) == n
    ensures Digits(n)[0] == ZERO <==> n == 0
  {
    if n >= 10 {
      DigitsCanonical(n / 10);
      var s := Digits(n);
      assert s[..|s| - 1] == Digits(n / 10);
    } else {
      assert Digits(n)[..0] == [];
    }
  }

  lemma {:induction false} ValuePositive(s: seq<byte>)
    requires Canonical(s) && s[0] != ZERO
    ensures Value(s) >= 1
  {
    if |s| > 1 {
      ValuePositive(s[..|s| - 1]);
    } else {
      assert s[..0] == [];
    }
  }

  lemma {:induction false} DigitsStep(n: nat, d: nat)
    requires n >= 1 && d < 10
    ensures Digits(10 * n + d) == Digits(n) + [ZERO as int + d]
  {
    assert (10 * n + d) / 10 == n;
  }

  lemma {:induction false} CanonicalIsPrinted(s: seq<byte>)
    requires Canonical(s)
    ensures s == Digits(Value(s))
  {
    var init := s[..|s| - 1];
    if |s| == 1 {
      assert init == [];
    } else {
      CanonicalIsPrinted(init);
      ValuePositive(init);
      DigitsStep(Value(init), s[|s| - 1] as int - ZERO as int);
      hide Digits;
      assert s == init + [s[|s| - 1]];
    }
  }

  lemma ParsePrinted(v: int)
    ensures Parse(Print(v)) == if LLONG_MIN <= v <= LLONG_MAX then Some(v) else None
  {
    DigitsCanonical(if v < 0 then -v else v);
    if v < 0 {
      assert Print(v)[1..] == Digits(-v);
    }
  }

  lemma PrintParsed(s: seq<byte>)
    requires Parse(s).Some?
    ensures s == Print(Parse(s).value)
  {
    if Canonical(s) {
      CanonicalIsPrinted(s);
    } else {
      CanonicalIsPrinted(s[1..]);
      ValuePositive(s[1..]);
      assert s == [MINUS] + s[1..];
    }
  }

  /** The parser accepts exactly what the printer writes for a number in range. */
  lemma ParseIffPrinted(s: seq<byte>, v: int)
    ensures Parse(s) == Some(v) <==> s == Print(v) && LLONG_MIN <= v <= LLONG_MAX
  {
    hide Parse, Print;
    ParsePrinted(v);
    if Parse(s).Some? {
      PrintParsed(s);
      ParsePrinted(Parse(s).value);
    }
  }

  /** A leading number is read in full when something else follows it. */
  lemma LeadingPrinted(n: nat, rest: seq<byte>)
    requires rest != [] ==> !IsDigit(rest[0])
    ensures Leading(Digits(n) + rest) == n
  {
    DigitsCanonical(n);
    var d := Digits(n);
    LeadingDigitsExact(d, rest);
    assert (d + rest)[..|d|] == d;
  }

  lemma {:induction false} LeadingDigitsExact(d: seq<byte>, rest: seq<byte>)
    requires AllDigits(d) && (rest != [] ==> !IsDigit(rest[0]))
    ensures LeadingDigits(d + rest) == |d|
  {
    if d == [] {
      assert d + rest == rest;
    } else {
      assert (d + rest)[1..] == d[1..] + rest;
      LeadingDigitsExact(d[1..], rest);
    }
  }

  /** Every cut of a positive printed number still reads as a positive number. */
  lemma LeadingCut(n: nat, k: nat)
    requires n >= 1 && 1 <= k <= |Digits(n)|
    ensures Leading(Digits(n)[..k]) >= 1
  {
    DigitsCanonical(n);
    var d := Digits(n)[..k];
    LeadingDigitsExact(d, []);
    assert d + [] == d && d[..|d|] == d;
    ValuePositive(d);
  }

  lemma {:induction false} DigitsLength(n: nat, k: nat, bound: nat)
    requires n < bound && bound == Pow10(k) && k >= 1
    ensures |Digits(n)| <= k
    decreases k
  {
    if n >= 10 {
      assert k > 1;
      DigitsLength(n / 10, k - 1, Pow10(k - 1));
    }
  }

  function Pow10(k: nat): (p: nat)
    ensures p >= 1
  {
    if k == 0 then 1 else 10 * Pow10(k - 1)
  }
}
