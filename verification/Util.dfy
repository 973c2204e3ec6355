/**
 The conversions between numbers and text of util.c, as loops over the bytes: string2ll with its guards against
 overflow of an unsigned long long, and ll2string, which writes two digits at a time from a table.
 */
module Util {
  import opened Bytes
  import opened Wrappers
  import opened Arith
  import opened Decimal

  const ULLONG_MAX := 0xffff_ffff_ffff_ffff

  // ----- string2ll -----

  lemma {:induction false} PrefixValue(s: seq<byte>, i: nat)
    requires AllDigits(s) && i <= |s|
    ensures Value(s[..i]) <= Value(s)
    decreases |s|
  {
    if i == |s| {
      assert s[..i] == s;
    } else {
      PrefixValue(s[..|s| - 1], i);
      assert s[..|s| - 1][..i] == s[..i];
    }
  }

  /** The number after the sign of `s`, if it is one; None on overflow, or where a byte is not a digit. */
  method ReadDigits(s: seq<byte>) returns (r: Option<nat>)
    requires |s| > 0 && 49 <= s[0] <= NINE
    ensures r == if AllDigits(s) && Value(s) <= ULLONG_MAX then Some(Value(s)) else None
  {
    var v: int := s[0] as int - ZERO as int;
    var p := 1;
    assert s[..1][..0] == [];
    while p < |s| && ZERO <= s[p] <= NINE
      invariant 1 <= p <= |s| && AllDigits(s[..p]) && v == Value(s[..p]) <= ULLONG_MAX
    {
      ghost var next := s[..p + 1];
      assert next[..p] == s[..p] && AllDigits(next);
      if v > ULLONG_MAX / 10 {
        TooLarge(s, p + 1);
        return None;
      }
      v := v * 10;
      if v > ULLONG_MAX - (s[p] as int - ZERO as int) {
        TooLarge(s, p + 1);
        return None;
      }
      v := v + (s[p] as int - ZERO as int);
      p := p + 1;
    }
    if p < |s| {
      assert !IsDigit(s[p]);
      return None;
    }
    assert s[..p] == s;
    r := Some(v);
  }

  lemma TooLarge(s: seq<byte>, i: nat)
    requires i <= |s| && AllDigits(s[..i]) && Value(s[..i]) > ULLONG_MAX
    ensures AllDigits(s) ==> Value(s) > ULLONG_MAX
  {
    if AllDigits(s) {
      PrefixValue(s, i);
    }
  }

  /** string2ll: accepts what the strict parser accepts, for every string of bytes. */
  method String2ll(s: seq<byte>) returns (r: Option<int>)
    ensures r == Parse(s)
  {
    if |s| == 0 {
      return None;
    }
    if |s| == 1 && s[0] == ZERO {
      assert Value(s[..0]) == 0 && Canonical(s);
      return Some(0);
    }
    var negative := s[0] == MINUS;
    var body := if negative then s[1..] else s;
    assert negative ==> !IsDigit(s[0]);
    if |body| == 0 || !(49 <= body[0] <= NINE) {
      return None;
    }
    var v := ReadDigits(body);
    assert Canonical(body) <==> AllDigits(body);
    if v == None {
      return None;
    }
    var n: int := v.value;
    if negative {
      if n > -(LLONG_MIN + 1) + 1 {
        return None;
      }
      r := Some(-n);
    } else {
      if n > LLONG_MAX {
        return None;
      }
      r := Some(n);
    }
  }

  // ----- ll2string -----

  /** digits10: the number of digits. */
  function Digits10(v: nat): nat {
    if v < 10 then 1
    else if v < 100 then 2
    else if v < 1000 then 3
    else if v < 1000000000000 then
      if v < 100000000 then
        if v < 1000000 then
          if v < 10000 then 4 else if v >= 100000 then 6 else 5
        else if v >= 10000000 then 8 else 7
      else if v < 10000000000 then
        if v >= 1000000000 then 10 else 9
      else if v >= 100000000000 then 12 else 11
    else 12 + Digits10(v / 1000000000000)
  }

  lemma {:induction false} CountDigits(v: nat, k: nat)
    requires Pow10(k) <= v < Pow10(k + 1)
    ensures |Digits(v)| == k + 1
  {
    if k > 0 {
      CountDigits(v / 10, k - 1);
    }
  }

  lemma Powers()
    ensures Pow10(0) == 1 && Pow10(1) == 10 && Pow10(2) == 100 && Pow10(3) == 1000
    ensures Pow10(4) == 10000 && Pow10(5) == 100000 && Pow10(6) == 1000000
    ensures Pow10(7) == 10000000 && Pow10(8) == 100000000 && Pow10(9) == 1000000000
    ensures Pow10(10) == 10000000000 && Pow10(11) == 100000000000 && Pow10(12) == 1000000000000
  {
    assert Pow10(3) == 1000;
    assert Pow10(6) == 1000000;
    assert Pow10(9) == 1000000000;
  }

  lemma DropDigit(v: nat)
    requires v >= 10
    ensures |Digits(v)| == |Digits(v / 10)| + 1
  {
  }

  lemma {:induction false} DropDigits(v: nat, k: nat)
    requires v >= Pow10(k)
    ensures |Digits(v)| == |Digits(v / Pow10(k))| + if v / Pow10(k) > 0 then k else 0
    decreases k
  {
    if k > 0 {
      DropDigit(v);
      DropDigits(v / 10, k - 1);
      DivTwice(v, Pow10(k - 1));
    }
  }

  lemma DivTwice(v: nat, p: nat)
    requires p >= 1
    ensures v / 10 / p == v / (10 * p)
    ensures v >= 10 * p ==> v / 10 >= p && v / (10 * p) > 0
  {
    var q, r := v / (10 * p), v % (10 * p);
    assert v == q * (10 * p) + r;
    assert v / 10 == q * p + r / 10 by {
      assert v == 10 * (q * p) + r;
    }
    assert r / 10 < p;
    DivUnique(v / 10, p, q, r / 10);
  }

  lemma DivUnique(a: nat, p: nat, q: nat, r: nat)
    requires p >= 1 && a == q * p + r && r < p
    ensures a / p == q
  {
    ModUnique(a, p, q, r);
  }

  lemma {:induction false} Digits10Counts(v: nat)
    ensures Digits10(v) == |Digits(v)|
    decreases v
  {
    Powers();
    hide Pow10;
    if v >= 1000000000000 {
      DropDigits(v, 12);
      DivTwice(v, 100000000000);
      Digits10Counts(v / 1000000000000);
    } else {
      SmallCounts(v);
    }
  }

  lemma SmallCounts(v: nat)
    requires v < 1000000000000
    ensures Digits10(v) == |Digits(v)|
  {
    Powers();
    var k := Digits10(v) - 1;
    if v >= 10 {
      hide Digits, Pow10;
      assert Pow10(k) <= v < Pow10(k + 1);
      CountDigits(v, k);
    }
  }

  /** The pairs of digits with the same first digit. */
  function Tens(t: byte): (row: seq<byte>)
    ensures |row| == 20
  {
    [t, 48, t, 49, t, 50, t, 51, t, 52, t, 53, t, 54, t, 55, t, 56, t, 57]
  }

  /** The table of all pairs of digits. */
  const DIGITS: seq<byte> :=
    Tens(48) + Tens(49) + Tens(50) + Tens(51) + Tens(52) + Tens(53) + Tens(54) + Tens(55) + Tens(56) + Tens(57)

  lemma TensRight(t: byte, i: nat)
    requires i < 10
    ensures Tens(t)[2 * i] == t && Tens(t)[2 * i + 1] == 48 + i
  {
    var row := Tens(t);
    assert row[0] == t && row[1] == 48 && row[2] == t && row[3] == 49 && row[4] == t && row[5] == 50;
    assert row[6] == t && row[7] == 51 && row[8] == t && row[9] == 52 && row[10] == t && row[11] == 53;
    assert row[12] == t && row[13] == 54 && row[14] == t && row[15] == 55 && row[16] == t && row[17] == 56;
    assert row[18] == t && row[19] == 57;
  }

  lemma RowOf(i: nat)
    requires i < 200
    ensures |DIGITS| == 200 && DIGITS[i] == Tens(48 + i / 20)[i % 20]
  {
    hide Tens;
  }

  /** The pair for `i` is its two digits. */
  lemma TableRight(i: nat)
    requires i < 100
    ensures |DIGITS| == 200 && DIGITS[2 * i] == 48 + i / 10 && DIGITS[2 * i + 1] == 48 + i % 10
  {
    hide DIGITS, Tens;
    RowOf(2 * i);
    RowOf(2 * i + 1);
    TensRight(48 + i / 10, i % 10);
  }

  lemma TwoDigits(v: nat)
    requires v >= 10
    ensures v < 100 ==> Digits(v) == [48 + v / 10, 48 + v % 10]
    ensures v >= 100 ==> Digits(v) == Digits(v / 100) + [48 + v % 100 / 10, 48 + v % 100 % 10]
  {
    if v >= 100 {
      assert v / 10 / 10 == v / 100 && v / 10 % 10 == v % 100 / 10 && v % 10 == v % 100 % 10;
      assert Digits(v) == Digits(v / 10) + [48 + v % 10];
      assert Digits(v / 10) == Digits(v / 10 / 10) + [48 + v / 10 % 10];
    } else {
      assert Digits(v) == Digits(v / 10) + [48 + v % 10];
    }
  }

  /** ll2string: 0 when the text and its terminator do not fit; otherwise the text, whose length is returned. */
  method Ll2string(dst: array<byte>, dstlen: nat, svalue: int) returns (length: nat)
    requires LLONG_MIN <= svalue <= LLONG_MAX && dstlen <= dst.Length
    modifies dst
    ensures if |Print(svalue)| >= dstlen then length == 0 && dst[..] == old(dst[..])
            else length == |Print(svalue)| && dst[..length] == Print(svalue) && dst[length] == 0
                 && dst[length + 1..] == old(dst[length + 1..])
  {
    hide Digits10, DIGITS, Digits;
    var value: nat := if svalue >= 0 then svalue else if svalue != LLONG_MIN then -svalue else LLONG_MAX + 1;
    var negative := if svalue < 0 then 1 else 0;
    ghost var all := Digits(value);
    Digits10Counts(value);
    NotEmptyDigits(value);
    length := Digits10(value) + negative;
    if length >= dstlen {
      return 0;
    }
    var next := length;
    dst[next] := 0;
    next := next - 1;
    assert dst[next + 1..length] == [] && all + [] == all;
    while value >= 100
      invariant Suffix(dst, all, value, negative, next, length) && dst[length] == 0
      invariant dst[length + 1..] == old(dst[length + 1..])
    {
      value, next := WritePair(dst, all, value, negative, next, length);
    }
    WriteLast(dst, all, value, negative, next, length);
    if negative == 1 {
      dst[0] := MINUS;
      assert dst[..length] == [MINUS] + dst[1..length];
    }
  }

  /** The digits `all` that remain to be written, from position `next` down, are those of `value`. */
  ghost predicate Suffix(dst: array<byte>, all: seq<byte>, value: nat, negative: nat, next: int, length: nat)
    reads dst
  {
    && negative <= next < length < dst.Length && |Digits(value)| == next + 1 - negative
    && all == Digits(value) + dst[next + 1..length]
  }

  /** The last two digits of `value`. */
  method WritePair(dst: array<byte>, ghost all: seq<byte>, value: nat, ghost negative: nat, next: nat,
                   ghost length: nat)
    returns (value': nat, next': nat)
    requires Suffix(dst, all, value, negative, next, length) && value >= 100
    modifies dst
    ensures Suffix(dst, all, value', negative, next', length) && value' == value / 100
    ensures forall k :: length <= k < dst.Length ==> dst[k] == old(dst[k])
  {
    hide Digits, DIGITS;
    var i := value % 100 * 2;
    TwoDigits(value);
    TableRight(value % 100);
    NotEmptyDigits(value / 100);
    ghost var tail := dst[next + 1..length];
    value' := value / 100;
    dst[next] := DIGITS[i + 1];
    dst[next - 1] := DIGITS[i];
    next' := next - 2;
    assert dst[next' + 1..length] == [dst[next' + 1], dst[next' + 2]] + tail;
  }

  /** The last one or two digits. */
  method WriteLast(dst: array<byte>, ghost all: seq<byte>, value: nat, ghost negative: nat, next: nat,
                   ghost length: nat)
    requires Suffix(dst, all, value, negative, next, length) && value < 100
    modifies dst
    ensures dst[negative..length] == all && forall k :: length <= k < dst.Length ==> dst[k] == old(dst[k])
  {
    hide DIGITS;
    ghost var tail := dst[next + 1..length];
    if value < 10 {
      dst[next] := ZERO as int + value;
      assert dst[negative..length] == [dst[negative]] + tail;
    } else {
      var i := value * 2;
      TwoDigits(value);
      TableRight(value);
      dst[next] := DIGITS[i + 1];
      dst[next - 1] := DIGITS[i];
      assert dst[negative..length] == [dst[negative], dst[negative + 1]] + tail;
    }
  }

  lemma NotEmptyDigits(v: nat)
    ensures |Digits(v)| >= 1
  {
  }
}
