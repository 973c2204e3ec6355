/**
 String values in a dump (rdb.c): lengths, integers and compressed strings. `LoadString` is what the loader
 makes of a stream; saving is proved to write something from which it gets the string back.
 */
module Rdb {
  import opened Bytes
  import opened Decimal
  import opened Endian
  import opened Rio
  import opened Wrappers
  import Lzf

  const ENC_INT8 := 0
  const ENC_INT16 := 1
  const ENC_INT32 := 2
  const ENC_LZF := 3
  const LENERR: nat := 0xffff_ffff

  type Len = n: nat | n < 0x1_0000_0000

  // ----- Lengths -----

  function LenBytes(len: Len): (s: seq<byte>)
    ensures |s| >= 1
  {
    if len < 0x40 then [len]
    else if len < 0x4000 then [len / 0x100 + 0x40, len % 0x100]
    else [0x80, len / 0x100_0000, len / 0x1_0000 % 0x100, len / 0x100 % 0x100, len % 0x100]
  }

  /** The length or encoding number at the head of a stream; None at its end. */
  datatype Length = Length(encoded: bool, len: Len, used: nat)

  function ReadLength(s: seq<byte>): Option<Length> {
    if s == [] then None
    else
      var head := s[0] as int;
      if head / 0x40 == 3 then Some(Length(true, head % 0x40, 1))
      else if head / 0x40 == 0 then Some(Length(false, head % 0x40, 1))
      else if head / 0x40 == 1 then
        if |s| < 2 then None else Some(Length(false, head % 0x40 * 0x100 + s[1] as int, 2))
      else
        if |s| < 5 then None
        else Some(Length(false, s[1] as int * 0x100_0000 + s[2] as int * 0x1_0000 + s[3] as int * 0x100 + s[4] as int,
                         5))
  }

  /** A length is read back whatever follows it. */
  lemma LengthRoundTrip(len: Len, rest: seq<byte>)
    ensures ReadLength(LenBytes(len) + rest) == Some(Length(false, len, |LenBytes(len)|))
  {
    var s := LenBytes(len) + rest;
    if 0x4000 <= len {
      assert s[0] == 0x80 && |s| >= 5;
      assert s[1] == len / 0x100_0000 && s[2] == len / 0x1_0000 % 0x100 && s[3] == len / 0x100 % 0x100 && s[4] == len % 0x100;
      Digits256(len);
    }
  }

  lemma Digits256(n: nat)
    ensures n == n / 0x100_0000 * 0x100_0000 + n / 0x1_0000 % 0x100 * 0x1_0000 + n / 0x100 % 0x100 * 0x100 + n % 0x100
  {
    assert n / 0x100 / 0x100 == n / 0x1_0000 && n / 0x1_0000 / 0x100 == n / 0x100_0000;
  }

  // ----- Integers -----

  /** The width an integer is saved in, 0 when it has no integer encoding. */
  function Width(v: int): nat {
    if -0x80 <= v <= 0x7f then 1
    else if -0x8000 <= v <= 0x7fff then 2
    else if -0x8000_0000 <= v <= 0x7fff_ffff then 4
    else 0
  }

  lemma WidthFits(v: int)
    requires Width(v) > 0
    ensures FitsBytes(v, Width(v)) && ToUnsigned(v, Width(v)) < Power256(Width(v))
    ensures ToSigned(ToUnsigned(v, Width(v)), Width(v)) == v
  {
    assert Power256(1) == 0x100 && Power256(2) == 0x1_0000;
    assert Power256(3) == 0x100_0000 && Power256(4) == 0x1_0000_0000;
    Wrap(v, Power256(Width(v)));
  }

  function WidthOf(enc: nat): nat
    requires enc <= ENC_INT32
  {
    if enc == ENC_INT8 then 1 else if enc == ENC_INT16 then 2 else 4
  }

  /** rdbEncodeInteger: empty when the value does not fit. */
  function IntegerBytes(v: int): seq<byte> {
    if Width(v) == 0 then []
    else [0xc0 + (if Width(v) == 1 then ENC_INT8 else if Width(v) == 2 then ENC_INT16 else ENC_INT32)]
         + LittleEndian(ToUnsigned(v, Width(v)), Width(v))
  }

  // ----- What the loader returns -----

  /** A string and how much of the stream it took; NULL; or the panic on an unknown encoding. */
  datatype Loaded = Loaded(data: seq<byte>, used: nat) | Null | Panic

  function LoadInteger(s: seq<byte>, enc: nat, at: nat): Loaded
    requires enc <= ENC_INT32 && at <= |s|
  {
    var n := WidthOf(enc);
    if at + n > |s| then Null
    else Loaded(Print(ToSigned(FromLittleEndian(s[at..at + n]), n)), at + n)
  }

  function Zeros(n: nat): (s: seq<byte>)
    ensures |s| == n
  {
    seq(n, _ => 0)
  }

  /** The two lengths are read without looking at the encoding bit. */
  function LoadLzf(s: seq<byte>, at: nat): Loaded
    requires at <= |s|
  {
    match ReadLength(s[at..])
    case None => Null
    case Some(Length(_, clen, used1)) =>
      if clen == LENERR || at + used1 > |s| then Null
      else match ReadLength(s[at + used1..])
        case None => Null
        case Some(Length(_, len, used2)) =>
          var from := at + used1 + used2;
          if len == LENERR || from + clen > |s| then Null
          else match Lzf.Decode(s[from..from + clen], [], len)
            case Data(data) =>
              if data == [] || |data| > len then Null else Loaded(data + Zeros(len - |data|), from + clen)
            case _ => Null
  }

  function LoadString(s: seq<byte>): Loaded {
    match ReadLength(s)
    case None => Null
    case Some(Length(encoded, len, used)) =>
      if used > |s| then Null
      else if encoded then
        if len <= ENC_INT32 then LoadInteger(s, len, used)
        else if len == ENC_LZF then LoadLzf(s, used)
        else Panic
      else if len == LENERR || used + len > |s| then Null
      else Loaded(s[used..used + len], used + len)
  }

  /** `w` is a way to write `data`: it loads as that, and what follows is left alone. */
  ghost predicate Encodes(w: seq<byte>, data: seq<byte>) {
    forall rest :: LoadString(w + rest) == Loaded(data, |w|)
  }

  // ----- Each way of writing loads back -----

  lemma IntegerEncodes(v: int)
    requires Width(v) > 0
    ensures Encodes(IntegerBytes(v), Print(v))
  {
    var w, n := IntegerBytes(v), Width(v);
    forall rest
      ensures LoadString(w + rest) == Loaded(Print(v), |w|)
    {
      hide Print, LittleEndian, FromLittleEndian, ToSigned, ToUnsigned;
      var s := w + rest;
      var bytes := LittleEndian(ToUnsigned(v, n), n);
      assert s[1..1 + n] == bytes;
      WidthFits(v);
      LittleEndianRoundTrip(ToUnsigned(v, n), n);
    }
  }

  lemma PlainEncodes(data: seq<byte>)
    requires |data| < LENERR
    ensures Encodes(LenBytes(|data|) + data, data)
  {
    hide LenBytes;
    var head := LenBytes(|data|);
    forall rest
      ensures LoadString(head + data + rest) == Loaded(data, |head + data|)
    {
      LengthRoundTrip(|data|, data + rest);
      assert head + data + rest == head + (data + rest);
      assert (head + data + rest)[|head|..|head| + |data|] == data;
    }
  }

  /** A string as it is saved without compression. */
  function Uncompressed(s: seq<byte>): seq<byte>
    requires |s| < LENERR
  {
    if |s| <= 11 && Parse(s).Some? && Width(Parse(s).value) > 0 then IntegerBytes(Parse(s).value)
    else LenBytes(|s|) + s
  }

  function LzfBytes(clen: Len, len: Len, out: seq<byte>): seq<byte> {
    [0xc0 + ENC_LZF] + LenBytes(clen) + LenBytes(len) + out
  }

  lemma LzfEncodes(out: seq<byte>, data: seq<byte>)
    requires 0 < |out| < LENERR && 0 < |data| < LENERR && Lzf.Decode(out, [], |data|) == Lzf.Data(data)
    ensures Encodes(LzfBytes(|out|, |data|, out), data)
  {
    hide LzfBytes, LoadLzf;
    var w := LzfBytes(|out|, |data|, out);
    forall rest
      ensures LoadString(w + rest) == Loaded(data, |w|)
    {
      LzfSlices(|out|, |data|, out, rest);
      LzfHead(w + rest);
      LzfBody(out, data, rest);
    }
  }

  lemma LzfSlices(clen: Len, len: Len, out: seq<byte>, rest: seq<byte>)
    ensures var s, from := LzfBytes(clen, len, out) + rest, 1 + |LenBytes(clen)| + |LenBytes(len)|;
            && |LzfBytes(clen, len, out)| == from + |out| && s != [] && s[0] == 0xc0 + ENC_LZF
            && s[1..] == LenBytes(clen) + (LenBytes(len) + out + rest)
            && s[1 + |LenBytes(clen)|..] == LenBytes(len) + (out + rest)
            && s[from..from + |out|] == out
  {
    hide LenBytes;
  }

  lemma LzfBody(out: seq<byte>, data: seq<byte>, rest: seq<byte>)
    requires 0 < |out| < LENERR && 0 < |data| < LENERR && Lzf.Decode(out, [], |data|) == Lzf.Data(data)
    ensures |LzfBytes(|out|, |data|, out)| > 0
    ensures LoadLzf(LzfBytes(|out|, |data|, out) + rest, 1) == Loaded(data, |LzfBytes(|out|, |data|, out)|)
  {
    hide LenBytes, ReadLength, Lzf.Decode, LzfBytes;
    LzfSlices(|out|, |data|, out, rest);
    LengthRoundTrip(|out|, LenBytes(|data|) + out + rest);
    LengthRoundTrip(|data|, out + rest);
    assert data + Zeros(0) == data;
  }

  lemma LzfHead(s: seq<byte>)
    requires s != [] && s[0] == 0xc0 + ENC_LZF
    ensures ReadLength(s) == Some(Length(true, ENC_LZF, 1))
  {
  }

  // ----- strtoll -----

  predicate IsSpace(b: byte) { b == 32 || 9 <= b <= 13 }

  /** How many blanks `s` starts with. */
  function Blanks(s: seq<byte>): (n: nat)
    ensures n <= |s|
  {
    if s == [] || !IsSpace(s[0]) then 0 else 1 + Blanks(s[1..])
  }

  function Clamp(v: int): int {
    if v < LLONG_MIN then LLONG_MIN else if v > LLONG_MAX then LLONG_MAX else v
  }

  const PLUS: byte := 43

  /** The sign and digits at the head of `t`: value and size, None without a digit. */
  function SignedNumber(t: seq<byte>): (r: Option<(int, nat)>)
    ensures r.Some? ==> r.value.1 <= |t|
  {
    var signed := t != [] && (t[0] == MINUS || t[0] == PLUS);
    var digits := if signed then t[1..] else t;
    var d := LeadingDigits(digits);
    if d == 0 then None
    else
      var v: int := Value(digits[..d]);
      Some((if signed && t[0] == MINUS then -v else v, (if signed then 1 else 0) + d))
  }

  /** strtoll in base 10 on a zero-terminated string: the value and the position where it stopped. */
  function Strtoll(s: seq<byte>): (r: (int, nat))
    ensures r.1 <= |s|
  {
    match SignedNumber(s[Blanks(s)..])
    case None => (0, 0)
    case Some((v, n)) => (Clamp(v), Blanks(s) + n)
  }

  lemma SignedPrinted(v: int)
    ensures SignedNumber(Print(v)) == Some((v, |Print(v)|)) && Blanks(Print(v)) == 0
  {
    var m: nat := if v < 0 then -v else v;
    var d := Digits(m);
    assert d != [] && IsDigit(d[0]) && AllDigits(d) && Value(d) == m by {
      DigitsCanonical(m);
    }
    hide AllDigits, Value, Digits, LeadingDigits;
    var none: seq<byte> := [];
    LeadingDigitsExact(d, none);
    assert d + none == d && d[..|d|] == d;
    if v < 0 {
      assert Print(v)[1..] == d;
    }
  }

  /** On a printed number strtoll takes all of it. */
  lemma StrtollPrinted(v: int)
    requires LLONG_MIN <= v <= LLONG_MAX
    ensures Strtoll(Print(v)) == (v, |Print(v)|)
  {
    hide SignedNumber, Blanks, Print;
    SignedPrinted(v);
    assert Print(v)[0..] == Print(v);
  }

  // ----- Saving -----

  /** rdbWriteRaw: a null stream only counts. */
  method WriteRaw<C(!new)>(rdb: Stream?<C>, p: seq<byte>) returns (n: int)
    requires rdb != null ==> rdb.Valid()
    modifies if rdb != null then {rdb} else {}
    ensures n == |p| || (n == -1 && rdb != null)
    ensures rdb != null ==> rdb.Valid() && old(rdb.ptr) <= rdb.ptr && (n != -1 ==> rdb.ptr == old(rdb.ptr) + p)
  {
    if rdb != null {
      var ok := rdb.Write(p);
      if !ok {
        return -1;
      }
    }
    n := |p|;
  }

  /** rdbSaveLen. */
  method SaveLen<C(!new)>(rdb: Stream?<C>, len: Len) returns (n: int)
    requires rdb != null ==> rdb.Valid()
    modifies if rdb != null then {rdb} else {}
    ensures n == |LenBytes(len)| || (n == -1 && rdb != null)
    ensures rdb != null ==> rdb.Valid() && old(rdb.ptr) <= rdb.ptr && (n != -1 ==> rdb.ptr == old(rdb.ptr) + LenBytes(len))
  {
    if len < 0x40 {
      n := WriteRaw(rdb, [len]);
    } else if len < 0x4000 {
      n := WriteRaw(rdb, [len / 0x100 + 0x40, len % 0x100]);
    } else {
      n := WriteRaw(rdb, [0x80]);
      if n == -1 {
        return -1;
      }
      n := WriteRaw(rdb, [len / 0x100_0000, len / 0x1_0000 % 0x100, len / 0x100 % 0x100, len % 0x100]);
      if n == -1 {
        return -1;
      }
      n := 1 + 4;
    }
  }

  /** rdbTryIntegerEncoding: exactly the numbers of at most 32 bits in canonical form are encoded. */
  method TryIntegerEncoding(s: seq<byte>) returns (enc: seq<byte>)
    ensures enc == match Parse(s) case Some(v) => IntegerBytes(v) case None => []
  {
    hide Parse, Print, IntegerBytes, Strtoll;
    var (value, endptr) := Strtoll(s);
    if Parse(s).Some? {
      PrintParsed(s);
      ParsePrinted(Parse(s).value);
      StrtollPrinted(Parse(s).value);
    }
    if endptr < |s| && s[endptr] != 0 {
      return [];
    }
    StrtollRange(s);
    var buf := Print(value);
    ParseIffPrinted(s, value);
    if |buf| != |s| || buf != s {
      return [];
    }
    enc := IntegerBytes(value);
  }

  lemma StrtollRange(s: seq<byte>)
    ensures LLONG_MIN <= Strtoll(s).0 <= LLONG_MAX
  {
  }

  /** rdbSaveLzfStringObject; 0 when the string is short or does not compress. The scratch buffer has one byte
      more than the compressor is told, and the input sits at some address the compressor can look behind. */
  method SaveLzf<C(!new)>(rdb: Stream?<C>, s: seq<byte>) returns (n: int, ghost w: seq<byte>)
    requires |s| < 0x7fff_ff00 && (rdb != null ==> rdb.Valid())
    modifies if rdb != null then {rdb} else {}
    ensures n == -1 ==> rdb != null
    ensures n == 0 || n == -1 || (n == |w| && Encodes(w, s))
    ensures n > 0 ==> w != [] && w[0] == 0xc0 + ENC_LZF
    ensures rdb != null ==> rdb.Valid() && old(rdb.ptr) <= rdb.ptr
    ensures rdb != null && n == 0 ==> rdb.ptr == old(rdb.ptr)
    ensures rdb != null && n > 0 ==> rdb.ptr == old(rdb.ptr) + w
  {
    hide Encodes, Lzf.Decode, LenBytes;
    w := [];
    if |s| <= 4 {
      return 0, w;
    }
    var outlen := |s| - 4;
    var out := new byte[outlen + 1];
    var base: Lzf.Address :| Lzf.MAX_OFF <= base && base + |s| < Lzf.WORD64;
    var comprlen := Lzf.Compress(s, out, outlen, base);
    if comprlen == 0 {
      return 0, w;
    }
    var compressed := out[..comprlen];
    w := LzfBytes(comprlen, |s|, compressed);
    LzfEncodes(compressed, s);
    var nwritten := 0;
    n := WriteRaw(rdb, [0xc0 + ENC_LZF]);
    if n == -1 {
      return;
    }
    nwritten := nwritten + n;
    n := SaveLen(rdb, comprlen);
    if n == -1 {
      return;
    }
    nwritten := nwritten + n;
    n := SaveLen(rdb, |s|);
    if n == -1 {
      return;
    }
    nwritten := nwritten + n;
    n := WriteRaw(rdb, compressed);
    if n == -1 {
      return;
    }
    n := nwritten + n;
  }

  /**
   rdbSaveRawString: the count that is returned is that of the bytes written, and they load back as `s` with
   whatever follows untouched. Without a stream, nothing is written and the count is the same kind.
   */
  method SaveRawString<C(!new)>(rdb: Stream?<C>, s: seq<byte>, compression: bool) returns (n: int, ghost w: seq<byte>)
    requires |s| < 0x7fff_ff00 && (rdb != null ==> rdb.Valid())
    modifies if rdb != null then {rdb} else {}
    ensures n == -1 ==> rdb != null
    ensures n != -1 ==> n == |w| && Encodes(w, s)
    ensures n != -1 ==> w == Uncompressed(s) || (compression && |s| > 20 && w != [] && w[0] == 0xc0 + ENC_LZF)
    ensures rdb != null ==> rdb.Valid() && old(rdb.ptr) <= rdb.ptr
    ensures rdb != null && n != -1 ==> rdb.ptr == old(rdb.ptr) + w
  {
    hide Encodes, LenBytes, IntegerBytes, Print, Parse, Uncompressed;
    w := [];
    UncompressedIs(s);
    if |s| <= 11 {
      var enc := TryIntegerEncoding(s);
      if |enc| > 0 {
        w := enc;
        IntegerOf(s);
        n := WriteRaw(rdb, enc);
        return;
      }
    }
    if compression && |s| > 20 {
      n, w := SaveLzf(rdb, s);
      if n == -1 {
        return;
      }
      if n > 0 {
        return;
      }
    }
    PlainEncodes(s);
    w := LenBytes(|s|) + s;
    n := SaveLen(rdb, |s|);
    if n == -1 {
      return;
    }
    var nwritten := n;
    if |s| > 0 {
      n := WriteRaw(rdb, s);
      if n == -1 {
        return;
      }
      nwritten := nwritten + |s|;
    }
    n := nwritten;
  }

  lemma UncompressedIs(s: seq<byte>)
    requires |s| < LENERR
    ensures Uncompressed(s) == if |s| <= 11 && Parse(s).Some? && IntegerBytes(Parse(s).value) != []
                               then IntegerBytes(Parse(s).value) else LenBytes(|s|) + s
  {
    hide Parse, LenBytes, LittleEndian;
  }

  lemma IntegerOf(s: seq<byte>)
    requires Parse(s).Some? && IntegerBytes(Parse(s).value) != []
    ensures Encodes(IntegerBytes(Parse(s).value), s)
  {
    hide Encodes, Parse, Print;
    PrintParsed(s);
    assert Width(Parse(s).value) > 0;
    IntegerEncodes(Parse(s).value);
  }

  /** rdbSaveLongLongAsStringObject: the printed number comes back. */
  method SaveLongLong<C(!new)>(rdb: Stream?<C>, value: int) returns (n: int, ghost w: seq<byte>)
    requires LLONG_MIN <= value <= LLONG_MAX && (rdb != null ==> rdb.Valid())
    modifies if rdb != null then {rdb} else {}
    ensures n == -1 ==> rdb != null
    ensures n != -1 ==> n == |w| && Encodes(w, Print(value))
    ensures rdb != null ==> rdb.Valid() && old(rdb.ptr) <= rdb.ptr
    ensures rdb != null && n != -1 ==> rdb.ptr == old(rdb.ptr) + w
  {
    hide Encodes, LenBytes, Print, LittleEndian;
    var buf := IntegerBytes(value);
    w := buf;
    if |buf| > 0 {
      IntegerEncodes(value);
      n := WriteRaw(rdb, buf);
      return;
    }
    buf := Print(value);
    PrintLength(value);
    PlainEncodes(buf);
    w := LenBytes(|buf|) + buf;
    n := SaveLen(rdb, |buf|);
    if n == -1 {
      return;
    }
    var nwritten := n;
    n := WriteRaw(rdb, buf);
    if n == -1 {
      return;
    }
    n := nwritten + n;
  }

  /** A string object: its bytes, or a number that is kept as one. */
  datatype StringObject = Raw(bytes: seq<byte>) | Int(value: int) {
    predicate Fits() {
      if Raw? then |bytes| < 0x7fff_ff00 else LLONG_MIN <= value <= LLONG_MAX
    }

    function Text(): seq<byte> {
      if Raw? then bytes else Print(value)
    }
  }

  /** rdbSaveStringObject. */
  method SaveStringObject<C(!new)>(rdb: Stream?<C>, o: StringObject, compression: bool)
    returns (n: int, ghost w: seq<byte>)
    requires o.Fits() && (rdb != null ==> rdb.Valid())
    modifies if rdb != null then {rdb} else {}
    ensures n == -1 ==> rdb != null
    ensures n != -1 ==> n == |w| && Encodes(w, o.Text())
    ensures rdb != null ==> rdb.Valid() && old(rdb.ptr) <= rdb.ptr
    ensures rdb != null && n != -1 ==> rdb.ptr == old(rdb.ptr) + w
  {
    hide Encodes, Print, Uncompressed;
    match o
    case Int(value) => n, w := SaveLongLong(rdb, value);
    case Raw(bytes) => n, w := SaveRawString(rdb, bytes, compression);
  }

  /** The assertion on ll2string's result in rdbSaveLongLongAsStringObject. */
  lemma PrintLength(v: int)
    requires LLONG_MIN <= v <= LLONG_MAX
    ensures |Print(v)| < 32
  {
    var m: nat := if v < 0 then -v else v;
    assert Pow10(7) == 10_000_000;
    assert Pow10(14) == 100_000_000_000_000;
    assert Pow10(20) == 100_000_000_000_000_000_000;
    DigitsLength(m, 20, Pow10(20));
  }

  // ----- Loading -----

  /** rdbLoadLen: None for the end of the stream. */
  method LoadLen<C(!new)>(rdb: Stream<C>) returns (r: Option<Length>)
    requires rdb.Valid()
    modifies rdb
    ensures rdb.Valid() && rdb.ptr == old(rdb.ptr)
    ensures r == ReadLength(old(rdb.ptr[rdb.pos..]))
    ensures r.Some? ==> rdb.pos == old(rdb.pos) + r.value.used
  {
    ghost var s := rdb.ptr[rdb.pos..];
    var ok, buf := rdb.Read(1);
    if !ok {
      return None;
    }
    var kind := buf[0] as int / 0x40;
    if kind == 3 {
      r := Some(Length(true, buf[0] as int % 0x40, 1));
    } else if kind == 0 {
      r := Some(Length(false, buf[0] as int % 0x40, 1));
    } else if kind == 1 {
      var more, b := rdb.Read(1);
      if !more {
        return None;
      }
      r := Some(Length(false, buf[0] as int % 0x40 * 0x100 + b[0] as int, 2));
    } else {
      var more, b := rdb.Read(4);
      if !more {
        return None;
      }
      assert forall k :: 0 <= k < 4 ==> b[k] == s[1 + k];
      r := Some(Length(false, b[0] as int * 0x100_0000 + b[1] as int * 0x1_0000 + b[2] as int * 0x100 + b[3] as int,
                       5));
    }
  }

  /** rdbLoadIntegerObject, for one of the three integer encodings. */
  method LoadIntegerObject<C(!new)>(rdb: Stream<C>, enctype: nat) returns (o: Option<seq<byte>>)
    requires rdb.Valid() && enctype <= ENC_INT32
    modifies rdb
    ensures rdb.Valid() && rdb.ptr == old(rdb.ptr)
    ensures Matches(LoadInteger(old(rdb.ptr), enctype, old(rdb.pos)), o, rdb.pos)
  {
    hide FromLittleEndian, Print, ToSigned;
    var ok: bool, enc: seq<byte>, val: int;
    if enctype == ENC_INT8 {
      ok, enc := rdb.Read(1);
      if !ok {
        return None;
      }
      val := ToSigned(FromLittleEndian(enc), 1);
    } else if enctype == ENC_INT16 {
      ok, enc := rdb.Read(2);
      if !ok {
        return None;
      }
      val := ToSigned(FromLittleEndian(enc), 2);
    } else {
      ok, enc := rdb.Read(4);
      if !ok {
        return None;
      }
      val := ToSigned(FromLittleEndian(enc), 4);
    }
    o := Some(Print(val));
  }

  /** The object that is returned, and on success the stream position, are as the specification says. */
  ghost predicate Matches(r: Loaded, o: Option<seq<byte>>, pos: nat) {
    match r
    case Loaded(data, used) => o == Some(data) && pos == used
    case Null => o == None
    case Panic => true
  }

  /** rdbLoadLzfStringObject. A compressed length of 0 is refused here; lzf_decompress would read a byte first. */
  method LoadLzfObject<C(!new)>(rdb: Stream<C>) returns (o: Option<seq<byte>>)
    requires rdb.Valid()
    modifies rdb
    ensures rdb.Valid() && rdb.ptr == old(rdb.ptr)
    ensures Matches(LoadLzf(old(rdb.ptr), old(rdb.pos)), o, rdb.pos)
  {
    hide ReadLength, Lzf.Decode;
    var clen := LoadLen(rdb);
    if clen == None || clen.value.len == LENERR {
      return None;
    }
    var len := LoadLen(rdb);
    if len == None || len.value.len == LENERR {
      return None;
    }
    var ok, c := rdb.Read(clen.value.len);
    if !ok {
      return None;
    }
    EmptyDecodes(len.value.len);
    if c == [] {
      return None;
    }
    var val := new byte[len.value.len](_ => 0);
    var n, err := Lzf.Decompress(c, val);
    if n == 0 {
      return None;
    }
    o := Some(val[..]);
    assert val[..] == val[..n] + val[n..];
    assert val[n..] == Zeros(len.value.len - n);
  }

  lemma EmptyDecodes(cap: nat)
    ensures Lzf.Decode([], [], cap) == Lzf.Data([])
  {
  }

  /** rdbGenericLoadStringObject; the object's text stands for either encoding of a number. */
  method LoadStringObject<C(!new)>(rdb: Stream<C>) returns (o: Option<seq<byte>>)
    requires rdb.Valid() && !LoadString(rdb.ptr[rdb.pos..]).Panic?
    modifies rdb
    ensures rdb.Valid() && rdb.ptr == old(rdb.ptr)
    ensures match LoadString(old(rdb.ptr[rdb.pos..]))
            case Loaded(data, used) => o == Some(data) && rdb.pos == old(rdb.pos) + used
            case _ => o == None
  {
    hide ReadLength, LoadInteger, LoadLzf;
    var p, s := rdb.ptr, rdb.pos;
    var l := LoadLen(rdb);
    if l == None {
      return None;
    }
    var len := l.value.len;
    if l.value.encoded {
      if len <= ENC_INT32 {
        Shift(p, s, len, l.value.used);
        o := LoadIntegerObject(rdb, len);
      } else {
        ShiftLzf(p, s, l.value.used);
        o := LoadLzfObject(rdb);
      }
      return;
    }
    if len == LENERR {
      return None;
    }
    var ok, val := rdb.Read(len);
    if !ok {
      return None;
    }
    SliceOfSuffix(p, s, l.value.used, l.value.used + len);
    o := Some(val);
  }

  /** Loading behind `s` bytes that were read before is loading at an offset. */
  lemma Shift(p: seq<byte>, s: nat, enc: nat, at: nat)
    requires s + at <= |p| && enc <= ENC_INT32
    ensures LoadInteger(p, enc, s + at) == Moved(LoadInteger(p[s..], enc, at), s)
  {
    if s + at + WidthOf(enc) <= |p| {
      SliceOfSuffix(p, s, at, at + WidthOf(enc));
    }
  }

  function Moved(r: Loaded, s: nat): Loaded {
    if r.Loaded? then Loaded(r.data, s + r.used) else r
  }

  lemma ShiftLzf(p: seq<byte>, s: nat, at: nat)
    requires s + at <= |p|
    ensures LoadLzf(p, s + at) == Moved(LoadLzf(p[s..], at), s)
  {
    hide ReadLength, Lzf.Decode;
    assert p[s..][at..] == p[s + at..];
    var l := ReadLength(p[s + at..]);
    if l.Some? && s + at + l.value.used <= |p| {
      var second := s + at + l.value.used;
      assert p[s..][at + l.value.used..] == p[second..];
      var m := ReadLength(p[second..]);
      if m.Some? && second + m.value.used + l.value.len <= |p| {
        SliceOfSuffix(p, s, second + m.value.used - s, second + m.value.used + l.value.len - s);
      }
    }
  }

  /** What one side saves, a reader at the end of what was there before gets back. */
  method SaveAndLoad<C(!new)>(rdb: Stream<C>, s: seq<byte>, compression: bool, rest: seq<byte>)
    returns (ok: bool, o: Option<seq<byte>>)
    requires rdb.Valid() && |s| < 0x7fff_ff00
    modifies rdb
    ensures ok ==> rdb.Valid() && o == Some(s) && rdb.ptr[rdb.pos..] == rest
  {
    hide Encodes, LoadString;
    var at := |rdb.ptr|;
    var n, w := SaveRawString(rdb, s, compression);
    if n == -1 {
      return false, None;
    }
    ok := rdb.Write(rest);
    if !ok {
      return false, None;
    }
    rdb.pos := at;
    assert rdb.ptr[at..] == w + rest;
    EncodesMeans(w, s, rest);
    o := LoadStringObject(rdb);
    assert rdb.ptr[rdb.pos..] == rest;
  }

  lemma EncodesMeans(w: seq<byte>, data: seq<byte>, rest: seq<byte>)
    requires Encodes(w, data)
    ensures LoadString(w + rest) == Loaded(data, |w|)
  {
  }
}
