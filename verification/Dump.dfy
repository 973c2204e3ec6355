/**
 DUMP payloads (migrate.c): a serialized value, the format version and a checksum over both.
 */
module Dump {
  import opened Bytes
  import opened Crc
  import opened Rio
  import Rdb

  const REDIS_RDB_VERSION := 6

  /** One byte of a word. */
  function ByteOf(x: bv8): (b: byte) { x as int }

  lemma ByteOfInjective(x: bv8, y: bv8)
    requires ByteOf(x) == ByteOf(y)
    ensures x == y
  {
    assert (x as int) as bv8 == x && (y as int) as bv8 == y;
  }

  function Lane0(w: bv64): bv8 { (w & 0xff) as bv8 }

  function Lane1(w: bv64): bv8 { ((w >> 8) & 0xff) as bv8 }

  function Lane2(w: bv64): bv8 { ((w >> 16) & 0xff) as bv8 }

  function Lane3(w: bv64): bv8 { ((w >> 24) & 0xff) as bv8 }

  function Lane4(w: bv64): bv8 { ((w >> 32) & 0xff) as bv8 }

  function Lane5(w: bv64): bv8 { ((w >> 40) & 0xff) as bv8 }

  function Lane6(w: bv64): bv8 { ((w >> 48) & 0xff) as bv8 }

  function Lane7(w: bv64): bv8 { ((w >> 56) & 0xff) as bv8 }

  /** The eight bytes of a word in memory, little endian. */
  function WordBytes(w: bv64): (s: seq<byte>)
    ensures |s| == 8
  {
    [ByteOf(Lane0(w)), ByteOf(Lane1(w)), ByteOf(Lane2(w)), ByteOf(Lane3(w)),
     ByteOf(Lane4(w)), ByteOf(Lane5(w)), ByteOf(Lane6(w)), ByteOf(Lane7(w))]
  }

  lemma LanesInjective(v: bv64, w: bv64)
    requires Lane0(v) == Lane0(w) && Lane1(v) == Lane1(w) && Lane2(v) == Lane2(w) && Lane3(v) == Lane3(w)
    requires Lane4(v) == Lane4(w) && Lane5(v) == Lane5(w) && Lane6(v) == Lane6(w) && Lane7(v) == Lane7(w)
    ensures v == w
  {
  }

  lemma WordBytesInjective(v: bv64, w: bv64)
    requires WordBytes(v) == WordBytes(w)
    ensures v == w
  {
    hide ByteOf, Lane0, Lane1, Lane2, Lane3, Lane4, Lane5, Lane6, Lane7;
    var s, t := WordBytes(v), WordBytes(w);
    ByteOfInjective(Lane0(v), Lane0(w));
    assert s[1] == t[1];
    ByteOfInjective(Lane1(v), Lane1(w));
    assert s[2] == t[2];
    ByteOfInjective(Lane2(v), Lane2(w));
    assert s[3] == t[3];
    ByteOfInjective(Lane3(v), Lane3(w));
    assert s[4] == t[4];
    ByteOfInjective(Lane4(v), Lane4(w));
    assert s[5] == t[5];
    ByteOfInjective(Lane5(v), Lane5(w));
    assert s[6] == t[6];
    ByteOfInjective(Lane6(v), Lane6(w));
    assert s[7] == t[7];
    ByteOfInjective(Lane7(v), Lane7(w));
    LanesInjective(v, w);
  }

  // ----- Payloads -----

  /** What verifyDumpPayload accepts. */
  predicate Accepted(p: seq<byte>) {
    && |p| >= 10
    && p[|p| - 9] as int * 256 + p[|p| - 10] as int == REDIS_RDB_VERSION
    && p[|p| - 8..] == WordBytes(Crc64(0, p[..|p| - 8]))
  }

  /** The footer of createDumpPayload, behind the serialized object that is in the stream already. */
  method AppendFooter(payload: Stream<bv64>)
    requires payload.Valid()
    modifies payload`ptr
    ensures payload.Valid() && Accepted(payload.ptr) && payload.ptr[..|payload.ptr| - 10] == old(payload.ptr)
  {
    hide WordBytes, Crc64;
    ghost var body := payload.ptr;
    payload.ptr := payload.ptr + [REDIS_RDB_VERSION % 256, REDIS_RDB_VERSION / 256 % 256];
    var crc := Crc64Loop(0, payload.ptr);
    ghost var before := payload.ptr;
    payload.ptr := payload.ptr + WordBytes(crc);
    ghost var p := payload.ptr;
    assert p[..|p| - 8] == before && p[|p| - 8..] == WordBytes(crc);
    assert p[..|p| - 10] == body;
    assert p[|p| - 10] == 6 && p[|p| - 9] == 0;
  }

  /** verifyDumpPayload. */
  method VerifyDumpPayload(p: seq<byte>) returns (ok: bool)
    ensures ok <==> Accepted(p)
  {
    hide WordBytes, Crc64;
    if |p| < 10 {
      return false;
    }
    var footer := |p| - 10;
    var rdbver := p[footer + 1] as int * 256 + p[footer] as int;
    if rdbver != REDIS_RDB_VERSION {
      return false;
    }
    var crc := Crc64Loop(0, p[..|p| - 8]);
    ok := WordBytes(crc) == p[footer + 2..];
  }

  /** A payload that is accepted is accepted in no version that differs from it in exactly one byte. */
  lemma OneByteRejected(p: seq<byte>, q: seq<byte>, i: nat)
    requires Accepted(p) && |q| == |p| && i < |p| && q[i] != p[i]
    requires q[..i] == p[..i] && q[i + 1..] == p[i + 1..]
    ensures !Accepted(q)
  {
    hide WordBytes, Crc64;
    var n := |p| - 8;
    assert forall k :: 0 <= k < i ==> q[k] == q[..i][k] && p[k] == p[..i][k];
    assert forall k :: i < k < |p| ==> q[k] == q[i + 1..][k - i - 1] && p[k] == p[i + 1..][k - i - 1];
    if i < n {
      assert q[n..] == p[n..];
      var s, t := p[..n], q[..n];
      assert s[..i] == t[..i] && s[i + 1..] == t[i + 1..];
      OneByteChanges(0, s, t, i);
      if Accepted(q) {
        WordBytesInjective(Crc64(0, s), Crc64(0, t));
      }
    } else {
      assert q[..n] == p[..n];
      assert q[n..][i - n] != p[n..][i - n];
    }
  }

  /** crc64 can be the running checksum of a stream: chunks of any size give the same value. */
  lemma CrcIsChunkable(update: (bv64, seq<byte>) -> bv64)
    requires forall c, s :: update(c, s) == Crc64(c, s)
    ensures Chunkable(update)
  {
    hide Crc64;
    forall c, a, b
      ensures update(update(c, a), b) == update(c, a + b)
    {
      Crc64Append(c, a, b);
    }
    forall c
      ensures update(c, []) == c
    {
      Crc64Nothing(c);
    }
  }

  lemma Crc64Nothing(c: bv64)
    ensures Crc64(c, []) == c
  {
  }

  const REDIS_RDB_TYPE_STRING := 0

  /** createDumpPayload of a string: RESTORE accepts it, and behind the type byte finds the string's text. */
  method CreateDumpPayload(payload: Stream<bv64>, o: Rdb.StringObject, compression: bool) returns (ok: bool)
    requires payload.Valid() && payload.ptr == [] && o.Fits()
    modifies payload
    ensures ok ==> var p := payload.ptr;
      && Accepted(p) && p[0] == REDIS_RDB_TYPE_STRING
      && Rdb.LoadString(p[1..]) == Rdb.Loaded(o.Text(), |p| - 11)
  {
    hide Accepted, Rdb.Encodes, Rdb.LoadString, Rdb.Uncompressed;
    var n: int;
    ghost var w: seq<byte>;
    n := Rdb.WriteRaw(payload, [REDIS_RDB_TYPE_STRING]);
    if n == -1 {
      return false;
    }
    n, w := Rdb.SaveStringObject(payload, o, compression);
    if n == -1 {
      return false;
    }
    ghost var body := payload.ptr;
    assert body == [REDIS_RDB_TYPE_STRING] + w;
    AppendFooter(payload);
    ghost var p := payload.ptr;
    AcceptedLength(p);
    ghost var cut := |p| - 10;
    assert p == body + p[cut..];
    assert p[1..] == w + p[cut..];
    Rdb.EncodesMeans(w, o.Text(), p[cut..]);
    ok := true;
  }

  lemma AcceptedLength(p: seq<byte>)
    requires Accepted(p)
    ensures |p| >= 10
  {
  }

  /** rioInitWithBuffer with the checksum of rioGenericUpdateChecksum installed. */
  method OpenStream(ptr: seq<byte>, maxChunk: nat) returns (r: Stream<bv64>)
    ensures fresh(r) && r.Valid() && r.ptr == ptr && r.pos == 0 && r.cksum == 0
    ensures forall c, s :: r.update(c, s) == Crc64(c, s)
  {
    var update := (c: bv64, s: seq<byte>) => Crc64(c, s);
    CrcIsChunkable(update);
    r := new Stream<bv64>(update, 0, ptr, maxChunk);
  }
}
