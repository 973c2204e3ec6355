/**
 The stream of rio.h over a buffer: reads and writes go through chunks of bounded size, and a running
 checksum covers all bytes that passed. The checksum function is a parameter of the stream.
 */
module Rio {
  import opened Bytes

  /** A checksum of a concatenation is the checksum of its parts, one after the other. */
  ghost predicate Chunkable<C(!new)>(update: (C, seq<byte>) -> C) {
    && (forall c :: update(c, []) == c)
    && (forall c, a, b :: update(update(c, a), b) == update(c, a + b))
  }

  class Stream<C(!new)> {
    const update: (C, seq<byte>) -> C
    var ptr: seq<byte>
    var pos: nat
    var cksum: C
    var processedBytes: nat
    var maxProcessingChunk: nat

    ghost predicate Valid()
      reads this
    {
      pos <= |ptr| && Chunkable(update)
    }

    constructor (update: (C, seq<byte>) -> C, zero: C, ptr: seq<byte>, maxChunk: nat)
      requires Chunkable(update)
      ensures Valid() && this.ptr == ptr && pos == 0 && this.update == update && cksum == zero
    {
      this.update, this.ptr, pos := update, ptr, 0;
      cksum, processedBytes, maxProcessingChunk := zero, 0, maxChunk;
    }

    function Chunk(len: nat): (n: nat)
      requires len > 0
      reads this
      ensures 1 <= n <= len
    {
      if maxProcessingChunk != 0 && maxProcessingChunk < len then maxProcessingChunk else len
    }

    /** One write of the backend. A failed one may have written a part. */
    method BackendWrite(buf: seq<byte>) returns (ok: bool)
      modifies `ptr
      ensures old(ptr) <= ptr && (ok ==> ptr == old(ptr) + buf)
    {
      ok := *;
      if ok {
        ptr := ptr + buf;
      } else {
        var n: nat :| n <= |buf|;
        ptr := ptr + buf[..n];
      }
    }

    /** rioBufferRead. */
    method BackendRead(len: nat) returns (ok: bool, buf: seq<byte>)
      requires Valid()
      modifies `pos
      ensures Valid() && (ok <==> old(pos) + len <= |ptr|)
      ensures ok ==> buf == ptr[old(pos)..old(pos) + len] && pos == old(pos) + len
      ensures !ok ==> pos == old(pos)
    {
      if |ptr| - pos < len {
        return false, [];
      }
      ok, buf := true, ptr[pos..pos + len];
      pos := pos + len;
    }

    /** rioWrite: whatever the chunk size, the bytes arrive in order and the checksum is that of all of them. */
    method Write(buf: seq<byte>) returns (ok: bool)
      requires Valid()
      modifies `ptr, `cksum, `processedBytes
      ensures Valid() && old(ptr) <= ptr
      ensures ok ==> ptr == old(ptr) + buf && cksum == update(old(cksum), buf)
      ensures ok ==> processedBytes == old(processedBytes) + |buf|
    {
      hide Chunkable;
      var done := 0;
      ghost var c0 := cksum;
      Nothing(update, cksum);
      assert buf[..0] == [];
      while done < |buf|
        invariant 0 <= done <= |buf| && Valid() && old(ptr) <= ptr
        invariant ptr == old(ptr) + buf[..done] && cksum == update(c0, buf[..done])
        invariant processedBytes == old(processedBytes) + done
      {
        var n := Chunk(|buf| - done);
        var chunk := buf[done..done + n];
        Compose(update, c0, buf[..done], chunk);
        assert buf[..done + n] == buf[..done] + chunk;
        cksum := update(cksum, chunk);
        var written := BackendWrite(chunk);
        if !written {
          return false;
        }
        done := done + n;
        processedBytes := processedBytes + n;
      }
      assert buf[..done] == buf;
      ok := true;
    }

    /** rioRead. */
    method Read(len: nat) returns (ok: bool, buf: seq<byte>)
      requires Valid()
      modifies `pos, `cksum, `processedBytes
      ensures Valid() && (ok <==> old(pos) + len <= |ptr|)
      ensures ok ==> buf == ptr[old(pos)..old(pos) + len] && pos == old(pos) + len
      ensures ok ==> cksum == update(old(cksum), buf) && processedBytes == old(processedBytes) + len
    {
      hide Chunkable;
      buf := [];
      ghost var c0, p0 := cksum, pos;
      Nothing(update, cksum);
      while |buf| < len
        invariant |buf| <= len && Valid()
        invariant pos == p0 + |buf| && buf == ptr[p0..pos] && cksum == update(c0, buf)
        invariant processedBytes == old(processedBytes) + |buf|
        decreases len - |buf|
      {
        var n := Chunk(len - |buf|);
        var got, chunk := BackendRead(n);
        if !got {
          return false, [];
        }
        Compose(update, c0, buf, chunk);
        cksum := update(cksum, chunk);
        buf := buf + chunk;
        processedBytes := processedBytes + n;
      }
      ok := true;
    }
  }

  lemma Nothing<C(!new)>(update: (C, seq<byte>) -> C, c: C)
    requires Chunkable(update)
    ensures update(c, []) == c
  {
  }

  lemma Compose<C(!new)>(update: (C, seq<byte>) -> C, c: C, a: seq<byte>, b: seq<byte>)
    requires Chunkable(update)
    ensures update(update(c, a), b) == update(c, a + b)
  {
  }
}
