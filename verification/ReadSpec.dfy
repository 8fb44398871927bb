/**
 What the readers return.  `vn_read` and `vn_readv` copy each segment from the start of its extent
 value, without adding the in-extent offset of the segment, so the flat-file law holds for reads that
 start on an extent boundary.  `FetchAtOffset` is a reader that adds the offset; the law holds for it
 everywhere.
 */
module ReadSpec {
  import opened Bytes
  import opened Extents
  import opened FlatFile

  // n bytes of extent i from offset r on; an absent extent reads as zeros.
  ghost function Chunk(x: ExtentMap, ino: nat, i: nat, r: nat, n: nat): (c: seq<byte>)
    ensures |c| == n
    ensures forall j :: 0 <= j < n ==> c[j] == ByteIn(x, ino, i, r + j)
  {
    seq<byte>(n, j requires 0 <= j < n => ByteIn(x, ino, i, r + j))
  }

  // The bytes the read loop copies for n bytes at off.
  ghost function Fetch(x: ExtentMap, e: nat, ino: nat, off: nat, n: nat): (b: seq<byte>)
    requires e > 0
    ensures |b| == n
    decreases n
  {
    if n == 0 then []
    else
      var k := SegmentLen(e, off, n);
      Chunk(x, ino, ExtentOf(off, e), 0, k) + Fetch(x, e, ino, off + k, n - k)
  }

  ghost function FetchAtOffset(x: ExtentMap, e: nat, ino: nat, off: nat, n: nat): (b: seq<byte>)
    requires e > 0
    ensures |b| == n
    decreases n
  {
    if n == 0 then []
    else
      var k := SegmentLen(e, off, n);
      Chunk(x, ino, ExtentOf(off, e), OffsetIn(off, e), k) + FetchAtOffset(x, e, ino, off + k, n - k)
  }

  // read(2) on a flat file: at most len bytes, clamped at the end of the file.
  function FlatRead(f: seq<byte>, off: nat, len: nat): seq<byte>
    requires off <= |f|
  {
    f[off..off + Min(len, |f| - off)]
  }

  // A chunk that stays inside its extent is a slice of the flat file.
  lemma ChunkIsFlat(x: ExtentMap, e: nat, ino: nat, f: seq<byte>, off: nat, k: nat)
    requires e > 0 && Represents(x, e, ino, f) && OffsetIn(off, e) + k <= e && off + k <= |f|
    ensures Chunk(x, ino, ExtentOf(off, e), OffsetIn(off, e), k) == f[off..off + k]
  {
    var c := Chunk(x, ino, ExtentOf(off, e), OffsetIn(off, e), k);
    forall j | 0 <= j < k ensures c[j] == f[off + j] {
      MoveWithin(off, e, j);
      assert ByteAt(x, e, ino, off + j) == f[off + j];
    }
  }

  lemma {:induction false} FetchAtOffsetIsFlat(x: ExtentMap, e: nat, ino: nat, f: seq<byte>, off: nat, n: nat)
    requires e > 0 && Represents(x, e, ino, f) && off + n <= |f|
    ensures FetchAtOffset(x, e, ino, off, n) == f[off..off + n]
    decreases n
  {
    hide Represents, ExtentOf, OffsetIn;
    if n > 0 {
      var k := SegmentLen(e, off, n);
      FetchAtOffsetIsFlat(x, e, ino, f, off + k, n - k);
      ChunkIsFlat(x, e, ino, f, off, k);
      assert f[off..off + n] == f[off..off + k] + f[off + k..off + n];
    }
  }

  // From an extent boundary on, the two readers agree.
  lemma {:induction false} FetchAligned(x: ExtentMap, e: nat, ino: nat, off: nat, n: nat)
    requires e > 0 && OffsetIn(off, e) == 0
    ensures Fetch(x, e, ino, off, n) == FetchAtOffset(x, e, ino, off, n)
    decreases n
  {
    if n > 0 {
      var k := SegmentLen(e, off, n);
      if k < n {
        MoveToNext(off, e);
        FetchAligned(x, e, ino, off + k, n - k);
      }
    }
  }

  /**
   The exact result of a read at any offset: the first segment comes from the start of its extent
   instead of from off, everything after it is right.
   */
  lemma FetchExact(x: ExtentMap, e: nat, ino: nat, f: seq<byte>, off: nat, n: nat)
    requires e > 0 && Represents(x, e, ino, f) && off + n <= |f|
    ensures var k := SegmentLen(e, off, n);
            var base := off - OffsetIn(off, e);
            Fetch(x, e, ino, off, n) == f[base..base + k] + f[off + k..off + n]
  {
    hide Represents, ExtentOf, OffsetIn, FetchAtOffset;
    if n > 0 {
      var k := SegmentLen(e, off, n);
      var base := off - OffsetIn(off, e);
      ExtentStart(off, e);
      ChunkIsFlat(x, e, ino, f, base, k);
      if k < n {
        MoveToNext(off, e);
        FetchAligned(x, e, ino, off + k, n - k);
      }
      FetchAtOffsetIsFlat(x, e, ino, f, off + k, n - k);
    }
  }

  lemma {:induction false} ExtentStart(p: nat, e: nat)
    requires e > 0
    ensures ExtentOf(p - OffsetIn(p, e), e) == ExtentOf(p, e)
    ensures OffsetIn(p - OffsetIn(p, e), e) == 0
  {
    if p >= e {
      ExtentStart(p - e, e);
    }
  }

  // An aligned read returns the flat file's bytes.
  lemma FetchIsFlat(x: ExtentMap, e: nat, ino: nat, f: seq<byte>, off: nat, n: nat)
    requires e > 0 && Represents(x, e, ino, f) && off + n <= |f|
    requires OffsetIn(off, e) == 0
    ensures Fetch(x, e, ino, off, n) == f[off..off + n]
  {
    FetchAligned(x, e, ino, off, n);
    FetchAtOffsetIsFlat(x, e, ino, f, off, n);
  }

  /**
   Reading n > 0 bytes at off of a file of some size is right for every content exactly when off is a
   multiple of the extent size.
   */
  lemma ReadRightIffAligned(e: nat, ino: nat, size: nat, off: nat, n: nat)
    requires ExtentSize(e) && 0 < n && off + n <= size
    ensures (forall x: ExtentMap, f: seq<byte> :: Represents(x, e, ino, f) && |f| == size
               ==> Fetch(x, e, ino, off, n) == f[off..off + n])
       <==> off % e == 0
  {
    ExtentIsQuotient(off, e);
    if OffsetIn(off, e) == 0 {
      forall x: ExtentMap, f: seq<byte> | Represents(x, e, ino, f) && |f| == size
        ensures Fetch(x, e, ino, off, n) == f[off..off + n]
      {
        FetchIsFlat(x, e, ino, f, off, n);
      }
    } else {
      var x, f := MisalignedRead(e, ino, size, off, n);
    }
  }

  // A file with a single 1 at the start of off's extent: the read returns it as the byte at off.
  lemma MisalignedRead(e: nat, ino: nat, size: nat, off: nat, n: nat) returns (x: ExtentMap, f: seq<byte>)
    requires ExtentSize(e) && 0 < n && off + n <= size && OffsetIn(off, e) != 0
    ensures Represents(x, e, ino, f) && |f| == size
    ensures Fetch(x, e, ino, off, n) != f[off..off + n]
  {
    hide OffsetIn, ExtentOf;
    var base := off - OffsetIn(off, e);
    var x0: ExtentMap := imap[];
    var zeros := Zeros(size);
    assert Represents(x0, e, ino, zeros);
    WriteRepresents(x0, e, ino, zeros, base, [1], {});
    x := AfterWrite(x0, e, ino, base, [1], {});
    f := FlatWrite(e, zeros, base, [1], {});
    FetchExact(x, e, ino, f, off, n);
    assert f[base..base + SegmentLen(e, off, n)][0] == 1;
    assert Fetch(x, e, ino, off, n)[0] == 1;
    assert f[off..off + n][0] == 0;
  }

  /* ---- Reads past the end of the file ---- */

  // buf_offset when the read loop ends, with the unsigned 64-bit arithmetic of the source.
  function MovedBy(e: nat, off: nat, len: nat, index: nat, endExt: nat, bufOff: nat): nat
    requires e > 0 && len < TWO64
    decreases endExt - index
  {
    if index >= endExt || bufOff >= TWO64 then bufOff
    else MovedBy(e, off, len, index + 1, endExt, bufOff + Min(Sub64(len, bufOff), e - OffsetIn(off + bufOff, e)))
  }

  // The length the source reads and returns: i_size - offset wraps when offset is past the end.
  function ClampedLen(size: nat, off: nat, len: nat): nat
    requires size < TWO63 && off < TWO63
  {
    if off + len > size then Sub64(size, off) else len
  }

  function Moved(e: nat, size: nat, off: nat, len: nat): nat
    requires e > 0 && size < TWO63 && InRange(e, off, len)
  {
    MovedBy(e, off, ClampedLen(size, off, len), ExtentOf(off, e), ExtentCount(off + len, e), 0)
  }

  // While bytes remain the loop advances to the next extent boundary or to the end.
  lemma {:induction false} MovedWithin(e: nat, off: nat, len: nat, end: nat, bufOff: nat)
    requires e > 0 && bufOff <= len < TWO63 && off + len <= end
    ensures MovedBy(e, off, len, ExtentOf(off + bufOff, e), ExtentCount(end, e), bufOff) == len
    decreases len - bufOff
  {
    if bufOff == len {
      MovedNothing(e, off, len, ExtentOf(off + bufOff, e), ExtentCount(end, e));
    } else {
      CountSpec(off + bufOff, end, e);
      var k := SegmentLen(e, off + bufOff, len - bufOff);
      if k < len - bufOff {
        MoveToNext(off + bufOff, e);
        MovedWithin(e, off, len, end, bufOff + k);
      } else {
        MovedNothing(e, off, len, ExtentOf(off + bufOff, e) + 1, ExtentCount(end, e));
      }
    }
  }

  // Iterations after the last byte move nothing.
  lemma {:induction false} MovedNothing(e: nat, off: nat, len: nat, index: nat, endExt: nat)
    requires e > 0 && len < TWO63
    ensures MovedBy(e, off, len, index, endExt, len) == len
    decreases endExt - index
  {
    if index < endExt {
      MovedNothing(e, off, len, index + 1, endExt);
    }
  }

  // With a wrapped length the loop never sees the end and fills every extent it visits.
  lemma {:induction false} MovedWrapped(e: nat, off: nat, len: nat, end: nat, bufOff: nat)
    requires e > 0 && len < TWO64 && off + bufOff <= end + e && end + 2 * e <= len
    requires off + bufOff <= end || OffsetIn(off + bufOff, e) == 0
    ensures off + MovedBy(e, off, len, ExtentOf(off + bufOff, e), ExtentCount(end, e), bufOff)
         == if ExtentOf(off + bufOff, e) < ExtentCount(end, e) then ExtentStartOf(end, e) else off + bufOff
    decreases end + e - (off + bufOff)
  {
    hide ExtentOf, OffsetIn, ExtentCount;
    var p := off + bufOff;
    if ExtentOf(p, e) < ExtentCount(end, e) {
      CountSpec(p, end, e);
      var q := p + (e - OffsetIn(p, e));
      MoveToNext(p, e);
      MovedWrapped(e, off, len, end, bufOff + (e - OffsetIn(p, e)));
      if ExtentOf(q, e) >= ExtentCount(end, e) {
        LastBoundary(q, end, e);
      }
    }
  }

  // The first extent boundary at or after n: ceil(n / e) * e.
  function ExtentStartOf(n: nat, e: nat): nat
    requires e > 0
  {
    if OffsetIn(n, e) == 0 then n else n + (e - OffsetIn(n, e))
  }

  lemma LastBoundary(q: nat, end: nat, e: nat)
    requires e > 0 && OffsetIn(q, e) == 0 && q >= e
    requires q - e < end
    requires ExtentOf(q, e) >= ExtentCount(end, e)
    ensures q == ExtentStartOf(end, e)
  {
    CountSpec(q, end, e);
    MoveWithin(q - e, e, end - (q - e) - 1) by {
      assert OffsetIn(q - e, e) == 0;
    }
    if end < q {
      MoveWithin(q - e, e, end - (q - e));
    }
  }

  /**
   The loop stays inside the caller's buffer of len bytes exactly when the read starts at or before the
   end of the file, or ends on an extent boundary.  Then, for off <= size, it moves min(len, size - off).
   */
  lemma ReadStaysInBuffer(e: nat, size: nat, off: nat, len: nat)
    requires ExtentSize(e) && size < TWO63 && InRange(e, off, len)
    ensures Moved(e, size, off, len) <= len <==> off <= size || (off + len) % e == 0
    ensures off <= size ==> Moved(e, size, off, len) == ClampedLen(size, off, len) == Min(len, size - off)
    ensures off > size ==> off + Moved(e, size, off, len) == ExtentStartOf(off + len, e)
  {
    var n, end := ClampedLen(size, off, len), off + len;
    ExtentIsQuotient(end, e);
    if off <= size {
      MovedWithin(e, off, n, end, 0);
    } else {
      MovedWrapped(e, off, n, end, 0);
      CountSpec(off, end, e);
    }
  }

  // ceil(n / e) * e.
  lemma ExtentStartIsRoundedUp(n: nat, e: nat)
    requires e > 0
    ensures ExtentStartOf(n, e) % e == 0 && n <= ExtentStartOf(n, e) < n + e
  {
    MoveToNext(n, e);
    ExtentIsQuotient(ExtentStartOf(n, e), e);
  }

  // The returned length is the POSIX one exactly when the read starts at or before the end of the file.
  lemma ReturnedLength(size: nat, off: nat, len: nat)
    requires size < TWO63 && off + len < TWO63
    ensures ClampedLen(size, off, len) == Min(len, Max(0, size - off)) <==> off <= size
  {}
}
