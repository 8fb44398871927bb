/**
 The file a user sees: a flat, zero-filled byte sequence.  This module says what a write, a truncation
 and a read of the extent map do to it.
 */
module FlatFile {
  import opened Bytes
  import opened MergeLog
  import opened Extents

  // The byte at offset r of extent i.
  ghost function ByteIn(x: ExtentMap, ino: nat, i: nat, r: nat): byte {
    if (ino, i) in x && r < |x[(ino, i)]| then x[(ino, i)][r] else 0
  }

  ghost function ByteAt(x: ExtentMap, e: nat, ino: nat, p: nat): byte
    requires e > 0
  {
    ByteIn(x, ino, ExtentOf(p, e), OffsetIn(p, e))
  }

  // Every stored extent has an index below ceil(size / e).
  ghost predicate Bounded(x: ExtentMap, e: nat, ino: nat, size: nat)
    requires e > 0
  {
    forall index: nat :: (ino, index) in x ==> index < ExtentCount(size, e)
  }

  // The stored extents are the bytes of f: holes and everything past the end read as zero.
  ghost predicate Represents(x: ExtentMap, e: nat, ino: nat, f: seq<byte>)
    requires e > 0
  {
    && Bounded(x, e, ino, |f|)
    && forall p: nat :: ByteAt(x, e, ino, p) == if p < |f| then f[p] else 0
  }

  // Extents and size determine the file.
  lemma RepresentsUnique(x: ExtentMap, e: nat, ino: nat, f: seq<byte>, g: seq<byte>)
    requires e > 0 && Represents(x, e, ino, f) && Represents(x, e, ino, g) && |f| == |g|
    ensures f == g
  {
    forall p: nat | p < |f| ensures f[p] == g[p] {
      assert ByteAt(x, e, ino, p) == f[p];
    }
  }

  // Two extents that hold the same bytes of the same file are equal.
  lemma FileDeterminesExtent(x: ExtentMap, y: ExtentMap, e: nat, ino: nat, f: seq<byte>, index: nat)
    requires e > 0 && Full(x, e) && Full(y, e) && (ino, index) in x && (ino, index) in y
    requires Represents(x, e, ino, f) && Represents(y, e, ino, f)
    ensures x[(ino, index)] == y[(ino, index)]
  {
    forall r: nat | r < e ensures x[(ino, index)][r] == y[(ino, index)][r] {
      EveryPlaceHasAPosition(index, r, e);
      var p := ExtentBase(index, e) + r;
      assert ByteAt(x, e, ino, p) == ByteAt(y, e, ino, p);
    }
  }

  lemma CompactedByte(e: nat, data: DataCf, key: DataKey, rewrite: LogEvent, ino: nat, p: nat)
    requires e > 0 && !rewrite.Append?
    ensures var b := ByteAt(ExtentsOf(Compacted(e, data, key, rewrite), e), e, ino, p);
            b == ByteAt(ExtentsOf(data, e), e, ino, p) || b == 0
  {
    hide ExtentsOf, Compacted, ExtentOf, OffsetIn;
    var k := (ino, ExtentOf(p, e));
    CompactionKeepsPresence(e, data, key, rewrite, k);
    if k in ExtentsOf(data, e) {
      CompactionOnlyClears(e, data, key, rewrite, k);
    }
  }

  lemma EmptyIffNoExtents(x: ExtentMap, e: nat, ino: nat)
    requires e > 0
    ensures Represents(x, e, ino, []) <==> forall index: nat :: (ino, index) !in x
  {
    CountSpec(0, 0, e);
    assert ExtentCount(0, e) == 0;
  }

  /* ---- Write ---- */

  // write(2) on a flat file; bytes in extents whose staging failed keep their old value.
  function FlatWrite(e: nat, f: seq<byte>, off: nat, buf: seq<byte>, failed: set<nat>): (g: seq<byte>)
    requires e > 0
    ensures |g| == Max(|f|, off + |buf|)
    ensures forall p :: 0 <= p < |g| ==>
      g[p] == if off <= p < off + |buf| && ExtentOf(p, e) !in failed then buf[p - off]
              else if p < |f| then f[p] else 0
  {
    seq(Max(|f|, off + |buf|), p requires 0 <= p < Max(|f|, off + |buf|) =>
      if off <= p < off + |buf| && ExtentOf(p, e) !in failed then buf[p - off]
      else if p < |f| then f[p] else 0)
  }

  // With nothing failed this is the plain overwrite-and-extend of POSIX.
  lemma FlatWriteIsOverwrite(e: nat, f: seq<byte>, off: nat, buf: seq<byte>)
    requires e > 0
    ensures var padded := f + Zeros(Max(0, off + |buf| - |f|));
            FlatWrite(e, f, off, buf, {}) == padded[..off] + buf + padded[off + |buf|..]
  {}

  // A write that lost some segments, and still returns len, did its work exactly when every byte of them already
  // had its new value.
  lemma RefusedSegmentsHarmlessIff(e: nat, f: seq<byte>, off: nat, buf: seq<byte>, failed: set<nat>)
    requires e > 0
    ensures FlatWrite(e, f, off, buf, failed) == FlatWrite(e, f, off, buf, {})
       <==> forall p: nat :: off <= p < off + |buf| && ExtentOf(p, e) in failed ==>
              buf[p - off] == if p < |f| then f[p] else 0
  {
    var g, h := FlatWrite(e, f, off, buf, failed), FlatWrite(e, f, off, buf, {});
    if g == h {
      forall p: nat | off <= p < off + |buf| && ExtentOf(p, e) in failed
        ensures buf[p - off] == if p < |f| then f[p] else 0
      {
        assert g[p] == h[p];
      }
    }
  }

  lemma SegmentHits(e: nat, off: nat, k: nat, p: nat)
    requires e > 0 && OffsetIn(off, e) + k <= e
    ensures off <= p < off + k
       <==> ExtentOf(p, e) == ExtentOf(off, e) && OffsetIn(off, e) <= OffsetIn(p, e) < OffsetIn(off, e) + k
    ensures off <= p < off + k ==> OffsetIn(p, e) - OffsetIn(off, e) == p - off
  {
    if ExtentOf(p, e) == ExtentOf(off, e) {
      SameExtent(p, off, e);
    }
    if off <= p < off + k {
      MoveWithin(off, e, p - off);
    }
  }

  lemma ApplySegmentByte(x: ExtentMap, e: nat, ino: nat, s: Segment, ino': nat, i: nat, r: nat)
    requires ExtentSize(e) && Full(x, e) && s.startOff < e && s.startOff + |s.data| <= e && r < e
    ensures ByteIn(Apply(x, e, (ino, s.index), SegmentOp(e, s)), ino', i, r)
         == if ino' == ino && i == s.index && s.startOff <= r < s.startOff + |s.data|
            then s.data[r - s.startOff] else ByteIn(x, ino', i, r)
  {
    var k, op := (ino, s.index), SegmentOp(e, s);
    var y := Apply(x, e, k, op);
    SegmentOpExact(e, s);
    if (ino', i) != k {
      assert (ino', i) in y <==> (ino', i) in x;
    } else if op.Merge? {
      var base := if k in x then x[k] else Zeros(e);
      assert y[k] == Overlay(base, Delta(s.startOff, s.data)) && |base| == e;
    } else {
      assert y[k] == s.data;
    }
  }

  lemma ApplyKeepsFull(x: ExtentMap, e: nat, k: (nat, nat), op: Op)
    requires Full(x, e) && Fits(e, op)
    ensures Full(Apply(x, e, k, op), e)
  {}

  /**
   y is x after buf was put at [off, off + |buf|) of file ino, except in extents whose staging failed.
   No other byte of that file and no byte of any other file differs.
   */
  ghost predicate Written(x: ExtentMap, y: ExtentMap, e: nat, ino: nat, off: nat, buf: seq<byte>, failed: set<nat>)
    requires e > 0
  {
    forall ino': nat, p: nat ::
      ByteAt(y, e, ino', p) == if ino' == ino && off <= p < off + |buf| && ExtentOf(p, e) !in failed
                               then buf[p - off] else ByteAt(x, e, ino', p)
  }

  lemma WrittenCompose(x: ExtentMap, y: ExtentMap, z: ExtentMap, e: nat, ino: nat, off: nat, k: nat,
                       buf: seq<byte>, failed: set<nat>)
    requires e > 0 && k <= |buf|
    requires Written(x, y, e, ino, off, buf[..k], failed)
    requires Written(y, z, e, ino, off + k, buf[k..], failed)
    ensures Written(x, z, e, ino, off, buf, failed)
  {
    forall ino': nat, p: nat
      ensures ByteAt(z, e, ino', p) == if ino' == ino && off <= p < off + |buf| && ExtentOf(p, e) !in failed
                                       then buf[p - off] else ByteAt(x, e, ino', p)
    {
      assert ByteAt(y, e, ino', p) == if ino' == ino && off <= p < off + k && ExtentOf(p, e) !in failed
                                      then buf[..k][p - off] else ByteAt(x, e, ino', p);
    }
  }

  lemma WrittenNothing(x: ExtentMap, e: nat, ino: nat, off: nat, failed: set<nat>)
    requires e > 0
    ensures Written(x, x, e, ino, off, [], failed)
  {}

  // The extent map after the first segment of a write.
  ghost function AfterFirst(x: ExtentMap, e: nat, ino: nat, off: nat, buf: seq<byte>, failed: set<nat>): ExtentMap
    requires e > 0
  {
    var s := Segment(ExtentOf(off, e), OffsetIn(off, e), buf[..SegmentLen(e, off, |buf|)]);
    if s.index in failed then x else Apply(x, e, (ino, s.index), SegmentOp(e, s))
  }

  lemma FirstSegment(x: ExtentMap, e: nat, ino: nat, off: nat, buf: seq<byte>, failed: set<nat>)
    requires ExtentSize(e) && Full(x, e) && buf != []
    ensures var k := SegmentLen(e, off, |buf|);
            var x' := AfterFirst(x, e, ino, off, buf, failed);
            && Full(x', e)
            && ApplySegments(x, e, ino, Tile(e, off, buf), failed)
               == ApplySegments(x', e, ino, Tile(e, off + k, buf[k..]), failed)
  {
    var k := SegmentLen(e, off, |buf|);
    var s := Segment(ExtentOf(off, e), OffsetIn(off, e), buf[..k]);
    assert Tile(e, off, buf)[0] == s;
    assert Tile(e, off, buf)[1..] == Tile(e, off + k, buf[k..]);
    SegmentOpExact(e, s);
    ApplyKeepsFull(x, e, (ino, s.index), SegmentOp(e, s));
  }

  lemma FirstSegmentWritten(x: ExtentMap, e: nat, ino: nat, off: nat, buf: seq<byte>, failed: set<nat>)
    requires ExtentSize(e) && Full(x, e)
    ensures Written(x, AfterFirst(x, e, ino, off, buf, failed), e, ino, off,
                    buf[..SegmentLen(e, off, |buf|)], failed)
  {
    hide ExtentOf, OffsetIn, Full, ByteIn, Apply;
    var k := SegmentLen(e, off, |buf|);
    var s := Segment(ExtentOf(off, e), OffsetIn(off, e), buf[..k]);
    var x' := AfterFirst(x, e, ino, off, buf, failed);
    forall ino': nat, p: nat
      ensures ByteAt(x', e, ino', p) == if ino' == ino && off <= p < off + k && ExtentOf(p, e) !in failed
                                        then s.data[p - off] else ByteAt(x, e, ino', p)
    {
      SegmentHits(e, off, k, p);
      ApplySegmentByte(x, e, ino, s, ino', ExtentOf(p, e), OffsetIn(p, e));
    }
  }

  lemma {:induction false} TileWritten(x: ExtentMap, e: nat, ino: nat, off: nat, buf: seq<byte>, failed: set<nat>)
    requires ExtentSize(e) && Full(x, e)
    ensures Written(x, ApplySegments(x, e, ino, Tile(e, off, buf), failed), e, ino, off, buf, failed)
    decreases |buf|
  {
    hide Written, AfterFirst, Full, ExtentOf, OffsetIn;
    if buf == [] {
      WrittenNothing(x, e, ino, off, failed);
    } else {
      var k := SegmentLen(e, off, |buf|);
      var y := AfterFirst(x, e, ino, off, buf, failed);
      FirstSegment(x, e, ino, off, buf, failed);
      FirstSegmentWritten(x, e, ino, off, buf, failed);
      TileWritten(y, e, ino, off + k, buf[k..], failed);
      WrittenCompose(x, y, ApplySegments(y, e, ino, Tile(e, off + k, buf[k..]), failed), e, ino, off, k, buf, failed);
    }
  }

  // Staged segments add extents only at their own indices.
  lemma {:induction false} ApplySegmentsKeys(x: ExtentMap, e: nat, ino: nat, segs: seq<Segment>, failed: set<nat>,
                                             bound: nat)
    requires forall s :: s in segs ==> s.index < bound
    ensures forall k :: k in ApplySegments(x, e, ino, segs, failed) ==> k in x || (k.0 == ino && k.1 < bound)
    ensures forall k :: k in x ==> k in ApplySegments(x, e, ino, segs, failed)
    decreases |segs|
  {
    if segs != [] {
      var s := segs[0];
      assert s in segs && SegmentOp(e, s) != Delete;
      var x' := if s.index in failed then x else Apply(x, e, (ino, s.index), SegmentOp(e, s));
      ApplySegmentsKeys(x', e, ino, segs[1..], failed, bound);
    }
  }

  lemma WriteSegmentsBound(e: nat, off: nat, buf: seq<byte>)
    requires e > 0
    ensures forall s :: s in WriteSegments(e, off, buf) ==>
              s.index < ExtentCount(off + |buf|, e) && s.startOff < e && s.startOff + |s.data| <= e
  {
    if buf == [] {
      CountSpec(off, off, e);
    } else {
      var segs := Tile(e, off, buf);
      TileCount(e, off, buf);
      forall i | 0 <= i < |segs| ensures segs[i].index < ExtentCount(off + |buf|, e) && InsideExtent(e, segs[i]) {
        TileInside(e, off, buf, i);
      }
    }
  }

  ghost function AfterWrite(x: ExtentMap, e: nat, ino: nat, off: nat, buf: seq<byte>, failed: set<nat>): ExtentMap
    requires e > 0
  {
    ApplySegments(x, e, ino, WriteSegments(e, off, buf), failed)
  }

  lemma WriteWritten(x: ExtentMap, e: nat, ino: nat, off: nat, buf: seq<byte>, failed: set<nat>)
    requires ExtentSize(e) && Full(x, e)
    ensures Written(x, AfterWrite(x, e, ino, off, buf, failed), e, ino, off, buf, failed)
  {
    if buf == [] && OffsetIn(off, e) != 0 {
      var s := Segment(ExtentOf(off, e), OffsetIn(off, e), []);
      var y := AfterWrite(x, e, ino, off, buf, failed);
      assert WriteSegments(e, off, buf) == [s] && [s][1..] == [];
      assert ApplySegments(x, e, ino, [s], failed)
          == if s.index in failed then x else Apply(x, e, (ino, s.index), SegmentOp(e, s));
      forall ino': nat, p: nat
        ensures ByteAt(y, e, ino', p) == ByteAt(x, e, ino', p)
      {
        ApplySegmentByte(x, e, ino, s, ino', ExtentOf(p, e), OffsetIn(p, e));
      }
    } else {
      TileWritten(x, e, ino, off, buf, failed);
    }
  }

  /**
   A write turns the flat file it hits into FlatWrite of it and leaves every other file as it was.
   The size the source records, max(i_size, offset + len), is the size of the new flat file.
   */
  lemma WriteRepresents(x: ExtentMap, e: nat, ino: nat, f: seq<byte>, off: nat, buf: seq<byte>, failed: set<nat>)
    requires ExtentSize(e) && Full(x, e) && Represents(x, e, ino, f)
    ensures Represents(AfterWrite(x, e, ino, off, buf, failed), e, ino, FlatWrite(e, f, off, buf, failed))
  {
    var y, g := AfterWrite(x, e, ino, off, buf, failed), FlatWrite(e, f, off, buf, failed);
    WriteWritten(x, e, ino, off, buf, failed);
    forall p: nat ensures ByteAt(y, e, ino, p) == if p < |g| then g[p] else 0 {
      assert ByteAt(x, e, ino, p) == if p < |f| then f[p] else 0;
    }
    WriteSegmentsBound(e, off, buf);
    ApplySegmentsKeys(x, e, ino, WriteSegments(e, off, buf), failed, ExtentCount(off + |buf|, e));
    CountMonotone(off + |buf|, |g|, e);
    CountMonotone(|f|, |g|, e);
  }

  lemma WriteKeepsOthers(x: ExtentMap, e: nat, ino: nat, off: nat, buf: seq<byte>, failed: set<nat>,
                         ino': nat, g: seq<byte>)
    requires ExtentSize(e) && Full(x, e) && ino' != ino && Represents(x, e, ino', g)
    ensures Represents(AfterWrite(x, e, ino, off, buf, failed), e, ino', g)
  {
    WriteWritten(x, e, ino, off, buf, failed);
    WriteSegmentsBound(e, off, buf);
    ApplySegmentsKeys(x, e, ino, WriteSegments(e, off, buf), failed, ExtentCount(off + |buf|, e));
    var y := AfterWrite(x, e, ino, off, buf, failed);
    forall p: nat ensures ByteAt(y, e, ino', p) == if p < |g| then g[p] else 0 {
      assert ByteAt(x, e, ino', p) == if p < |g| then g[p] else 0;
    }
  }

  /* ---- Truncate ---- */

  // One Delete per extent of [start, end); the writer ignores a Delete that could not be staged.
  function TruncateOps(ino: nat, start: nat, end: nat, failed: set<nat>): seq<DataOp>
    decreases end - start
  {
    if start >= end then []
    else
      (if start in failed then [] else [DataOp(ExtentKey(start, ino), Delete)])
      + TruncateOps(ino, start + 1, end, failed)
  }

  ghost function AfterTruncate(x: ExtentMap, ino: nat, start: nat, end: nat, failed: set<nat>): ExtentMap {
    imap k | k in x && !(k.0 == ino && start <= k.1 < end && k.1 !in failed) :: x[k]
  }

  lemma {:induction false} TruncateMeaning(data: DataCf, e: nat, ino: nat, start: nat, end: nat, failed: set<nat>)
    requires ino < TWO64 && start <= end <= TWO64 && WellFormed(e, data)
    ensures var data' := CommitData(data, TruncateOps(ino, start, end, failed));
            && WellFormed(e, data')
            && ExtentsOf(data', e) == AfterTruncate(ExtentsOf(data, e), ino, start, end, failed)
    decreases end - start
  {
    hide ExtentsOf, AfterTruncate, Apply, WellFormed, ExtentKey;
    var x := ExtentsOf(data, e);
    if start == end {
      TruncateSkip(x, ino, start, end, failed);
    } else if start in failed {
      assert TruncateOps(ino, start, end, failed) == TruncateOps(ino, start + 1, end, failed);
      TruncateMeaning(data, e, ino, start + 1, end, failed);
      TruncateSkip(x, ino, start, end, failed);
    } else {
      var d := DataOp(ExtentKey(start, ino), Delete);
      var ops := TruncateOps(ino, start, end, failed);
      assert ops[0] == d && ops[1..] == TruncateOps(ino, start + 1, end, failed);
      CommitOneMeaning(data, e, ino, start, Delete);
      CommitOneWellFormed(data, e, d);
      TruncateMeaning(CommitOne(data, d), e, ino, start + 1, end, failed);
      TruncateStep(x, e, ino, start, end, failed);
    }
  }

  lemma TruncateSkip(x: ExtentMap, ino: nat, start: nat, end: nat, failed: set<nat>)
    ensures start == end ==> AfterTruncate(x, ino, start, end, failed) == x
    ensures start in failed ==>
      AfterTruncate(x, ino, start + 1, end, failed) == AfterTruncate(x, ino, start, end, failed)
  {}

  lemma TruncateStep(x: ExtentMap, e: nat, ino: nat, start: nat, end: nat, failed: set<nat>)
    requires start < end && start !in failed
    ensures AfterTruncate(Apply(x, e, (ino, start), Delete), ino, start + 1, end, failed)
         == AfterTruncate(x, ino, start, end, failed)
  {}

  /**
   Deleting the extents 0 .. ceil(size / e) empties a file whose extents are bounded by its size, so
   nothing of the old contents can surface when the file grows again.
   */
  lemma TruncateRepresents(x: ExtentMap, e: nat, ino: nat, f: seq<byte>)
    requires e > 0 && Represents(x, e, ino, f)
    ensures Represents(AfterTruncate(x, ino, 0, ExtentCount(|f|, e), {}), e, ino, [])
  {
    var y := AfterTruncate(x, ino, 0, ExtentCount(|f|, e), {});
    assert forall index: nat :: (ino, index) !in y;
  }

  lemma TruncateKeepsOthers(x: ExtentMap, e: nat, ino: nat, n: nat, failed: set<nat>, ino': nat, g: seq<byte>)
    requires e > 0 && ino' != ino && Represents(x, e, ino', g)
    ensures Represents(AfterTruncate(x, ino, 0, n, failed), e, ino', g)
  {
    var y := AfterTruncate(x, ino, 0, n, failed);
    forall p: nat ensures ByteAt(y, e, ino', p) == if p < |g| then g[p] else 0 {
      assert ByteAt(x, e, ino', p) == if p < |g| then g[p] else 0;
    }
  }
}
