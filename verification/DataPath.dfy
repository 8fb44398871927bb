/**
 The data path of vn_file.cpp in its own form: inodes and open files are objects, a call stages operations
 into a batch and commits it.  What the store answers is a parameter: `failed` holds the extents whose
 Put, Merge or Delete is refused, `outcome` says how the transaction ends, `now` is time(NULL).
 */
module DataPath {
  import opened Bytes
  import opened MergeLog
  import opened Extents
  import opened FlatFile
  import opened ReadSpec
  import opened Iov
  import opened MetaKeys
  import opened Metadata
  import opened MetadataInv
  import opened MetadataRuns
  import opened MetadataCalls
  import opened DataOps

  const EEXIST: int := 17
  const ENOENT: int := 2

  // The machine steps one vn_create_file call performs.
  function CreateSteps(meta: map<Key, MetaVal>, parent: int, name: seq<byte>, now: int,
                       lockFails: bool, outcome: Outcome): seq<Step>
  {
    if NameKey(parent, name) in meta && !lockFails then [Begin(0, parent, name, now), GetForUpdate(0)]
    else
      var call := CreateCall(0, parent, name, now, lockFails);
      match outcome
      case Committed => call
      case PersistFailed => call[..3] + [Abort(0)]
      case CommitFailed => call[..5] + [Abort(0)]
  }

  class ViveInode {
    var ino: nat
    var size: nat
    var links: int
    var atime: int
    var mtime: int

    // deserialize_inode
    constructor (i: Inode)
      ensures Value() == i
    {
      ino, size, links, atime, mtime := i.ino, i.size, i.links, i.atime, i.mtime;
    }

    function Value(): Inode
      reads this
    {
      Inode(ino, size, links, atime, mtime)
    }
  }

  class ViveFile {
    const inode: ViveInode
    var dirty: bool
    var noatime: bool

    constructor (inode: ViveInode, noatime: bool)
      ensures this.inode == inode && !dirty && this.noatime == noatime
    {
      this.inode, this.dirty, this.noatime := inode, false, noatime;
    }
  }

  /* ---- One iteration of the write loop ---- */

  // A call of the loop body stages the first of the remaining segments.
  lemma NextSegment(e: nat, off: nat, rest: seq<byte>, end: nat)
    requires e > 0 && end == off + |rest|
    requires rest != [] || OffsetIn(off, e) != 0
    ensures var k := SegmentLen(e, off, |rest|);
            var s := Segment(ExtentOf(off, e), OffsetIn(off, e), rest[..k]);
            && WriteSegments(e, off, rest)
               == [s] + (if k == |rest| then [] else WriteSegments(e, off + k, rest[k..]))
            && (if k == |rest| then ExtentOf(off, e) + 1 == ExtentCount(end, e)
                else ExtentOf(off, e) + 1 == ExtentOf(off + k, e) < ExtentCount(end, e))
  {
    var k := SegmentLen(e, off, |rest|);
    if k == |rest| {
      if rest == [] {
        MoveToBoundary(off, e);
      } else {
        LastExtent(e, off, k);
        assert Tile(e, off + k, rest[k..]) == [];
      }
    } else {
      MoveToNext(off, e);
      CountSpec(off + k, end, e);
    }
  }

  // ceil(off / e) for an offset inside an extent.
  lemma MoveToBoundary(off: nat, e: nat)
    requires e > 0 && OffsetIn(off, e) != 0
    ensures ExtentCount(off, e) == ExtentOf(off, e) + 1
  {
    MoveToNext(off, e);
    var q := off + (e - OffsetIn(off, e));
    MoveWithin(q, e, OffsetIn(off, e) - 1);
  }

  // The loop starts at offset / e; it does not run at all for an empty write on an extent boundary.
  lemma LoopStart(e: nat, off: nat, len: nat)
    requires e > 0
    ensures ExtentOf(off, e) < ExtentCount(off + len, e) <==> len > 0 || OffsetIn(off, e) != 0
    ensures ExtentOf(off, e) <= ExtentCount(off + len, e)
  {
    CountSpec(off, off + len, e);
    ExtentMonotone(off, off + len + e - 1, e);
  }

  // What the loop of vn_write stages from extent index on, with bufOffset bytes done.
  ghost function ToStage(e: nat, ino: nat, offset: nat, buf: seq<byte>, failed: set<nat>,
                         bufOffset: nat, index: nat): seq<DataOp>
    requires e > 0 && bufOffset <= |buf|
    decreases ExtentCount(offset + |buf|, e) - index
  {
    if index >= ExtentCount(offset + |buf|, e) then []
    else
      var k := SegmentLen(e, offset + bufOffset, |buf| - bufOffset);
      StageSegment(e, ino, Segment(index, OffsetIn(offset + bufOffset, e), buf[bufOffset..bufOffset + k]), failed)
      + ToStage(e, ino, offset, buf, failed, bufOffset + k, index + 1)
  }

  lemma ToStageEnds(e: nat, ino: nat, offset: nat, buf: seq<byte>, failed: set<nat>, bufOffset: nat, index: nat)
    requires e > 0 && bufOffset <= |buf| && index >= ExtentCount(offset + |buf|, e)
    ensures ToStage(e, ino, offset, buf, failed, bufOffset, index) == []
  {}

  lemma ToStageFirst(e: nat, ino: nat, offset: nat, buf: seq<byte>, failed: set<nat>, bufOffset: nat, index: nat)
    requires e > 0 && bufOffset <= |buf| && index < ExtentCount(offset + |buf|, e)
    ensures var k := SegmentLen(e, offset + bufOffset, |buf| - bufOffset);
            ToStage(e, ino, offset, buf, failed, bufOffset, index)
            == StageSegment(e, ino, Segment(index, OffsetIn(offset + bufOffset, e),
                                            buf[bufOffset..bufOffset + k]), failed)
               + ToStage(e, ino, offset, buf, failed, bufOffset + k, index + 1)
  {}

  // One turn of the loop moves a segment's operation from what is to come to what is staged.
  lemma ToStageStep(e: nat, ino: nat, offset: nat, buf: seq<byte>, failed: set<nat>,
                    batch: seq<DataOp>, bufOffset: nat, index: nat, k: nat, ops: seq<DataOp>)
    requires e > 0 && bufOffset <= |buf| && index < ExtentCount(offset + |buf|, e)
    requires k == SegmentLen(e, offset + bufOffset, |buf| - bufOffset)
    requires ops == StageSegment(e, ino, Segment(index, OffsetIn(offset + bufOffset, e),
                                                 buf[bufOffset..bufOffset + k]), failed)
    ensures batch + ToStage(e, ino, offset, buf, failed, bufOffset, index)
         == (batch + ops) + ToStage(e, ino, offset, buf, failed, bufOffset + k, index + 1)
  {}

  // index is the extent the next byte falls into; past the last byte it is the end of the loop.
  ghost predicate AtByte(e: nat, offset: nat, len: nat, bufOffset: nat, index: nat)
    requires e > 0
  {
    && bufOffset <= len && index <= ExtentCount(offset + len, e)
    && (index < ExtentCount(offset + len, e) ==>
          index == ExtentOf(offset + bufOffset, e) && (bufOffset < len || (len == 0 && OffsetIn(offset, e) != 0)))
  }

  lemma AtByteStep(e: nat, offset: nat, len: nat, bufOffset: nat, index: nat)
    requires e > 0 && AtByte(e, offset, len, bufOffset, index) && index < ExtentCount(offset + len, e)
    ensures AtByte(e, offset, len, bufOffset + SegmentLen(e, offset + bufOffset, len - bufOffset), index + 1)
  {
    NextSegment(e, offset + bufOffset, Zeros(len - bufOffset), offset + len);
  }

  // The loop visits exactly the segments of the write.
  lemma {:induction false} ToStageIsTile(e: nat, ino: nat, offset: nat, buf: seq<byte>, failed: set<nat>,
                                         bufOffset: nat, index: nat)
    requires e > 0 && AtByte(e, offset, |buf|, bufOffset, index) && index < ExtentCount(offset + |buf|, e)
    ensures ToStage(e, ino, offset, buf, failed, bufOffset, index)
         == StageSegments(e, ino, WriteSegments(e, offset + bufOffset, buf[bufOffset..]), failed)
    decreases ExtentCount(offset + |buf|, e) - index
  {
    hide ExtentOf, ExtentCount, OffsetIn, StageSegment, StageSegments, WriteSegments, ToStage;
    var off, rest := offset + bufOffset, buf[bufOffset..];
    var k := SegmentLen(e, off, |rest|);
    var s := Segment(index, OffsetIn(off, e), rest[..k]);
    var later := if k == |rest| then [] else WriteSegments(e, off + k, rest[k..]);
    NextSegment(e, off, rest, offset + |buf|);
    RestOf(buf, bufOffset, k);
    ToStageFirst(e, ino, offset, buf, failed, bufOffset, index);
    StageFirst(e, ino, s, later, failed);
    if k < |rest| {
      ToStageIsTile(e, ino, offset, buf, failed, bufOffset + k, index + 1);
    } else {
      ToStageEnds(e, ino, offset, buf, failed, bufOffset + k, index + 1);
    }
  }

  lemma RestOf(buf: seq<byte>, b: nat, k: nat)
    requires b + k <= |buf|
    ensures buf[b..][..k] == buf[b..b + k] && buf[b..][k..] == buf[b + k..]
  {}

  lemma StageFirst(e: nat, ino: nat, s: Segment, later: seq<Segment>, failed: set<nat>)
    requires e > 0
    ensures StageSegments(e, ino, [s] + later, failed)
         == StageSegment(e, ino, s, failed) + StageSegments(e, ino, later, failed)
    ensures StageSegments(e, ino, [], failed) == []
  {
    assert ([s] + later)[1..] == later;
  }

  lemma WholeLoop(e: nat, ino: nat, offset: nat, buf: seq<byte>, failed: set<nat>)
    requires e > 0
    ensures AtByte(e, offset, |buf|, 0, ExtentOf(offset, e))
    ensures ToStage(e, ino, offset, buf, failed, 0, ExtentOf(offset, e))
         == StageSegments(e, ino, WriteSegments(e, offset, buf), failed)
  {
    LoopStart(e, offset, |buf|);
    assert buf[0..] == buf;
    if ExtentOf(offset, e) < ExtentCount(offset + |buf|, e) {
      ToStageIsTile(e, ino, offset, buf, failed, 0, ExtentOf(offset, e));
    }
  }

  // offset / e and offset % e.
  method Split(p: nat, e: nat) returns (index: nat, startOff: nat)
    requires e > 0
    ensures index == ExtentOf(p, e) && startOff == OffsetIn(p, e)
  {
    ExtentIsQuotient(p, e);
    index, startOff := p / e, p % e;
  }

  // (n + e - 1) / e.
  method CountExtents(n: nat, e: nat) returns (count: nat)
    requires e > 0
    ensures count == ExtentCount(n, e)
  {
    ExtentIsQuotient(n + e - 1, e);
    count := (n + e - 1) / e;
  }

  lemma SliceMore(s: seq<byte>, p: nat, off: nat, k: nat)
    requires p + off + k <= |s|
    ensures s[p..p + off] + s[p + off..p + off + k] == s[p..p + (off + k)]
  {}

  lemma DeletesStep(ino: nat, i: nat, end: nat, failed: set<nat>, batch: seq<DataOp>)
    requires i < end
    ensures batch + TruncateOps(ino, i, end, failed)
         == (if i in failed then batch else batch + [DataOp(ExtentKey(i, ino), Delete)])
            + TruncateOps(ino, i + 1, end, failed)
  {
    hide ExtentKey;
  }

  /* ---- The read loop ---- */

  // Invariant of the read loops: index is the extent of the next byte, which starts a segment.  The loop
  // bound was fixed before len was clamped to n, so index may run on after the last byte.
  ghost predicate AtSegment(e: nat, offset: nat, n: nat, bufOffset: nat, index: nat)
    requires e > 0
  {
    && bufOffset <= n
    && (bufOffset < n ==> index == ExtentOf(offset + bufOffset, e)
                          && (bufOffset == 0 || OffsetIn(offset + bufOffset, e) == 0))
  }

  lemma AtSegmentStep(e: nat, offset: nat, n: nat, bufOffset: nat, index: nat)
    requires e > 0 && AtSegment(e, offset, n, bufOffset, index)
    ensures AtSegment(e, offset, n, bufOffset + SegmentLen(e, offset + bufOffset, n - bufOffset), index + 1)
  {
    MoveToNext(offset + bufOffset, e);
  }

  // buf_offset of the read loops after j iterations.
  ghost function Done(e: nat, offset: nat, n: nat, j: nat): (b: nat)
    requires e > 0
    ensures b <= n
  {
    if j == 0 then 0
    else
      var b := Done(e, offset, n, j - 1);
      b + SegmentLen(e, offset + b, n - b)
  }

  lemma {:induction false} DoneAtSegment(e: nat, offset: nat, n: nat, j: nat)
    requires e > 0
    ensures AtSegment(e, offset, n, Done(e, offset, n, j), ExtentOf(offset, e) + j)
  {
    if j > 0 {
      DoneAtSegment(e, offset, n, j - 1);
      AtSegmentStep(e, offset, n, Done(e, offset, n, j - 1), ExtentOf(offset, e) + j - 1);
    }
  }

  lemma {:induction false} DoneGrows(e: nat, offset: nat, n: nat, j: nat, k: nat)
    requires e > 0 && j <= k
    ensures Done(e, offset, n, j) <= Done(e, offset, n, k)
    decreases k
  {
    if j < k {
      DoneGrows(e, offset, n, j, k - 1);
    }
  }

  // The loops end with what MovedBy counts.
  lemma {:induction false} DoneIsMoved(e: nat, offset: nat, n: nat, start: nat, endExt: nat, j: nat)
    requires e > 0 && n < TWO64 && start + j <= endExt
    ensures MovedBy(e, offset, n, start + j, endExt, Done(e, offset, n, j)) == Done(e, offset, n, endExt - start)
    decreases endExt - j
  {
    hide OffsetIn;
    if start + j < endExt {
      DoneIsMoved(e, offset, n, start, endExt, j + 1);
    }
  }

  method CopyNext(outBuf: array<byte>, bytes: seq<byte>, b: nat, ghost whole: seq<byte>, ghost before: seq<byte>)
    requires b + |bytes| <= |whole| <= |before| && bytes == whole[b..b + |bytes|]
    requires outBuf[..] == Progress(whole, before, b)
    modifies outBuf
    ensures outBuf[..] == Progress(whole, before, b + |bytes|)
  {
    hide Progress, Splice;
    ProgressStep(whole, before, b, |bytes|);
    Memcpy(outBuf, b, bytes);
  }

  // The first b bytes of the result went to the iovecs, and the cursor stands behind them.
  ghost predicate Scattered(mem: seq<byte>, iov: seq<Iovec>, iovIdx: nat, inIovOff: nat,
                            whole: seq<byte>, before: seq<byte>, b: nat)
  {
    && InMemory(iov, |before|) && b <= |whole| <= |Addresses(iov)|
    && mem == StoredUpTo(before, iov, whole, b)
    && CursorOk(Ranges(iov), iovIdx, inIovOff) && Cursor(Ranges(iov), iovIdx, inIovOff) == b
  }

  method ScatterNext(mem: array<byte>, iov: seq<Iovec>, iovIdx: nat, inIovOff: nat, bytes: seq<byte>,
                     ghost b: nat, ghost whole: seq<byte>, ghost before: seq<byte>)
    returns (idx: nat, inOff: nat)
    requires b + |bytes| <= |whole| && bytes == whole[b..b + |bytes|]
    requires Scattered(mem[..], iov, iovIdx, inIovOff, whole, before, b)
    modifies mem
    ensures Scattered(mem[..], iov, idx, inOff, whole, before, b + |bytes|)
  {
    hide StoredUpTo, Concat, Addresses, Ranges;
    idx, inOff := Scatter(mem, iov, iovIdx, inIovOff, bytes, whole, before, b);
  }

  lemma ScatterStart(iov: seq<Iovec>, whole: seq<byte>, before: seq<byte>)
    requires InMemory(iov, |before|) && |whole| <= |Addresses(iov)|
    ensures Scattered(before, iov, 0, 0, whole, before, 0)
  {
    NothingStored(before, iov, whole);
    CursorStart(Ranges(iov));
  }

  lemma LastIndex(e: nat, offset: nat, len: nat)
    requires e > 0 && InRange(e, offset, len)
    ensures ExtentCount(offset + len, e) <= TWO64
  {
    var last := offset + len + e - 1;
    ExtentMonotone(last, last, e);
  }

  lemma DropTwice(head: seq<byte>, tail: seq<byte>, b: nat)
    requires |head| <= b <= |head| + |tail|
    ensures (head + tail)[b..] == tail[b - |head|..]
  {}

  // The rest of a read from a segment boundary on is the read of the rest.
  lemma {:induction false} FetchSuffix(x: ExtentMap, e: nat, ino: nat, offset: nat, n: nat, b: nat)
    requires e > 0 && b <= n && (b == 0 || b == n || OffsetIn(offset + b, e) == 0)
    ensures Fetch(x, e, ino, offset, n)[b..] == Fetch(x, e, ino, offset + b, n - b)
    decreases n
  {
    hide ExtentOf, OffsetIn, Chunk;
    if 0 < b < n {
      var k := SegmentLen(e, offset, n);
      if b < e - OffsetIn(offset, e) {
        MoveWithin(offset, e, b);
      }
      var whole := Fetch(x, e, ino, offset, n);
      assert whole == Chunk(x, ino, ExtentOf(offset, e), 0, k) + Fetch(x, e, ino, offset + k, n - k);
      FetchSuffix(x, e, ino, offset + k, n - k, b - k);
      DropTwice(Chunk(x, ino, ExtentOf(offset, e), 0, k), Fetch(x, e, ino, offset + k, n - k), b);
    }
  }

  // The next segment of the read is a chunk of the extent the loop visits.
  lemma FetchSegment(x: ExtentMap, e: nat, ino: nat, offset: nat, n: nat, bufOffset: nat, index: nat)
    requires e > 0 && AtSegment(e, offset, n, bufOffset, index)
    ensures var k := SegmentLen(e, offset + bufOffset, n - bufOffset);
            Fetch(x, e, ino, offset, n)[bufOffset..bufOffset + k] == Chunk(x, ino, index, 0, k)
  {
    var k := SegmentLen(e, offset + bufOffset, n - bufOffset);
    if bufOffset < n {
      FetchSuffix(x, e, ino, offset, n, bufOffset);
      assert Fetch(x, e, ino, offset, n)[bufOffset..bufOffset + k] == Fetch(x, e, ino, offset, n)[bufOffset..][..k];
    }
  }

  // What the loop has moved up to a segment boundary is the read of that many bytes.
  lemma {:induction false} FetchPrefix(x: ExtentMap, e: nat, ino: nat, offset: nat, n: nat, m: nat)
    requires e > 0 && m <= n && (m == 0 || m == n || OffsetIn(offset + m, e) == 0)
    ensures Fetch(x, e, ino, offset, n)[..m] == Fetch(x, e, ino, offset, m)
    decreases m
  {
    hide ExtentOf, OffsetIn, Chunk;
    if 0 < m < n {
      if m < e - OffsetIn(offset, e) {
        MoveWithin(offset, e, m);
      }
      var k := SegmentLen(e, offset, n);
      assert k == SegmentLen(e, offset, m);
      FetchPrefix(x, e, ino, offset + k, n - k, m - k);
      TakeAfter(Chunk(x, ino, ExtentOf(offset, e), 0, k), Fetch(x, e, ino, offset + k, n - k), m);
    }
  }

  lemma TakeAfter(head: seq<byte>, tail: seq<byte>, m: nat)
    requires |head| <= m <= |head| + |tail|
    ensures (head + tail)[..m] == head + tail[..m - |head|]
  {}

  /**
   The iterations of a read loop for the clamped length n, precomputed: cuts[j] is buf_offset before iteration j,
   which copies whole[cuts[j]..cuts[j + 1]] out of extent start + j.
   */
  ghost predicate IterationOk(x: ExtentMap, e: nat, ino: nat, offset: nat, n: nat, start: nat,
                              cuts: seq<nat>, whole: seq<byte>, j: nat)
    requires e > 0 && j + 1 < |cuts|
  {
    && cuts[j] <= cuts[j + 1] <= |whole| && cuts[j] <= n
    && cuts[j + 1] - cuts[j] == SegmentLen(e, offset + cuts[j], n - cuts[j])
    && whole[cuts[j]..cuts[j + 1]] == Chunk(x, ino, start + j, 0, cuts[j + 1] - cuts[j])
  }

  ghost predicate Plan(x: ExtentMap, e: nat, ino: nat, offset: nat, n: nat, start: nat,
                       cuts: seq<nat>, whole: seq<byte>)
    requires e > 0
  {
    && |cuts| > 0 && cuts[0] == 0 && cuts[|cuts| - 1] == |whole|
    && forall j: nat :: j + 1 < |cuts| ==> IterationOk(x, e, ino, offset, n, start, cuts, whole, j)
  }

  lemma PlanEnds(x: ExtentMap, e: nat, ino: nat, offset: nat, n: nat, start: nat, cuts: seq<nat>, whole: seq<byte>)
    requires e > 0 && Plan(x, e, ino, offset, n, start, cuts, whole)
    ensures |cuts| > 0 && cuts[0] == 0 && cuts[|cuts| - 1] == |whole|
  {}

  // The loop, bounded for len bytes and clamped to n, copies a read of as many bytes as MovedBy counts.
  lemma MakePlan(x: ExtentMap, e: nat, ino: nat, offset: nat, n: nat, len: nat) returns (cuts: seq<nat>)
    requires e > 0 && n < TWO64
    ensures ExtentOf(offset, e) <= ExtentCount(offset + len, e)
    ensures |cuts| == ExtentCount(offset + len, e) - ExtentOf(offset, e) + 1
    ensures var m := MovedBy(e, offset, n, ExtentOf(offset, e), ExtentCount(offset + len, e), 0);
            Plan(x, e, ino, offset, n, ExtentOf(offset, e), cuts, Fetch(x, e, ino, offset, m))
  {
    hide ExtentOf, ExtentCount, Fetch, Plan, Done, MovedBy;
    LoopStart(e, offset, len);
    var start, end := ExtentOf(offset, e), ExtentCount(offset + len, e);
    cuts := Cuts(e, offset, n, end - start + 1);
    assert Done(e, offset, n, 0) == 0 by { NothingDone(e, offset, n); }
    DoneIsMoved(e, offset, n, start, end, 0);
    CutsArePlan(x, e, ino, offset, n, end - start);
  }

  lemma NothingDone(e: nat, offset: nat, n: nat)
    requires e > 0
    ensures Done(e, offset, n, 0) == 0
  {}

  lemma CutsArePlan(x: ExtentMap, e: nat, ino: nat, offset: nat, n: nat, count: nat)
    requires e > 0
    ensures Plan(x, e, ino, offset, n, ExtentOf(offset, e), Cuts(e, offset, n, count + 1),
                 Fetch(x, e, ino, offset, Done(e, offset, n, count)))
  {
    hide ExtentOf, OffsetIn, Fetch, Chunk, IterationOk, Done;
    var cuts, m := Cuts(e, offset, n, count + 1), Done(e, offset, n, count);
    NothingDone(e, offset, n);
    DoneAtSegment(e, offset, n, count);
    FetchPrefix(x, e, ino, offset, n, m);
    forall j: nat | j + 1 < |cuts|
      ensures IterationOk(x, e, ino, offset, n, ExtentOf(offset, e), cuts, Fetch(x, e, ino, offset, m), j)
    {
      DoneGrows(e, offset, n, j + 1, count);
      PlanIteration(x, e, ino, offset, n, m, cuts, j);
    }
  }

  ghost function Cuts(e: nat, offset: nat, n: nat, m: nat): (cuts: seq<nat>)
    requires e > 0
    ensures |cuts| == m
    ensures forall j :: 0 <= j < m ==> cuts[j] == Done(e, offset, n, j)
  {
    seq(m, j requires 0 <= j => Done(e, offset, n, j))
  }

  lemma PlanIteration(x: ExtentMap, e: nat, ino: nat, offset: nat, n: nat, m: nat, cuts: seq<nat>, j: nat)
    requires e > 0 && j + 1 < |cuts|
    requires cuts[j] == Done(e, offset, n, j) && cuts[j + 1] == Done(e, offset, n, j + 1) <= m <= n
    requires Fetch(x, e, ino, offset, m) == Fetch(x, e, ino, offset, n)[..m]
    ensures IterationOk(x, e, ino, offset, n, ExtentOf(offset, e), cuts, Fetch(x, e, ino, offset, m), j)
  {
    hide ExtentOf, OffsetIn, Fetch, Chunk;
    var all := Fetch(x, e, ino, offset, n);
    DoneAtSegment(e, offset, n, j);
    FetchSegment(x, e, ino, offset, n, cuts[j], ExtentOf(offset, e) + j);
    assert all[..m][cuts[j]..cuts[j + 1]] == all[cuts[j]..cuts[j + 1]];
  }

  // Buffers after b bytes of the result have been handed out.
  ghost function Progress(whole: seq<byte>, before: seq<byte>, b: nat): (r: seq<byte>)
    requires b <= |whole| <= |before|
    ensures |r| == |before|
  {
    whole[..b] + before[b..]
  }

  lemma ProgressEnds(whole: seq<byte>, before: seq<byte>)
    requires |whole| <= |before|
    ensures Progress(whole, before, 0) == before
    ensures Progress(whole, before, |whole|) == whole + before[|whole|..]
  {}

  lemma ProgressStep(whole: seq<byte>, before: seq<byte>, b: nat, k: nat)
    requires b + k <= |whole| <= |before|
    ensures Splice(Progress(whole, before, b), b, whole[b..b + k]) == Progress(whole, before, b + k)
  {}

  /* ---- The read loops; data is the column the transactionless Gets see ---- */

  // db->Get on an extent key; the readers take bytes from the start of the value, or zeros if it is absent.
  method ReadExtent(e: nat, data: DataCf, ino: nat, index: nat, segmentLen: nat) returns (bytes: seq<byte>)
    requires WellFormed(e, data) && ino < TWO64 && index < TWO64 && segmentLen <= e
    ensures bytes == Chunk(ExtentsOf(data, e), ino, index, 0, segmentLen)
  {
    var log := LogOf(data, ExtentKey(index, ino));
    var segmentData := PointRead(e, log);
    PointReadIsResolve(e, log);
    ghost var x := ExtentsOf(data, e);
    assert segmentData == Extent(data, e, ino, index);
    assert (ino, index) in x <==> segmentData.Some?;
    if segmentData.Some? {
      WellFormedIsFull(data, e);
      assert x[(ino, index)] == segmentData.value;
      bytes := segmentData.value[..segmentLen];
    } else {
      bytes := Zeros(segmentLen);
    }
  }

  method ReadLoop(e: nat, data: DataCf, ino: nat, outBuf: array<byte>, n: nat, offset: nat, startExt: nat, endExt: nat,
                  ghost cuts: seq<nat>, ghost whole: seq<byte>)
    requires ExtentSize(e) && WellFormed(e, data) && ino < TWO64 && endExt <= TWO64
    requires Plan(ExtentsOf(data, e), e, ino, offset, n, startExt, cuts, whole)
    requires startExt + |cuts| == endExt + 1 && n < TWO64 && |whole| <= outBuf.Length
    modifies outBuf
    ensures outBuf[..] == whole + old(outBuf[..])[|whole|..]
  {
    var bufOffset: nat := 0;
    var index := startExt;
    hide Plan, Progress, ExtentsOf, WellFormed;
    PlanEnds(ExtentsOf(data, e), e, ino, offset, n, startExt, cuts, whole);
    ghost var before := outBuf[..];
    ProgressEnds(whole, before);
    while index < endExt
      invariant startExt <= index <= endExt && bufOffset == cuts[index - startExt] <= |whole|
      invariant outBuf[..] == Progress(whole, before, bufOffset)
    {
      var bytes := ReadNext(e, data, ino, n, offset, bufOffset, index, startExt, cuts, whole);
      CopyNext(outBuf, bytes, bufOffset, whole, before);
      bufOffset, index := bufOffset + |bytes|, index + 1;
    }
  }

  // The start of the loop body of both readers: the bytes of the next segment.
  method ReadNext(e: nat, data: DataCf, ino: nat, n: nat, offset: nat, bufOffset: nat, index: nat,
                  ghost startExt: nat, ghost cuts: seq<nat>, ghost whole: seq<byte>)
    returns (bytes: seq<byte>)
    requires ExtentSize(e) && WellFormed(e, data) && ino < TWO64 && index < TWO64 && n < TWO64
    requires Plan(ExtentsOf(data, e), e, ino, offset, n, startExt, cuts, whole)
    requires startExt <= index < startExt + |cuts| - 1 && bufOffset == cuts[index - startExt]
    ensures bufOffset + |bytes| == cuts[index + 1 - startExt] <= |whole|
    ensures bytes == whole[bufOffset..bufOffset + |bytes|]
  {
    assert IterationOk(ExtentsOf(data, e), e, ino, offset, n, startExt, cuts, whole, index - startExt);
    var _, startOff := Split(offset + bufOffset, e);
    bytes := ReadExtent(e, data, ino, index, Min(Sub64(n, bufOffset), e - startOff));
  }

  method ReadvLoop(e: nat, data: DataCf, ino: nat, mem: array<byte>, iov: seq<Iovec>, n: nat, offset: nat,
                   startExt: nat, endExt: nat,
                   ghost cuts: seq<nat>, ghost whole: seq<byte>, ghost before: seq<byte>)
    requires ExtentSize(e) && WellFormed(e, data) && ino < TWO64 && endExt <= TWO64
    requires Plan(ExtentsOf(data, e), e, ino, offset, n, startExt, cuts, whole)
    requires startExt + |cuts| == endExt + 1 && n < TWO64
    requires Scattered(mem[..], iov, 0, 0, whole, before, 0)
    modifies mem
    ensures InMemory(iov, |before|) && |whole| <= |Addresses(iov)|
    ensures mem[..] == StoredUpTo(before, iov, whole, |whole|)
  {
    hide Plan, ExtentsOf, WellFormed, StoredUpTo, InMemory, Addresses, Ranges, Concat;
    var bufOffset: nat, iovIdx: nat, inIovOff: nat := 0, 0, 0;
    var index := startExt;
    PlanEnds(ExtentsOf(data, e), e, ino, offset, n, startExt, cuts, whole);
    while index < endExt
      invariant startExt <= index <= endExt && bufOffset == cuts[index - startExt] <= |whole|
      invariant Scattered(mem[..], iov, iovIdx, inIovOff, whole, before, bufOffset)
    {
      var bytes := ReadNext(e, data, ino, n, offset, bufOffset, index, startExt, cuts, whole);
      iovIdx, inIovOff := ScatterNext(mem, iov, iovIdx, inIovOff, bytes, bufOffset, whole, before);
      bufOffset, index := bufOffset + |bytes|, index + 1;
    }
  }

  class ViveFsContext {
    const e: nat                  // VIVEFS_EXTENT_SIZE
    const sk: Key                 // INODE_SEED_KEY
    var meta: map<Key, MetaVal>   // meta_cf
    var data: DataCf              // data_cf
    var dflt: DataCf              // default_cf
    var seed: nat                 // inode_seed

    // vn_mkfs_vivefs: superblock and seed in one transaction.
    constructor Mkfs(e: nat, sk: Key, firstIno: nat)
      ensures this.e == e && this.sk == sk && data == map[] && dflt == map[]
      ensures meta == map[SUPERBLOCK_KEY := Super("vivefs_0", 0x0001_0000)][sk := Seed(firstIno)] && seed == firstIno
      ensures Meta() == Fresh(sk, firstIno)
    {
      this.e, this.sk, this.seed, this.data, this.dflt := e, sk, firstIno, map[], map[];
      this.meta := map[SUPERBLOCK_KEY := Super(VIVEFS_MAGIC_STR, VIVEFS_VER)][sk := Seed(firstIno)];
    }

    // The metadata machine's state between calls: no transaction is open.
    function Meta(): State
      reads this
    {
      State(sk, meta, seed, map[], map[])
    }

    // The part of vn_mount that reads the store: it fails if the seed or the superblock is missing, or if the
    // superblock has another magic string or version.
    method Mount() returns (ok: bool)
      modifies this`seed
      ensures ok <==> && sk in meta && meta[sk].Seed?
                      && SUPERBLOCK_KEY in meta && meta[SUPERBLOCK_KEY] == Super("vivefs_0", 0x0001_0000)
      ensures ok ==> meta[sk] == Seed(seed)
      ensures ok ==> Meta() == Next(old(Meta()), Remount)
    {
      if sk !in meta || !meta[sk].Seed? {
        return false;
      }
      seed := meta[sk].seed;
      if SUPERBLOCK_KEY !in meta || !meta[SUPERBLOCK_KEY].Super? {
        return false;
      }
      var sb := meta[SUPERBLOCK_KEY];
      if sb.magic != VIVEFS_MAGIC_STR {
        return false;
      }
      if sb.version != VIVEFS_VER {
        return false;
      }
      ok := true;
    }

    function Store(): Disk
      reads this
    {
      Disk(meta, data)
    }

    // The loop of vn_write: cut inBuf into segments and stage one operation per extent.
    method StageWrite(ino: nat, inBuf: seq<byte>, offset: nat, failed: set<nat>) returns (batch: seq<DataOp>)
      requires e > 0
      ensures batch == ToStage(e, ino, offset, inBuf, failed, 0, ExtentOf(offset, e))
    {
      hide ToStage, StageSegment, ExtentOf, ExtentCount, OffsetIn, SegmentLen;
      var len := |inBuf|;
      var index, _ := Split(offset, e);
      var endExt := CountExtents(offset + len, e);
      var buf := new byte[e];
      var bufOffset: nat := 0;
      batch := [];
      ghost var whole := ToStage(e, ino, offset, inBuf, failed, 0, index);
      while index < endExt
        invariant bufOffset <= len
        invariant batch + ToStage(e, ino, offset, inBuf, failed, bufOffset, index) == whole
        decreases if index < endExt then endExt - index else 0
      {
        var segmentLen, ops := StageNext(ino, inBuf, offset, failed, buf, bufOffset, index);
        ToStageStep(e, ino, offset, inBuf, failed, batch, bufOffset, index, segmentLen, ops);
        batch, bufOffset, index := batch + ops, bufOffset + segmentLen, index + 1;
      }
      ToStageEnds(e, ino, offset, inBuf, failed, bufOffset, index);
    }

    // The loop body: copy the segment into buf and stage it under its extent's key.
    method StageNext(ino: nat, inBuf: seq<byte>, offset: nat, failed: set<nat>, buf: array<byte>,
                     bufOffset: nat, index: nat)
      returns (segmentLen: nat, ops: seq<DataOp>)
      requires e > 0 && buf.Length == e && bufOffset <= |inBuf|
      modifies buf
      ensures segmentLen == SegmentLen(e, offset + bufOffset, |inBuf| - bufOffset)
      ensures ops == StageSegment(e, ino, Segment(index, OffsetIn(offset + bufOffset, e),
                                                  inBuf[bufOffset..bufOffset + segmentLen]), failed)
    {
      var _, startOff := Split(offset + bufOffset, e);
      segmentLen := Min(|inBuf| - bufOffset, e - startOff);
      Memcpy(buf, 0, inBuf[bufOffset..bufOffset + segmentLen]);
      ops := StageOne(ino, index, startOff, buf[0..segmentLen], failed);
    }

    // tx->Merge for a partial extent, tx->Put for a full one; a refused operation is dropped.
    function StageOne(ino: nat, index: nat, startOff: nat, segment: seq<byte>, failed: set<nat>): (ops: seq<DataOp>)
      ensures ops == StageSegment(e, ino, Segment(index, startOff, segment), failed)
    {
      if index in failed then []
      else
        var key := ExtentKey(index, ino);
        if |segment| != e then [DataOp(key, Merge(Delta(startOff % 65536, segment)))]
        else [DataOp(key, Put(segment))]
    }

    // The tail shared by vn_write and vn_writev: update the inode, persist it if the file grew, commit.
    method CommitWrite(file: ViveFile, ghost inBuf: seq<byte>, len: nat, offset: nat, ghost failed: set<nat>,
                       batch: seq<DataOp>, outcome: Outcome, now: int) returns (r: int)
      requires e > 0 && len == |inBuf|
      requires batch == StageSegments(e, file.inode.ino, WriteSegments(e, offset, inBuf), failed)
      modifies this, file, file.inode
      ensures WriteResult(old(Store()), old(file.inode.Value()), file, offset, inBuf, failed, outcome, now, r)
      ensures var commits := outcome.Committed? || (outcome.PersistFailed? && offset + |inBuf| <= old(file.inode.size));
        && r == (if commits then |inBuf| else -EIO)
        && (!commits ==> Store() == old(Store()))
        && (commits ==> meta == if offset + |inBuf| > old(file.inode.size)
                                then old(meta)[InodeKey(file.inode.ino) := Rec(file.inode.Value())] else old(meta))
      ensures file.inode.mtime == now && file.inode.size == Max(old(file.inode.size), offset + |inBuf|)
      ensures unchanged(file.inode`ino) && unchanged(file.inode`links) && unchanged(file.inode`atime)
      ensures file.dirty <==> outcome.PersistFailed? || offset + |inBuf| <= old(file.inode.size)
      ensures unchanged(file`noatime) && unchanged(`dflt) && unchanged(`seed)
    {
      file.inode.mtime := now;
      file.dirty := true;
      var grows := offset + len > file.inode.size;
      if grows {
        file.inode.size := offset + len;
        if outcome.PersistFailed? {
          return -EIO;
        }
        file.dirty := false;
      }
      if outcome.CommitFailed? {
        return -EIO;
      }
      data := CommitData(data, batch);
      if grows {
        meta := PersistInode(meta, file.inode.Value());
      }
      return len;
    }

    ghost predicate WriteResult(d: Disk, i: Inode, file: ViveFile, offset: nat, buf: seq<byte>, failed: set<nat>,
                                outcome: Outcome, now: int, r: int)
      requires e > 0
      reads this, file, file.inode
    {
      Result(Store(), file.inode.Value(), file.dirty, r) == WriteEffect(e, d, i, offset, buf, failed, outcome, now)
    }

    method Write(file: ViveFile, inBuf: seq<byte>, offset: nat, failed: set<nat>, outcome: Outcome, now: int)
      returns (r: int)
      requires ExtentSize(e)
      modifies this, file, file.inode
      ensures WriteResult(old(Store()), old(file.inode.Value()), file, offset, inBuf, failed, outcome, now, r)
      ensures var commits := outcome.Committed? || (outcome.PersistFailed? && offset + |inBuf| <= old(file.inode.size));
        && r == (if commits then |inBuf| else -EIO)
        && (!commits ==> Store() == old(Store()))
        && (commits ==> meta == if offset + |inBuf| > old(file.inode.size)
                                then old(meta)[InodeKey(file.inode.ino) := Rec(file.inode.Value())] else old(meta))
      ensures file.inode.mtime == now && file.inode.size == Max(old(file.inode.size), offset + |inBuf|)
      ensures unchanged(file.inode`ino) && unchanged(file.inode`links) && unchanged(file.inode`atime)
      ensures file.dirty <==> outcome.PersistFailed? || offset + |inBuf| <= old(file.inode.size)
      ensures unchanged(file`noatime) && unchanged(`dflt) && unchanged(`seed)
    {
      var batch := StageWrite(file.inode.ino, inBuf, offset, failed);
      WholeLoop(e, file.inode.ino, offset, inBuf, failed);
      r := CommitWrite(file, inBuf, |inBuf|, offset, failed, batch, outcome, now);
    }

    // The inner loop of vn_writev: fill buf with the next n bytes of the iovecs.
    method Gather(iov: seq<seq<byte>>, iovIdx: nat, inIovOff: nat, buf: array<byte>, n: nat)
      returns (idx: nat, inOff: nat)
      requires CursorOk(iov, iovIdx, inIovOff) && n <= buf.Length
      requires Cursor(iov, iovIdx, inIovOff) + n <= |Concat(iov)|
      modifies buf
      ensures CursorOk(iov, idx, inOff)
      ensures Cursor(iov, idx, inOff) == Cursor(iov, iovIdx, inIovOff) + n
      ensures var p := Cursor(iov, iovIdx, inIovOff); buf[0..n] == Concat(iov)[p..p + n]
    {
      hide Concat;
      idx, inOff := iovIdx, inIovOff;
      ghost var p := Cursor(iov, iovIdx, inIovOff);
      var off: nat, dataRemain: nat := 0, n;
      while dataRemain > 0
        invariant off + dataRemain == n
        invariant CursorOk(iov, idx, inOff)
        invariant Cursor(iov, idx, inOff) == p + off
        invariant buf[0..off] == Concat(iov)[p..p + off]
        decreases dataRemain, |iov| - idx
      {
        CursorInside(iov, idx);
        var iovRemain := |iov[idx]| - inOff;
        var toCopy := Min(iovRemain, dataRemain);
        ReadAtCursor(iov, idx, inOff, toCopy);
        MemcpyNext(buf, off, iov[idx][inOff..inOff + toCopy]);
        SliceMore(Concat(iov), p, off, toCopy);
        off, dataRemain, inOff := off + toCopy, dataRemain - toCopy, inOff + toCopy;
        if inOff == |iov[idx]| {
          CursorNext(iov, idx);
          idx, inOff := idx + 1, 0;
        }
      }
    }

    // The loops of vn_writev; the source asserts that no segment is empty.
    method StageWritev(ino: nat, iov: seq<seq<byte>>, offset: nat, failed: set<nat>)
      returns (len: nat, batch: seq<DataOp>)
      requires ExtentSize(e)
      requires |Concat(iov)| > 0 || OffsetIn(offset, e) == 0
      ensures len == |Concat(iov)|
      ensures batch == ToStage(e, ino, offset, Concat(iov), failed, 0, ExtentOf(offset, e))
    {
      hide ToStage, StageSegment, OffsetIn, SegmentLen, Concat;
      len := TotalLen(iov);
      var index, _ := Split(offset, e);
      var endExt := CountExtents(offset + len, e);
      var buf := new byte[e];
      var bufOffset: nat, iovIdx: nat, inIovOff: nat := 0, 0, 0;
      batch := [];
      ghost var all := Concat(iov);
      ghost var whole := ToStage(e, ino, offset, all, failed, 0, index);
      assert batch + whole == whole;
      CursorStart(iov);
      LoopStart(e, offset, len);
      while index < endExt
        invariant AtByte(e, offset, len, bufOffset, index)
        invariant batch + ToStage(e, ino, offset, all, failed, bufOffset, index) == whole
        invariant CursorOk(iov, iovIdx, inIovOff) && Cursor(iov, iovIdx, inIovOff) == bufOffset
        decreases if index < endExt then endExt - index else 0
      {
        var segmentLen, ops;
        segmentLen, ops, iovIdx, inIovOff :=
          GatherNext(ino, iov, len, offset, failed, buf, bufOffset, index, iovIdx, inIovOff);
        ToStageStep(e, ino, offset, all, failed, batch, bufOffset, index, segmentLen, ops);
        AtByteStep(e, offset, len, bufOffset, index);
        batch := batch + ops;
        assert batch + ToStage(e, ino, offset, all, failed, bufOffset + segmentLen, index + 1) == whole;
        bufOffset, index := bufOffset + segmentLen, index + 1;
      }
      ToStageEnds(e, ino, offset, all, failed, bufOffset, index);
    }

    // The loop body of vn_writev.
    method GatherNext(ino: nat, iov: seq<seq<byte>>, len: nat, offset: nat, failed: set<nat>, buf: array<byte>,
                      bufOffset: nat, index: nat, iovIdx: nat, inIovOff: nat)
      returns (segmentLen: nat, ops: seq<DataOp>, idx: nat, inOff: nat)
      requires e > 0 && buf.Length == e && bufOffset < len == |Concat(iov)|
      requires CursorOk(iov, iovIdx, inIovOff) && Cursor(iov, iovIdx, inIovOff) == bufOffset
      modifies buf
      ensures segmentLen == SegmentLen(e, offset + bufOffset, len - bufOffset)
      ensures ops == StageSegment(e, ino, Segment(index, OffsetIn(offset + bufOffset, e),
                                                  Concat(iov)[bufOffset..bufOffset + segmentLen]), failed)
      ensures CursorOk(iov, idx, inOff) && Cursor(iov, idx, inOff) == bufOffset + segmentLen
    {
      var _, startOff := Split(offset + bufOffset, e);
      segmentLen := Min(len - bufOffset, e - startOff);
      assert segmentLen > 0;
      idx, inOff := Gather(iov, iovIdx, inIovOff, buf, segmentLen);
      ops := StageOne(ino, index, startOff, buf[0..segmentLen], failed);
    }

    method TotalLen(iov: seq<seq<byte>>) returns (len: nat)
      ensures len == |Concat(iov)|
    {
      len := 0;
      assert iov[..0] == [];
      for i := 0 to |iov|
        invariant len == |Concat(iov[..i])|
      {
        ConcatTake(iov, i);
        len := len + |iov[i]|;
      }
      assert iov[..|iov|] == iov;
    }

    /** vn_writev does exactly what vn_write does with the concatenation of the buffers. */
    method Writev(file: ViveFile, iov: seq<seq<byte>>, offset: nat, failed: set<nat>, outcome: Outcome, now: int)
      returns (r: int)
      requires ExtentSize(e)
      requires |Concat(iov)| > 0 || OffsetIn(offset, e) == 0
      modifies this, file, file.inode
      ensures WriteResult(old(Store()), old(file.inode.Value()), file, offset, Concat(iov), failed, outcome, now, r)
      ensures var commits := outcome.Committed?
                             || (outcome.PersistFailed? && offset + |Concat(iov)| <= old(file.inode.size));
        && r == (if commits then |Concat(iov)| else -EIO)
        && (!commits ==> Store() == old(Store()))
        && (commits ==> meta == if offset + |Concat(iov)| > old(file.inode.size)
                                then old(meta)[InodeKey(file.inode.ino) := Rec(file.inode.Value())] else old(meta))
      ensures file.inode.mtime == now && file.inode.size == Max(old(file.inode.size), offset + |Concat(iov)|)
      ensures unchanged(file.inode`ino) && unchanged(file.inode`links) && unchanged(file.inode`atime)
      ensures file.dirty <==> outcome.PersistFailed? || offset + |Concat(iov)| <= old(file.inode.size)
      ensures unchanged(file`noatime) && unchanged(`dflt) && unchanged(`seed)
    {
      var len, batch := StageWritev(file.inode.ino, iov, offset, failed);
      WholeLoop(e, file.inode.ino, offset, Concat(iov), failed);
      r := CommitWrite(file, Concat(iov), len, offset, failed, batch, outcome, now);
    }

    method TouchFile(file: ViveFile, now: int)
      modifies file, file.inode
      ensures (file.inode.Value(), file.dirty)
           == TouchEffect(old(file.inode.Value()), old(file.dirty), old(file.noatime), now)
      ensures file.inode.atime == (if old(file.noatime) then old(file.inode.atime) else now)
      ensures unchanged(file.inode`ino) && unchanged(file.inode`size)
      ensures unchanged(file.inode`links) && unchanged(file.inode`mtime)
      ensures file.dirty <==> old(file.dirty) || !old(file.noatime)
      ensures unchanged(file`noatime)
    {
      if !file.noatime {
        file.inode.atime := now;
        file.dirty := true;
      }
    }

    /**
     vn_read.  The source has no check against reads past the end of the file; it asks of its caller a buffer for
     all the bytes it moves, which within the file are no more than len.
     */
    method Read(file: ViveFile, outBuf: array<byte>, len: nat, offset: nat, now: int) returns (n: nat)
      requires ExtentSize(e) && WellFormed(e, data) && file.inode.ino < TWO64 && file.inode.size < TWO63
      requires len <= outBuf.Length && InRange(e, offset, len)
      requires Moved(e, file.inode.size, offset, len) <= outBuf.Length
      modifies outBuf, file, file.inode
      ensures n == ClampedLen(old(file.inode.size), offset, len) < TWO64
      ensures if offset + len > old(file.inode.size) then (n + offset) % TWO64 == old(file.inode.size) else n == len
      ensures var m := Moved(e, old(file.inode.size), offset, len);
              outBuf[..] == Fetch(ExtentsOf(data, e), e, old(file.inode.ino), offset, m) + old(outBuf[..])[m..]
      ensures offset <= old(file.inode.size) ==>
        n == Moved(e, old(file.inode.size), offset, len) == Min(len, old(file.inode.size) - offset)
      ensures (file.inode.Value(), file.dirty)
           == TouchEffect(old(file.inode.Value()), old(file.dirty), old(file.noatime), now)
      ensures file.inode.atime == (if old(file.noatime) then old(file.inode.atime) else now)
      ensures unchanged(file.inode`ino) && unchanged(file.inode`size)
      ensures unchanged(file.inode`links) && unchanged(file.inode`mtime)
      ensures file.dirty <==> old(file.dirty) || !old(file.noatime)
      ensures unchanged(file`noatime)
    {
      hide ExtentOf, ExtentCount, MovedBy, Plan, ExtentsOf, WellFormed, Fetch;
      var startExt, _ := Split(offset, e);
      var endExt := CountExtents(offset + len, e);
      n := if offset + len > file.inode.size then Sub64(file.inode.size, offset) else len;
      ReadStaysInBuffer(e, file.inode.size, offset, len);
      ghost var x, ino, m := ExtentsOf(data, e), file.inode.ino, Moved(e, file.inode.size, offset, len);
      ghost var cuts := MakePlan(x, e, ino, offset, n, len);
      LastIndex(e, offset, len);
      ReadLoop(e, data, file.inode.ino, outBuf, n, offset, startExt, endExt, cuts, Fetch(x, e, ino, offset, m));
      TouchFile(file, now);
    }

    /**
     vn_readv stores exactly the bytes vn_read would return at the addresses of the buffers, in order, and nothing
     else.  The buffers may overlap.  Like vn_read it needs room for all the bytes it moves.
     */
    method Readv(file: ViveFile, mem: array<byte>, iov: seq<Iovec>, offset: nat, now: int) returns (n: nat)
      requires ExtentSize(e) && WellFormed(e, data) && file.inode.ino < TWO64 && file.inode.size < TWO63
      requires InMemory(iov, mem.Length) && InRange(e, offset, |Addresses(iov)|)
      requires Moved(e, file.inode.size, offset, |Addresses(iov)|) <= |Addresses(iov)|
      modifies mem, file, file.inode
      ensures n == ClampedLen(old(file.inode.size), offset, |Addresses(iov)|) < TWO64
      ensures if offset + |Addresses(iov)| > old(file.inode.size) then (n + offset) % TWO64 == old(file.inode.size)
              else n == |Addresses(iov)|
      ensures var m := Moved(e, old(file.inode.size), offset, |Addresses(iov)|);
              mem[..] == StoredUpTo(old(mem[..]), iov, Fetch(ExtentsOf(data, e), e, old(file.inode.ino), offset, m), m)
      ensures offset <= old(file.inode.size) ==>
        n == Moved(e, old(file.inode.size), offset, |Addresses(iov)|)
          == Min(|Addresses(iov)|, old(file.inode.size) - offset)
      ensures (file.inode.Value(), file.dirty)
           == TouchEffect(old(file.inode.Value()), old(file.dirty), old(file.noatime), now)
      ensures file.inode.atime == (if old(file.noatime) then old(file.inode.atime) else now)
      ensures unchanged(file.inode`ino) && unchanged(file.inode`size)
      ensures unchanged(file.inode`links) && unchanged(file.inode`mtime)
      ensures file.dirty <==> old(file.dirty) || !old(file.noatime)
      ensures unchanged(file`noatime)
    {
      hide Concat, Addresses, Scattered, StoredUpTo, ExtentsOf, WellFormed, Plan, ExtentOf, ExtentCount, MovedBy, Fetch;
      var len := TotalRoom(iov);
      var startExt, _ := Split(offset, e);
      var endExt := CountExtents(offset + len, e);
      n := if offset + len > file.inode.size then Sub64(file.inode.size, offset) else len;
      ReadStaysInBuffer(e, file.inode.size, offset, len);
      ghost var x, ino, m := ExtentsOf(data, e), file.inode.ino, Moved(e, file.inode.size, offset, len);
      ghost var cuts := MakePlan(x, e, ino, offset, n, len);
      LastIndex(e, offset, len);
      ghost var whole, before := Fetch(x, e, ino, offset, m), mem[..];
      ScatterStart(iov, whole, before);
      ReadvLoop(e, data, file.inode.ino, mem, iov, n, offset, startExt, endExt, cuts, whole, before);
      TouchFile(file, now);
    }

    method TotalRoom(iov: seq<Iovec>) returns (len: nat)
      ensures len == |Addresses(iov)|
    {
      len := 0;
      ghost var c := Ranges(iov);
      assert c[..0] == [];
      for i := 0 to |iov|
        invariant len == |Concat(c[..i])|
      {
        ConcatTake(c, i);
        len := len + iov[i].len;
      }
      assert c[..|iov|] == c;
    }

    /* ---- Open with O_TRUNC, fsync, close ---- */

    // One Delete per extent below ceil(i_size / i_extent_size).
    method StageDeletes(ino: nat, size: nat, failed: set<nat>) returns (batch: seq<DataOp>)
      requires e > 0
      ensures batch == TruncateOps(ino, 0, ExtentCount(size, e), failed)
    {
      var extCnt := CountExtents(size, e);
      batch := [];
      hide ExtentKey, ExtentCount;
      for i := 0 to extCnt
        invariant batch + TruncateOps(ino, i, extCnt, failed) == TruncateOps(ino, 0, extCnt, failed)
      {
        DeletesStep(ino, i, extCnt, failed, batch);
        if i !in failed {
          batch := batch + [DataOp(ExtentKey(i, ino), Delete)];
        }
      }
    }

    method OpenByInode(inode: ViveInode, trunc: bool, noatime: bool, locked: bool, failed: set<nat>, outcome: Outcome)
      returns (f: ViveFile?)
      requires e > 0
      modifies this`meta, this`data, inode`size
      ensures trunc ==>
        Result(Store(), inode.Value(), false, if f != null then 0 else -1)
        == TruncateEffect(e, old(Store()), old(inode.Value()), locked, failed, outcome)
      ensures !trunc ==> f != null && Store() == old(Store()) && inode.Value() == old(inode.Value())
      ensures trunc ==> (f == null <==> !locked || InodeKey(inode.ino) !in old(meta) || !outcome.Committed?)
      ensures trunc ==> inode.size == if locked && InodeKey(inode.ino) in old(meta) then 0 else old(inode.size)
      ensures trunc && f == null ==> Store() == old(Store())
      ensures trunc && f != null ==> meta == old(meta)[InodeKey(inode.ino) := Rec(inode.Value())]
      ensures f != null ==> fresh(f) && f.inode == inode && !f.dirty && f.noatime == noatime
    {
      if trunc {
        if !locked || InodeKey(inode.ino) !in meta {
          return null;
        }
        var batch := StageDeletes(inode.ino, inode.size, failed);
        inode.size := 0;
        if !outcome.Committed? {
          return null;
        }
        data := CommitData(data, batch);
        meta := PersistInode(meta, inode.Value());
      }
      f := new ViveFile(inode, noatime);
    }

    method Fsync(file: ViveFile, outcome: Outcome) returns (r: int)
      modifies this`meta, file`dirty
      ensures Result(Store(), file.inode.Value(), file.dirty, r)
           == FsyncEffect(old(Store()), file.inode.Value(), old(file.dirty), outcome)
      ensures r == -EIO && (file.dirty <==> old(file.dirty) && outcome.PersistFailed?)
      ensures meta == if old(file.dirty) && outcome.Committed?
                      then old(meta)[InodeKey(file.inode.ino) := Rec(file.inode.Value())] else old(meta)
    {
      var staged := file.dirty;
      if file.dirty {
        if outcome.PersistFailed? {
          return -EIO;
        }
        file.dirty := false;
      }
      if outcome.CommitFailed? {
        return -EIO;
      }
      if staged {
        meta := PersistInode(meta, file.inode.Value());
      }
      return -EIO;
    }

    // vn_close_file syncs the handle and ignores the result.
    method Close(file: ViveFile, outcome: Outcome) returns (r: int)
      modifies this`meta, file`dirty
      ensures r == 0
      ensures Store() == FsyncEffect(old(Store()), file.inode.Value(), old(file.dirty), outcome).disk
      ensures meta == if old(file.dirty) && outcome.Committed?
                      then old(meta)[InodeKey(file.inode.ino) := Rec(file.inode.Value())] else old(meta)
    {
      var _ := Fsync(file, outcome);
      r := 0;
    }

    /* ---- Names ---- */

    method GenerateInodeNo() returns (ino: nat)
      modifies this`seed
      ensures ino == old(seed) && seed == old(seed) + 1
    {
      ino := seed;
      seed := seed + 1;
    }

    /**
     vn_create_file with no other call in between.  lockFails says that GetForUpdate returned an error, which
     the code takes for "not found".  A failed call still uses up an inode number.
     */
    method CreateFile(parent: int, name: seq<byte>, now: int, lockFails: bool, outcome: Outcome)
      returns (r: int, inode: ViveInode?)
      requires CString(name)
      modifies this`meta, this`seed
      ensures Meta() == Run(old(Meta()), CreateSteps(old(meta), parent, name, now, lockFails, outcome))
      ensures r == if NameKey(parent, name) in old(meta) && !lockFails then -EEXIST
                   else if outcome.Committed? then old(seed) else -EIO
      ensures r >= 0 <==> inode != null
      ensures inode != null ==> fresh(inode) && inode.Value() == Inode(old(seed), 0, 1, now, now)
      ensures seed == old(seed) + 1
      ensures meta == if r < 0 then old(meta)
                      else old(meta)[NameKey(parent, name) := Ino(r)][InodeKey(r) := Rec(Inode(r, 0, 1, now, now))]
                                    [sk := Seed(r + 1)]
    {
      inode := null;
      var ino := GenerateInodeNo();
      ghost var s0 := old(Meta());
      var fileKey := NameKey(parent, name);
      if !lockFails && fileKey in meta {
        ExistingCallEffect(s0, 0, parent, name, now);
        return -EEXIST, null;
      }
      if !outcome.Committed? {
        AbortedCallEffect(s0, 0, parent, name, now, lockFails, if outcome.PersistFailed? then 3 else 5);
        return -EIO, null;
      }
      CreateCallEffect(s0, 0, parent, name, now, lockFails);
      meta := meta[fileKey := Ino(ino)][InodeKey(ino) := Rec(NewInode(ino, now))][sk := Seed(seed)];
      inode := new ViveInode(NewInode(ino, now));
      r := ino;
    }

    // Two Gets: the name, then the inode record.
    method LookupInodeNo(parent: int, name: seq<byte>) returns (r: int, inode: ViveInode?)
      ensures match Lookup(meta, parent, name)
              case Found(ino, i) => r == ino && inode != null && fresh(inode) && inode.Value() == i
              case _ => r == -1 && inode == null
      ensures var k := NameKey(parent, name);
        if k in meta && meta[k].Ino? && InodeKey(meta[k].ino) in meta && meta[InodeKey(meta[k].ino)].Rec?
        then r == meta[k].ino && inode != null && inode.Value() == meta[InodeKey(meta[k].ino)].inode
        else r == -1 && inode == null
    {
      var fileKey := NameKey(parent, name);
      if fileKey !in meta || !meta[fileKey].Ino? {
        return -1, null;
      }
      var ino := meta[fileKey].ino;
      if InodeKey(ino) !in meta || !meta[InodeKey(ino)].Rec? {
        return -1, null;
      }
      inode := new ViveInode(meta[InodeKey(ino)].inode);
      r := ino;
    }

    /**
     vn_unlink: the extents are deleted in default_cf, where none are; data_cf keeps them.  The status of the
     Deletes is ignored: `refused` says that the one of the name was not staged, `failed` which extents' were
     not.  The call returns 0 all the same, and the name stays bound.
     */
    method Unlink(parent: int, name: seq<byte>, refused: bool, failed: set<nat>, outcome: Outcome) returns (r: int)
      requires e > 0 && CString(name)
      modifies this`meta, this`dflt
      ensures r == if !Lookup(old(meta), parent, name).Found? then -ENOENT
                   else if outcome.Committed? then 0 else -EIO
      ensures r != 0 ==> meta == old(meta) && dflt == old(dflt)
      ensures r == 0 ==>
        var i := Lookup(old(meta), parent, name).inode;
        && (if i.links == 1 && refused then meta == old(meta)
            else Meta() == Run(old(Meta()), UnlinkCall(0, parent, name)))
        && (i.links == 1 ==> (NameKey(parent, name) !in meta <==> !refused))
        && meta == (if i.links != 1 then old(meta)[InodeKey(i.ino) := Rec(i.(links := i.links - 1))]
                    else if refused then old(meta) else old(meta) - {NameKey(parent, name)})
        && dflt == if i.links == 1 then CommitData(old(dflt), TruncateOps(i.ino, 0, ExtentCount(i.size, e), failed))
                   else old(dflt)
    {
      var ino, inode := LookupInodeNo(parent, name);
      if ino < 0 {
        return -ENOENT;
      }
      ghost var s0 := Meta();
      inode.links := inode.links - 1;
      var batch: seq<DataOp> := [];
      if inode.links == 0 {
        batch := StageDeletes(inode.ino, inode.size, failed);
      }
      if !outcome.Committed? {
        return -EIO;
      }
      UnlinkCallEffect(s0, 0, parent, name);
      if inode.links == 0 {
        dflt := CommitData(dflt, batch);
        if !refused {
          meta := meta - {NameKey(parent, name)};
        }
      } else {
        meta := PersistInode(meta, inode.Value());
      }
      r := 0;
    }

    /**
     vn_open_file.  In a consistent store the record of a bound name is always there: the call returns NULL only
     for a missing name without O_CREAT, a failed create, or a failed truncation.
     */
    method OpenFile(parent: int, name: seq<byte>, creat: bool, trunc: bool, noatime: bool, now: int,
                    createOutcome: Outcome, locked: bool, failed: set<nat>, outcome: Outcome)
      returns (f: ViveFile?)
      requires e > 0 && CString(name) && Inv(Meta()) && seed < TWO56
      modifies this`meta, this`data, this`seed
      ensures var r := Lookup(old(meta), parent, name);
        && (f == null <==>
              || (r.NotFound? && !(creat && createOutcome.Committed?))
              || (trunc && !(locked && outcome.Committed?)))
        && (f != null ==> f.inode.Value() == (var i := if r.Found? then r.inode else NewInode(old(seed), now);
                                              if trunc then i.(size := 0) else i))
      ensures var r := Lookup(old(meta), parent, name);
        var s := if r.NotFound? && creat
                 then Run(old(Meta()), CreateSteps(old(meta), parent, name, now, false, createOutcome))
                 else old(Meta());
        var i := if r.Found? then r.inode else NewInode(old(seed), now);
        && seed == s.seed
        && Store() == if f != null && trunc
                      then TruncateEffect(e, Disk(s.meta, old(data)), i, locked, failed, outcome).disk
                      else Disk(s.meta, old(data))
      ensures f != null && NameKey(parent, name) in old(meta) ==>
        var v := old(meta)[NameKey(parent, name)];
        && v.Ino? && InodeKey(v.ino) in old(meta) && old(meta)[InodeKey(v.ino)].Rec?
        && var i := old(meta)[InodeKey(v.ino)].inode; f.inode.Value() == if trunc then i.(size := 0) else i
      ensures f != null && NameKey(parent, name) !in old(meta) ==> f.inode.Value() == Inode(old(seed), 0, 1, now, now)
      ensures f != null ==> !f.dirty && f.noatime == noatime
    {
      var ino: nat;
      var fileKey := NameKey(parent, name);
      LookupInInv(Meta(), parent, name);
      if fileKey !in meta {
        if !creat {
          return null;
        }
        var r, _ := CreateFile(parent, name, now, false, createOutcome);
        if r < 0 {
          return null;
        }
        ino := r;
        CreateCallEffect(old(Meta()), 0, parent, name, now, false);
        InodeKeyApart(old(Meta()), ino, parent, name);
      } else {
        ino := meta[fileKey].ino;
      }
      if InodeKey(ino) !in meta || !meta[InodeKey(ino)].Rec? {
        return null;
      }
      var inode := new ViveInode(meta[InodeKey(ino)].inode);
      f := OpenByInode(inode, trunc, noatime, locked, failed, outcome);
    }
  }
}
