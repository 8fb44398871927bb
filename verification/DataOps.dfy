/**
 The whole effect of one data-path call on the store, on the shared in-memory inode and on the handle's
 dirty flag, for every way staging and commit can end.  The imperative methods of DataPath are proved
 equal to these; the run machine of FileSystem is built from them.
 */
module DataOps {
  import opened Bytes
  import opened Extents
  import opened FlatFile
  import opened MetaKeys
  import opened Metadata
  import MergeLog

  const EIO: int := 5

  datatype Disk = Disk(meta: map<Key, MetaVal>, data: DataCf)

  // How the transaction of a call ends: committed, or one of the two error returns.
  datatype Outcome = Committed | PersistFailed | CommitFailed

  datatype Result = Result(disk: Disk, inode: Inode, dirty: bool, ret: int)

  function PersistInode(meta: map<Key, MetaVal>, i: Inode): map<Key, MetaVal> {
    meta[InodeKey(i.ino) := Rec(i)]
  }

  // vn_write; failed names the extents whose Put or Merge could not be staged (that is only logged).
  function WriteEffect(e: nat, d: Disk, i: Inode, off: nat, buf: seq<byte>, failed: set<nat>,
                       outcome: Outcome, now: int): Result
    requires e > 0
  {
    var data' := CommitData(d.data, StageSegments(e, i.ino, WriteSegments(e, off, buf), failed));
    if off + |buf| > i.size then
      var i' := i.(mtime := now, size := off + |buf|);
      match outcome
      case PersistFailed => Result(d, i', true, -EIO)
      case CommitFailed => Result(d, i', false, -EIO)
      case Committed => Result(Disk(PersistInode(d.meta, i'), data'), i', false, |buf|)
    else
      var i' := i.(mtime := now);
      if outcome.CommitFailed? then Result(d, i', true, -EIO)
      else Result(Disk(d.meta, data'), i', true, |buf|)
  }

  // The O_TRUNC branch of vn_open_file_by_inode; ret is 0 for an open file and -1 for NULL.
  // locked says that GetForUpdate got the lock; failed names the extents whose Delete was not staged.
  function TruncateEffect(e: nat, d: Disk, i: Inode, locked: bool, failed: set<nat>, outcome: Outcome): Result
    requires e > 0
  {
    if !locked || InodeKey(i.ino) !in d.meta then Result(d, i, false, -1)
    else
      var i' := i.(size := 0);
      var data' := CommitData(d.data, TruncateOps(i.ino, 0, ExtentCount(i.size, e), failed));
      if outcome.Committed? then Result(Disk(PersistInode(d.meta, i'), data'), i', false, 0)
      else Result(d, i', false, -1)
  }

  // The atime update at the end of vn_read and vn_readv.
  function TouchEffect(i: Inode, dirty: bool, noatime: bool, now: int): (Inode, bool) {
    if noatime then (i, dirty) else (i.(atime := now), true)
  }

  // vn_fsync returns -EIO on every path; what it does is store a dirty inode.
  function FsyncEffect(d: Disk, i: Inode, dirty: bool, outcome: Outcome): Result {
    if dirty && outcome.PersistFailed? then Result(d, i, true, -EIO)
    else if dirty && outcome.Committed? then Result(d.(meta := PersistInode(d.meta, i)), i, false, -EIO)
    else Result(d, i, false, -EIO)
  }

  /* ---- What the calls mean for the flat file ---- */

  function Grow(f: seq<byte>, n: nat): (g: seq<byte>)
    ensures |g| == Max(|f|, n)
  {
    f + Zeros(Max(|f|, n) - |f|)
  }

  // The specification of a write.  If the transaction does not commit the data is lost, but the in-memory
  // size has grown.  Persisting the inode can only fail when the file grows.
  function FlatAfterWrite(e: nat, f: seq<byte>, off: nat, buf: seq<byte>, failed: set<nat>, outcome: Outcome)
    : (g: seq<byte>)
    requires e > 0
    ensures |g| == Max(|f|, off + |buf|)
  {
    if outcome.Committed? || (outcome.PersistFailed? && off + |buf| <= |f|) then FlatWrite(e, f, off, buf, failed)
    else Grow(f, off + |buf|)
  }

  lemma GrowRepresents(x: ExtentMap, e: nat, ino: nat, f: seq<byte>, n: nat)
    requires e > 0 && Represents(x, e, ino, f)
    ensures Represents(x, e, ino, Grow(f, n))
  {
    CountMonotone(|f|, Max(|f|, n), e);
    var g := Grow(f, n);
    forall p: nat ensures ByteAt(x, e, ino, p) == if p < |g| then g[p] else 0 {
      assert ByteAt(x, e, ino, p) == if p < |f| then f[p] else 0;
    }
  }

  // The store-level write is the extent-map write.
  lemma WriteMeaning(e: nat, data: DataCf, ino: nat, off: nat, buf: seq<byte>, failed: set<nat>)
    requires ExtentSize(e) && WellFormed(e, data) && ino < TWO64 && InRange(e, off, |buf|)
    ensures var data' := CommitData(data, StageSegments(e, ino, WriteSegments(e, off, buf), failed));
            && WellFormed(e, data')
            && ExtentsOf(data', e) == AfterWrite(ExtentsOf(data, e), e, ino, off, buf, failed)
  {
    WriteSegmentsBound(e, off, buf);
    var n := off + |buf| + e - 1;
    ExtentMonotone(n, n, e);
    forall s | s in WriteSegments(e, off, buf) ensures Addressable(e, s) {}
    CommitSegmentsMeaning(data, e, ino, WriteSegments(e, off, buf), failed);
  }

  /**
   One vn_write call, whatever goes wrong: the file becomes the flat write (or just grows, if nothing was
   committed) and every other file keeps its bytes.
   */
  lemma WriteEffectOnFile(e: nat, d: Disk, i: Inode, f: seq<byte>, off: nat, buf: seq<byte>, failed: set<nat>,
                          outcome: Outcome, now: int)
    requires ExtentSize(e) && WellFormed(e, d.data) && i.ino < TWO64 && InRange(e, off, |buf|)
    requires Represents(ExtentsOf(d.data, e), e, i.ino, f) && |f| == i.size
    ensures var r := WriteEffect(e, d, i, off, buf, failed, outcome, now);
            var g := FlatAfterWrite(e, f, off, buf, failed, outcome);
            && WellFormed(e, r.disk.data)
            && Represents(ExtentsOf(r.disk.data, e), e, i.ino, g) && |g| == r.inode.size
            && r.inode.ino == i.ino && r.inode.links == i.links
  {
    hide ExtentsOf, Represents, WellFormed, Full, CommitData, StageSegments, WriteSegments, AfterWrite, InodeKey;
    var x := ExtentsOf(d.data, e);
    var r := WriteEffect(e, d, i, off, buf, failed, outcome, now);
    if r.ret >= 0 {
      WellFormedIsFull(d.data, e);
      WriteMeaning(e, d.data, i.ino, off, buf, failed);
      WriteRepresents(x, e, i.ino, f, off, buf, failed);
    } else {
      GrowRepresents(x, e, i.ino, f, off + |buf|);
    }
  }

  lemma WriteEffectElsewhere(e: nat, d: Disk, i: Inode, off: nat, buf: seq<byte>, failed: set<nat>,
                             outcome: Outcome, now: int, ino': nat, g: seq<byte>)
    requires ExtentSize(e) && WellFormed(e, d.data) && i.ino < TWO64 && InRange(e, off, |buf|)
    requires ino' != i.ino && Represents(ExtentsOf(d.data, e), e, ino', g)
    ensures Represents(ExtentsOf(WriteEffect(e, d, i, off, buf, failed, outcome, now).disk.data, e), e, ino', g)
  {
    hide ExtentsOf, Represents, WellFormed, Full, CommitData, StageSegments, WriteSegments, AfterWrite, InodeKey;
    WellFormedIsFull(d.data, e);
    WriteMeaning(e, d.data, i.ino, off, buf, failed);
    WriteKeepsOthers(ExtentsOf(d.data, e), e, i.ino, off, buf, failed, ino', g);
  }

  /**
   POSIX says that an empty write has no effect.  Here it leaves the file alone exactly up to the end of the file,
   and the store exactly on extent boundaries: elsewhere it stages an empty delta.
   */
  lemma EmptyWriteEffect(e: nat, d: Disk, i: Inode, f: seq<byte>, off: nat, now: int)
    requires ExtentSize(e) && WellFormed(e, d.data) && i.ino < TWO64 && InRange(e, off, 0)
    requires Represents(ExtentsOf(d.data, e), e, i.ino, f) && |f| == i.size
    ensures var r := WriteEffect(e, d, i, off, [], {}, Committed, now);
            && (r.inode.size == i.size <==> off <= i.size)
            && (FlatAfterWrite(e, f, off, [], {}, Committed) == f <==> off <= i.size)
            && (r.disk.data == d.data <==> OffsetIn(off, e) == 0)
            && (OffsetIn(off, e) != 0 ==>
                  var k := ExtentKey(ExtentOf(off, e), i.ino);
                  r.disk.data == d.data[k := LogOf(d.data, k) + [MergeLog.Merge(MergeLog.Delta(OffsetIn(off, e), []))]])
  {
    hide ExtentsOf, Represents, WellFormed, ExtentOf, OffsetIn;
    var segs := WriteSegments(e, off, []);
    if OffsetIn(off, e) == 0 {
      assert segs == [];
    } else {
      var s := Segment(ExtentOf(off, e), OffsetIn(off, e), []);
      assert segs == [s];
      CommitAppends(e, d.data, i.ino, s);
    }
  }

  lemma CommitAppends(e: nat, data: DataCf, ino: nat, s: Segment)
    ensures CommitData(data, StageSegments(e, ino, [s], {}))
         == data[ExtentKey(s.index, ino) := LogOf(data, ExtentKey(s.index, ino)) + [SegmentOp(e, s)]]
    ensures CommitData(data, StageSegments(e, ino, [s], {})) != data
  {
    hide ExtentKey, SegmentOp;
    var d := DataOp(ExtentKey(s.index, ino), SegmentOp(e, s));
    assert StageSegments(e, ino, [s], {}) == [d] by { assert [s][1..] == []; }
    assert CommitData(CommitOne(data, d), []) == CommitOne(data, d);
    assert [d][1..] == [];
    assert |CommitOne(data, d)[d.key]| == |LogOf(data, d.key)| + 1;
  }

  lemma TruncateDataMeaning(e: nat, data: DataCf, i: Inode, failed: set<nat>)
    requires ExtentSize(e) && WellFormed(e, data) && i.ino < TWO64 && i.size <= TWO63
    ensures var data' := CommitData(data, TruncateOps(i.ino, 0, ExtentCount(i.size, e), failed));
            && WellFormed(e, data')
            && ExtentsOf(data', e) == AfterTruncate(ExtentsOf(data, e), i.ino, 0, ExtentCount(i.size, e), failed)
  {
    var n := i.size + e - 1;
    ExtentMonotone(n, n, e);
    TruncateMeaning(data, e, i.ino, 0, ExtentCount(i.size, e), failed);
  }

  /* ---- When failures leave bytes behind ---- */

  // The byte was not deleted: the transaction failed, or the Delete of its extent was refused.
  predicate Survives(e: nat, failed: set<nat>, outcome: Outcome, p: nat)
    requires e > 0
  {
    !outcome.Committed? || ExtentOf(p, e) in failed
  }

  // Every later write leaves the bytes it would leave in an empty file.
  ghost predicate WritesAsEmpty(e: nat, t: Result, now: int)
    requires e > 0
  {
    forall off: nat, buf: seq<byte>, p: nat :: InRange(e, off, |buf|) && p < off + |buf| ==>
      var w := WriteEffect(e, t.disk, t.inode, off, buf, {}, Committed, now);
      ByteAt(ExtentsOf(w.disk.data, e), e, t.inode.ino, p) == FlatWrite(e, [], off, buf, {})[p]
  }

  /**
   A truncation that took the lock sets the in-memory size to 0, whatever else fails.  No later write brings an
   old byte back exactly when every byte that was not deleted is zero.
   */
  lemma TruncateHidesIffZero(e: nat, d: Disk, i: Inode, f: seq<byte>, failed: set<nat>, outcome: Outcome, now: int)
    requires ExtentSize(e) && WellFormed(e, d.data) && i.ino < TWO64 && InRange(e, i.size, 0)
    requires Represents(ExtentsOf(d.data, e), e, i.ino, f) && |f| == i.size && InodeKey(i.ino) in d.meta
    ensures var t := TruncateEffect(e, d, i, true, failed, outcome);
            && t.inode.size == 0
            && (WritesAsEmpty(e, t, now) <==> forall p: nat :: p < |f| && Survives(e, failed, outcome, p) ==> f[p] == 0)
  {
    hide Represents, ExtentsOf, WellFormed, CommitData, TruncateOps, StageSegments, WriteSegments;
    hide ExtentOf, ExtentCount;
    var t := TruncateEffect(e, d, i, true, failed, outcome);
    if WritesAsEmpty(e, t, now) {
      forall p: nat | p < |f| && Survives(e, failed, outcome, p) ensures f[p] == 0 {
        LaterByte(e, d, i, f, failed, outcome, now, p + 1, [], p);
      }
    }
    if forall p: nat :: p < |f| && Survives(e, failed, outcome, p) ==> f[p] == 0 {
      forall off: nat, buf: seq<byte>, p: nat | InRange(e, off, |buf|) && p < off + |buf|
        ensures var w := WriteEffect(e, t.disk, t.inode, off, buf, {}, Committed, now);
                ByteAt(ExtentsOf(w.disk.data, e), e, t.inode.ino, p) == FlatWrite(e, [], off, buf, {})[p]
      {
        LaterByte(e, d, i, f, failed, outcome, now, off, buf, p);
      }
    }
  }

  lemma TruncatedByte(e: nat, d: Disk, i: Inode, f: seq<byte>, failed: set<nat>, outcome: Outcome, p: nat)
    requires ExtentSize(e) && WellFormed(e, d.data) && i.ino < TWO64 && i.size <= TWO63
    requires Represents(ExtentsOf(d.data, e), e, i.ino, f) && |f| == i.size && InodeKey(i.ino) in d.meta
    ensures var t := TruncateEffect(e, d, i, true, failed, outcome);
            && WellFormed(e, t.disk.data)
            && ByteAt(ExtentsOf(t.disk.data, e), e, i.ino, p)
               == if p < |f| && Survives(e, failed, outcome, p) then f[p] else 0
  {
    hide ExtentsOf, WellFormed, TruncateOps, CommitData;
    var x := ExtentsOf(d.data, e);
    TruncateDataMeaning(e, d.data, i, failed);
    CountSpec(p, |f|, e);
    assert ByteAt(x, e, i.ino, p) == if p < |f| then f[p] else 0;
  }

  // What a write after a truncation leaves at p.
  lemma LaterByte(e: nat, d: Disk, i: Inode, f: seq<byte>, failed: set<nat>, outcome: Outcome, now: int,
                  off: nat, buf: seq<byte>, p: nat)
    requires ExtentSize(e) && WellFormed(e, d.data) && i.ino < TWO64 && i.size <= TWO63 && InRange(e, off, |buf|)
    requires Represents(ExtentsOf(d.data, e), e, i.ino, f) && |f| == i.size && InodeKey(i.ino) in d.meta
    ensures var t := TruncateEffect(e, d, i, true, failed, outcome);
            var w := WriteEffect(e, t.disk, t.inode, off, buf, {}, Committed, now);
            ByteAt(ExtentsOf(w.disk.data, e), e, i.ino, p)
            == if off <= p < off + |buf| then buf[p - off]
               else if p < |f| && Survives(e, failed, outcome, p) then f[p] else 0
  {
    hide Represents, ExtentsOf, WellFormed, TruncateOps, CommitData, StageSegments, WriteSegments, ExtentOf;
    var t := TruncateEffect(e, d, i, true, failed, outcome);
    var x := ExtentsOf(t.disk.data, e);
    TruncatedByte(e, d, i, f, failed, outcome, p);
    WellFormedIsFull(t.disk.data, e);
    WriteMeaning(e, t.disk.data, i.ino, off, buf, {});
    WriteWritten(x, e, i.ino, off, buf, {});
  }

  // A sparse write after a failed truncation shows the old byte where a hole should be.
  lemma FailedTruncateReexposes(e: nat, d: Disk, i: Inode, f: seq<byte>, outcome: Outcome, p: nat, off: nat, now: int)
    requires ExtentSize(e) && WellFormed(e, d.data) && i.ino < TWO64 && InRange(e, off, 1)
    requires Represents(ExtentsOf(d.data, e), e, i.ino, f) && |f| == i.size
    requires InodeKey(i.ino) in d.meta && !outcome.Committed?
    requires p < |f| && f[p] != 0 && p < off
    ensures var t := TruncateEffect(e, d, i, true, {}, outcome);
            var w := WriteEffect(e, t.disk, t.inode, off, [7], {}, Committed, now);
            && w.inode.size == off + 1
            && FlatWrite(e, [], off, [7], {})[p] == 0
            && ByteAt(ExtentsOf(w.disk.data, e), e, i.ino, p) == f[p]
  {
    var x := ExtentsOf(d.data, e);
    WellFormedIsFull(d.data, e);
    WriteMeaning(e, d.data, i.ino, off, [7], {});
    WriteWritten(x, e, i.ino, off, [7], {});
    assert ByteAt(x, e, i.ino, p) == f[p];
  }

  // After a failed growing write, a second write commits data but no inode: the record's size is too small.
  lemma FailedGrowthStraysPastRecord(e: nat, d: Disk, i: Inode, off: nat, buf: seq<byte>, now: int)
    requires ExtentSize(e) && WellFormed(e, d.data) && i.ino < TWO64 && InRange(e, off, |buf|)
    requires buf != [] && off >= i.size && d.meta == PersistInode(d.meta, i)
    ensures var a := WriteEffect(e, d, i, off, buf, {}, CommitFailed, now);
            var b := WriteEffect(e, a.disk, a.inode, off, buf, {}, Committed, now);
            && b.ret == |buf|
            && b.disk.meta[InodeKey(i.ino)] == Rec(i) && b.inode.size > i.size
            && ByteAt(ExtentsOf(b.disk.data, e), e, i.ino, off) == buf[0]
  {
    WellFormedIsFull(d.data, e);
    WriteMeaning(e, d.data, i.ino, off, buf, {});
    WriteWritten(ExtentsOf(d.data, e), e, i.ino, off, buf, {});
    assert off <= off < off + |buf|;
  }

  /**
   Handles must share the in-memory inode.  If two handles each hold a copy made from the same record, the second
   writer stores its stale size; the recorded size is right exactly when the second write stays within the old
   size or ends at or after the first.
   */
  lemma PrivateInodesKeepSizeIff(e: nat, d: Disk, i: Inode, off1: nat, buf1: seq<byte>,
                                 off2: nat, buf2: seq<byte>, now: int)
    requires e > 0 && d.meta == PersistInode(d.meta, i)
    ensures var a := WriteEffect(e, d, i, off1, buf1, {}, Committed, now);
            var b := WriteEffect(e, a.disk, i, off2, buf2, {}, Committed, now);
            var k := InodeKey(i.ino);
            && k in b.disk.meta && b.disk.meta[k].Rec?
            && (b.disk.meta[k].inode.size == Max(i.size, Max(off1 + |buf1|, off2 + |buf2|))
                <==> off2 + |buf2| <= i.size || off1 + |buf1| <= off2 + |buf2|)
  {
    hide InodeKey, CommitData, StageSegments, WriteSegments;
    var k := InodeKey(i.ino);
    assert d.meta[k] == Rec(i);
  }
}
