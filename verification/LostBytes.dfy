/**
 A run in which every call succeeds and a byte is lost: a file gets a full extent and two small writes to it,
 then the store joins the two deltas above the full extent.
 */
module LostBytes {
  import opened Bytes
  import opened Extents
  import opened FlatFile
  import opened ReadSpec
  import opened MetaKeys
  import opened Metadata
  import opened MetadataInv
  import opened MetadataRuns
  import opened MetadataCalls
  import opened DataOps
  import opened FileSystem
  import MergeLog

  /* ---- Runs in pieces ---- */

  lemma {:induction false} FsRunConcat(e: nat, s: Fs, a: seq<FsStep>, b: seq<FsStep>, files: Files)
    requires e > 0
    ensures FsRun(e, s, a + b) == FsRun(e, FsRun(e, s, a), b)
    ensures FlatRun(e, s, a + b, files) == FlatRun(e, FsRun(e, s, a), b, FlatRun(e, s, a, files))
    decreases |a|
  {
    if a == [] {
      assert a + b == b;
    } else {
      assert (a + b)[0] == a[0] && (a + b)[1..] == a[1..] + b;
      FsRunConcat(e, FsNext(e, s, a[0]), a[1..], b, FlatStep(e, s, a[0], files));
    }
  }

  function MetaSteps(steps: seq<Step>): seq<FsStep> {
    if steps == [] then [] else [MetaStep(steps[0])] + MetaSteps(steps[1..])
  }

  // The metadata part of the machine runs by itself.
  lemma {:induction false} MetaRun(e: nat, s: Fs, steps: seq<Step>, files: Files)
    requires e > 0 && forall i :: 0 <= i < |steps| ==> !steps[i].Persist? && !steps[i].Remount?
    ensures FsRun(e, s, MetaSteps(steps)) == s.(m := Run(s.m, steps))
    ensures FlatRun(e, s, MetaSteps(steps), files) == files
    decreases |steps|
  {
    if steps != [] {
      var all := MetaSteps(steps);
      assert all[0] == MetaStep(steps[0]) && all[1..] == MetaSteps(steps[1..]);
      MetaRun(e, FsNext(e, s, all[0]), steps[1..], files);
    }
  }

  /* ---- Writes into the first extent of an open file ---- */

  predicate Opened(s: Fs, ino: nat, size: nat) {
    && 0 in s.handles && s.handles[0].ino == ino && ino in s.mem
    && s.mem[ino].ino == ino && s.mem[ino].size == size
  }

  lemma OneSegment(e: nat, off: nat, buf: seq<byte>)
    requires 0 < e && off + |buf| <= e && buf != []
    ensures WriteSegments(e, off, buf) == [Segment(0, off, buf)]
  {
    assert SegmentLen(e, off, |buf|) == |buf|;
    assert buf[..|buf|] == buf && Tile(e, off + |buf|, buf[|buf|..]) == [];
  }

  lemma WriteFirstExtent(e: nat, s: Fs, files: Files, ino: nat, size: nat, off: nat, buf: seq<byte>, now: int)
    requires ExtentSize(e) && Opened(s, ino, size) && off + |buf| <= e && buf != []
    ensures var step := Write(0, off, buf, {}, Committed, now);
            var k := ExtentKey(0, ino);
            var s', files' := FsNext(e, s, step), FlatStep(e, s, step, files);
            && Opened(s', ino, Max(size, off + |buf|))
            && s'.data == s.data[k := LogOf(s.data, k) + [SegmentOp(e, Segment(0, off, buf))]]
            && FileOf(files', ino) == FlatWrite(e, FileOf(files, ino), off, buf, {})
  {
    hide ExtentKey, SegmentOp, InodeKey, FlatWrite;
    OneSegment(e, off, buf);
    CommitAppends(e, s.data, ino, Segment(0, off, buf));
    assert FsEnabled(e, s, Write(0, off, buf, {}, Committed, now));
  }

  /* ---- The run ---- */

  function Nines(e: nat): (b: seq<byte>)
    ensures |b| == e && forall i :: 0 <= i < e ==> b[i] == 9
  {
    seq(e, _ => 9)
  }

  // Create, open, three writes and one log rewrite.
  function JoiningRun(e: nat, ino: nat, p: int, n: seq<byte>, now: int): seq<FsStep> {
    MetaSteps(CreateCall(0, p, n, now, false))
    + [Open(0, ino, false)]
    + [Write(0, 0, Nines(e), {}, Committed, now)]
    + [Write(0, 0, [1], {}, Committed, now)]
    + [Write(0, 2, [1], {}, Committed, now)]
    + [Compact(ExtentKey(0, ino), MergeLog.JoinDeltas(1))]
  }

  lemma OneStep(e: nat, s: Fs, a: seq<FsStep>, step: FsStep, files: Files)
    requires e > 0
    ensures FsRun(e, s, a + [step]) == FsNext(e, FsRun(e, s, a), step)
    ensures FlatRun(e, s, a + [step], files) == FlatStep(e, FsRun(e, s, a), step, FlatRun(e, s, a, files))
  {
    FsRunConcat(e, s, a, [step], files);
    assert [step][1..] == [];
  }

  lemma CreateAndOpen(e: nat, sk: Key, ino: nat, p: int, n: seq<byte>, now: int)
    requires ExtentSize(e) && SeedKey(sk) && ino < TWO56 && CString(n)
    ensures var steps := MetaSteps(CreateCall(0, p, n, now, false)) + [Open(0, ino, false)];
            var s := FsRun(e, FreshFs(sk, ino), steps);
            && Opened(s, ino, 0) && s.data == map[]
            && FlatRun(e, FreshFs(sk, ino), steps, map[]) == map[]
  {
    hide NameKey, InodeKey, Run, Next, MetaSteps, FsRun, FlatRun;
    var s0, call := FreshFs(sk, ino), CreateCall(0, p, n, now, false);
    MetaRun(e, s0, call, map[]);
    OneStep(e, s0, MetaSteps(call), Open(0, ino, false), map[]);
    FreshInv(sk, ino);
    FreshRefines(sk, ino);
    assert NameKey(p, n) !in s0.m.meta by {
      FixedKeysAreNoNames(SUPERBLOCK_KEY, p, n);
      FixedKeysAreNoNames(sk, p, n);
    }
    CreateCallEffect(s0.m, 0, p, n, now, false);
    InodeKeyApart(s0.m, ino, p, n);
  }

  // The log of the first extent before the rewrite, and the flat file.
  lemma BeforeRewrite(e: nat, sk: Key, ino: nat, p: int, n: seq<byte>, now: int)
    requires ExtentSize(e) && e >= 3 && SeedKey(sk) && ino < TWO56 && CString(n)
    ensures var steps := JoiningRun(e, ino, p, n, now);
            var s := FsRun(e, FreshFs(sk, ino), steps[..|steps| - 1]);
            var f := FileOf(FlatRun(e, FreshFs(sk, ino), steps[..|steps| - 1], map[]), ino);
            && Opened(s, ino, e)
            && LogOf(s.data, ExtentKey(0, ino))
               == [MergeLog.Put(Nines(e)), MergeLog.Merge(MergeLog.Delta(0, [1])),
                   MergeLog.Merge(MergeLog.Delta(2, [1]))]
            && |f| == e && f[1] == 9
  {
    hide FsNext, FlatStep, FsRun, FlatRun, ExtentKey, Opened;
    var s0 := FreshFs(sk, ino);
    var a0 := MetaSteps(CreateCall(0, p, n, now, false)) + [Open(0, ino, false)];
    var w1 := Write(0, 0, Nines(e), {}, Committed, now);
    var w2, w3 := Write(0, 0, [1], {}, Committed, now), Write(0, 2, [1], {}, Committed, now);
    CreateAndOpen(e, sk, ino, p, n, now);
    OneStep(e, s0, a0, w1, map[]);
    WriteFirstExtent(e, FsRun(e, s0, a0), map[], ino, 0, 0, Nines(e), now);
    var a1 := a0 + [w1];
    OneStep(e, s0, a1, w2, map[]);
    WriteFirstExtent(e, FsRun(e, s0, a1), FlatRun(e, s0, a1, map[]), ino, e, 0, [1], now);
    var a2 := a1 + [w2];
    OneStep(e, s0, a2, w3, map[]);
    WriteFirstExtent(e, FsRun(e, s0, a2), FlatRun(e, s0, a2, map[]), ino, e, 2, [1], now);
    var steps := JoiningRun(e, ino, p, n, now);
    assert steps[..|steps| - 1] == a2 + [w3];
  }

  /**
   All calls of the run succeed, yet the aligned read of the file returns 0 where the file has 9.
   */
  lemma JoinLosesByteInRun(e: nat, sk: Key, ino: nat, p: int, n: seq<byte>, now: int)
    requires ExtentSize(e) && e >= 3 && SeedKey(sk) && ino < TWO56 && CString(n)
    ensures var steps := JoiningRun(e, ino, p, n, now);
            var s := FsRun(e, FreshFs(sk, ino), steps);
            var f := FileOf(FlatRun(e, FreshFs(sk, ino), steps, map[]), ino);
            && SizeOf(s, ino) == |f| == e
            && FlatRead(f, 0, e)[1] == 9
            && Fetch(ExtentsOf(s.data, e), e, ino, 0, e)[1] == 0
  {
    hide FsRun, FlatRun, Fetch, ExtentsOf, ExtentKey, MetaSteps, CreateCall, Compacted, FreshFs, LogOf;
    var s0, steps := FreshFs(sk, ino), JoiningRun(e, ino, p, n, now);
    var a, k := steps[..|steps| - 1], ExtentKey(0, ino);
    var c := Compact(k, MergeLog.JoinDeltas(1));
    assert steps == a + [c];
    BeforeRewrite(e, sk, ino, p, n, now);
    OneStep(e, s0, a, c, map[]);
    var s := FsRun(e, s0, a);
    RewrittenByte(e, s.data, ino, Nines(e), MergeLog.Delta(0, [1]), MergeLog.Delta(2, [1]), 1);
  }

  lemma RewrittenByte(e: nat, data: DataCf, ino: nat, base: seq<byte>, l: MergeLog.Delta, r: MergeLog.Delta, i: nat)
    requires ExtentSize(e) && ino < TWO64 && |base| == e && i < e && MergeLog.InGap(l, r, i)
    requires LogOf(data, ExtentKey(0, ino)) == [MergeLog.Put(base), MergeLog.Merge(l), MergeLog.Merge(r)]
    ensures Fetch(ExtentsOf(Compacted(e, data, ExtentKey(0, ino), MergeLog.JoinDeltas(1)), e), e, ino, 0, e)[i] == 0
  {
    hide Fetch, ExtentKey, MergeLog.PointRead, MergeLog.Resolve, MergeLog.LogStep;
    var k := ExtentKey(0, ino);
    var log, data' := LogOf(data, k), Compacted(e, data, k, MergeLog.JoinDeltas(1));
    MergeLog.SeparatedJoinLosesByte(e, base, l, r, i);
    MergeLog.PointReadIsResolve(e, LogOf(data', k));
    assert MergeLog.RunLog(e, log, [MergeLog.JoinDeltas(1)]) == LogOf(data', k) by {
      assert [MergeLog.JoinDeltas(1)][1..] == [];
    }
    var x := ExtentsOf(data', e);
    assert (ino, 0) in x && x[(ino, 0)][i] == 0;
    FetchFirstExtent(x, e, ino, i);
  }

  lemma FetchFirstExtent(x: ExtentMap, e: nat, ino: nat, i: nat)
    requires i < e
    ensures Fetch(x, e, ino, 0, e)[i] == ByteIn(x, ino, 0, i)
  {
    assert Fetch(x, e, ino, 0, e) == Chunk(x, ino, 0, 0, e) + Fetch(x, e, ino, e, 0);
  }
}
