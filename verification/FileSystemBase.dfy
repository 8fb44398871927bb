/**
 What every step keeps, whatever fails and whatever the store does to its logs.  Extents belong to inode numbers
 that have a record, and records never go away; so the file of a new number is empty.
 */
module FileSystemBase {
  import opened Bytes
  import opened Extents
  import opened FlatFile
  import opened MetaKeys
  import opened Metadata
  import opened MetadataInv
  import opened DataOps
  import opened FileSystem
  import opened FileSystemInv

  // Sizes, in memory and recorded, fit off_t.
  ghost predicate SizesOk(s: Fs) {
    && (forall ino :: ino in s.mem ==> s.mem[ino].size <= TWO63)
    && forall ino: nat :: ino < TWO64 ==> RecordSize(s.m.meta, ino) <= TWO63
  }

  ghost predicate ExtentsRecorded(e: nat, s: Fs) {
    forall ino: nat, index: nat :: (ino, index) in ExtentsOf(s.data, e) ==> HasRecord(s, ino)
  }

  ghost predicate FsBase(e: nat, s: Fs) {
    && Inv(s.m) && MemOk(s) && HandlesOk(s) && WellFormed(e, s.data)
    && SizesOk(s) && ExtentsRecorded(e, s)
  }

  lemma FreshBase(e: nat, sk: Key, firstIno: nat)
    requires ExtentSize(e) && SeedKey(sk) && firstIno <= TWO56
    ensures FsBase(e, FreshFs(sk, firstIno))
  {
    FreshInv(sk, firstIno);
  }

  /* ---- Steps ---- */

  lemma MetaStepBase(e: nat, s: Fs, step: Step)
    requires FsBase(e, s) && s.m.seed < TWO56 && !step.Persist? && !step.Remount?
    ensures FsBase(e, s.(m := Next(s.m, step)))
  {
    hide Inv, WellFormed, ExtentsOf, Next, InodeKey;
    var s' := s.(m := Next(s.m, step));
    StepInv(s.m, step);
    forall ino: nat | ino < TWO64
      ensures RecordSize(s'.m.meta, ino) == RecordSize(s.m.meta, ino) && (HasRecord(s, ino) ==> HasRecord(s', ino))
    {
      MetaStepRecords(s.m, step, ino);
    }
    forall ino: nat, index: nat | (ino, index) in ExtentsOf(s'.data, e) ensures HasRecord(s', ino) {
      ExtentNumber(s.data, e, ino, index);
    }
  }

  lemma ExtentNumber(data: DataCf, e: nat, ino: nat, index: nat)
    ensures (ino, index) in ExtentsOf(data, e) ==> ino < TWO64 && index < TWO64
  {}

  // No extents but those that were there and those of inode number ino.
  ghost predicate AddsOnlyTo(e: nat, data: DataCf, data': DataCf, ino: nat) {
    forall k :: k in ExtentsOf(data', e) ==> k in ExtentsOf(data, e) || k.0 == ino
  }

  lemma PutBase(e: nat, s: Fs, h: nat, hd: Handle, r: Result)
    requires FsBase(e, s) && StoresAtMost(s, r)
    requires hd.ino == r.inode.ino < TWO56 && HasRecord(s, hd.ino) && r.inode.links == 1 && r.inode.size <= TWO63
    requires WellFormed(e, r.disk.data) && AddsOnlyTo(e, s.data, r.disk.data, hd.ino)
    ensures FsBase(e, Put(s, h, hd, r))
  {
    hide Inv, WellFormed, ExtentsOf, InodeKey;
    var s' := Put(s, h, hd, r);
    if r.disk.meta != s.m.meta {
      PersistKeepsInv(s, r.inode);
    }
    assert s.m.(meta := s.m.meta) == s.m;
    forall ino: nat | ino < TWO64
      ensures RecordSize(s'.m.meta, ino) <= TWO63 && (HasRecord(s, ino) ==> HasRecord(s', ino))
    {
      if ino != hd.ino {
        PersistKeepsRecords(s, r.inode, ino);
      }
    }
    forall ino: nat, index: nat | (ino, index) in ExtentsOf(s'.data, e) ensures HasRecord(s', ino) {
      ExtentNumber(s'.data, e, ino, index);
    }
  }

  lemma WriteBase(e: nat, s: Fs, step: FsStep)
    requires ExtentSize(e) && FsBase(e, s) && step.Write? && FsEnabled(e, s, step)
    ensures FsBase(e, FsNext(e, s, step))
  {
    hide Inv, WellFormed, ExtentsOf, InodeKey, CommitData, StageSegments, WriteSegments;
    var Write(h, off, buf, failed, outcome, now) := step;
    var hd := s.handles[h];
    var r := WriteEffect(e, DiskOf(s), s.mem[hd.ino], off, buf, failed, outcome, now);
    WriteMeaning(e, s.data, hd.ino, off, buf, failed);
    WriteSegmentsBound(e, off, buf);
    ApplySegmentsKeys(ExtentsOf(s.data, e), e, hd.ino, WriteSegments(e, off, buf), failed, ExtentCount(off + |buf|, e));
    PutBase(e, s, h, hd, r);
  }

  // The inode an open works on.
  lemma LoadedBase(e: nat, s: Fs, ino: nat)
    requires FsBase(e, s) && ino < TWO56 && HasRecord(s, ino)
    ensures Loaded(s, ino).ino == ino && Loaded(s, ino).links == 1 && Loaded(s, ino).size <= TWO63
  {
    hide Inv, InodeKey;
    RecordNumber(s.m, ino);
    assert RecordOf(s, ino).size == RecordSize(s.m.meta, ino);
  }

  lemma OpenTruncBase(e: nat, s: Fs, step: FsStep)
    requires ExtentSize(e) && FsBase(e, s) && step.OpenTrunc? && FsEnabled(e, s, step)
    ensures FsBase(e, FsNext(e, s, step))
  {
    hide Inv, WellFormed, ExtentsOf, InodeKey, CommitData, TruncateOps, ExtentCount;
    var OpenTrunc(h, ino, noatime, locked, failed, outcome) := step;
    var hd, i := Handle(ino, false, noatime), Loaded(s, ino);
    var r := TruncateEffect(e, DiskOf(s), i, locked, failed, outcome);
    LoadedBase(e, s, ino);
    TruncateDataMeaning(e, s.data, i, failed);
    PutBase(e, s, h, hd, r);
    DropHandleBase(e, Put(s, h, hd, r), h);
    NewHandleDropped(s, h, hd, r);
  }

  lemma DropHandleBase(e: nat, s: Fs, h: nat)
    requires FsBase(e, s)
    ensures FsBase(e, s.(handles := s.handles - {h}))
  {
    hide Inv, WellFormed, ExtentsOf, InodeKey;
  }

  // Calls that leave the extents alone.
  lemma QuietBase(e: nat, s: Fs, step: FsStep)
    requires ExtentSize(e) && FsBase(e, s) && FsEnabled(e, s, step)
    requires step.Open? || step.Touch? || step.Fsync? || step.Close?
    ensures FsBase(e, FsNext(e, s, step))
  {
    hide Inv, WellFormed, ExtentsOf, InodeKey;
    match step
    case Open(h, ino, noatime) =>
      LoadedBase(e, s, ino);
      PutBase(e, s, h, Handle(ino, false, noatime), Result(DiskOf(s), Loaded(s, ino), false, 0));
      assert s.m.(meta := s.m.meta) == s.m;
    case Touch(h, now) =>
      var hd := s.handles[h];
      var (i, dirty) := TouchEffect(s.mem[hd.ino], hd.dirty, hd.noatime, now);
      PutBase(e, s, h, hd, Result(DiskOf(s), i, dirty, 0));
    case Fsync(h, outcome) => FsyncBase(e, s, h, outcome);
    case Close(h, outcome) =>
      FsyncBase(e, s, h, outcome);
      DropHandleBase(e, FsNext(e, s, Fsync(h, outcome)), h);
  }

  lemma FsyncBase(e: nat, s: Fs, h: nat, outcome: Outcome)
    requires ExtentSize(e) && FsBase(e, s) && OpenHandle(s, h)
    ensures FsBase(e, FsNext(e, s, Fsync(h, outcome)))
  {
    hide Inv, WellFormed, ExtentsOf, InodeKey;
    var hd := s.handles[h];
    PutBase(e, s, h, hd, FsyncEffect(DiskOf(s), s.mem[hd.ino], hd.dirty, outcome));
  }

  // Losing memory and rewriting logs.
  lemma StoreStepBase(e: nat, s: Fs, step: FsStep)
    requires ExtentSize(e) && FsBase(e, s) && FsEnabled(e, s, step)
    requires step.Evict? || step.Compact? || step.Remount?
    ensures FsBase(e, FsNext(e, s, step))
  {
    hide WellFormed, ExtentsOf, InodeKey, Compacted;
    match step
    case Evict(_) =>
    case Remount => RemountInv(s.m);
    case Compact(key, rewrite) =>
      CompactionKeepsWellFormed(e, s.data, key, rewrite);
      var s' := FsNext(e, s, step);
      forall ino: nat, index: nat | (ino, index) in ExtentsOf(s'.data, e) ensures HasRecord(s', ino) {
        CompactionKeepsPresence(e, s.data, key, rewrite, (ino, index));
      }
  }

  /** Every step keeps the base, with no condition on what fails. */
  lemma AnyStepBase(e: nat, s: Fs, step: FsStep)
    requires ExtentSize(e) && FsBase(e, s) && s.m.seed < TWO56
    ensures FsBase(e, FsNext(e, s, step)) && FsNext(e, s, step).m.seed <= s.m.seed + 1
  {
    hide FsBase, Put, WriteEffect, TruncateEffect, FsyncEffect, TouchEffect, Next;
    assert Inv(s.m) by { BaseInv(e, s); }
    if FsEnabled(e, s, step) {
      match step
      case MetaStep(st) =>
        MetaStepBase(e, s, st);
        StepInv(s.m, st);
      case Write(_, _, _, _, _, _) => WriteBase(e, s, step);
      case OpenTrunc(_, _, _, _, _, _) => OpenTruncBase(e, s, step);
      case Open(_, _, _) => QuietBase(e, s, step);
      case Touch(_, _) => QuietBase(e, s, step);
      case Fsync(_, _) => QuietBase(e, s, step);
      case Close(_, _) => QuietBase(e, s, step);
      case Evict(_) => StoreStepBase(e, s, step);
      case Compact(_, _) => StoreStepBase(e, s, step);
      case Remount =>
        StoreStepBase(e, s, step);
        StepInv(s.m, Step.Remount);
    }
    PutSeed(e, s, step);
  }

  lemma BaseInv(e: nat, s: Fs)
    requires FsBase(e, s)
    ensures Inv(s.m)
  {}

  // Data calls do not touch the seed.
  lemma PutSeed(e: nat, s: Fs, step: FsStep)
    requires e > 0
    ensures !step.MetaStep? && !step.Remount? ==> FsNext(e, s, step).m.seed == s.m.seed
  {
    hide WriteEffect, TruncateEffect, FsyncEffect, TouchEffect, Next, InodeKey;
  }

  /* ---- What a step leaves in memory ---- */

  // Every call on an open handle, and every open of a recorded number under a free handle, is a step of the machine.
  lemma CallsAreSteps(e: nat, s: Fs, h: nat, ino: nat, noatime: bool, failed: set<nat>, outcome: Outcome,
                      off: nat, buf: seq<byte>, now: int)
    requires FsBase(e, s)
    ensures h in s.handles ==>
      && (off + |buf| + e <= TWO63 ==> FsEnabled(e, s, Write(h, off, buf, failed, outcome, now)))
      && FsEnabled(e, s, Touch(h, now)) && FsEnabled(e, s, Fsync(h, outcome)) && FsEnabled(e, s, Close(h, outcome))
    ensures h !in s.handles && ino < TWO56 && HasRecord(s, ino) ==>
      && FsEnabled(e, s, Open(h, ino, noatime))
      && forall locked :: FsEnabled(e, s, OpenTrunc(h, ino, noatime, locked, failed, outcome))
    ensures FsEnabled(e, s, FsStep.Remount)
    ensures ino in s.mem && (forall h :: h in s.handles ==> s.handles[h].ino != ino) ==> FsEnabled(e, s, Evict(ino))
  {
    hide Inv, WellFormed, ExtentsOf, InodeKey;
  }

  // The handle a call works on, or opens, after the call.
  lemma HandleAfterStep(e: nat, s: Fs, step: FsStep)
    requires ExtentSize(e) && FsBase(e, s) && FsEnabled(e, s, step)
    ensures var s' := FsNext(e, s, step);
      match step
      case Open(h, ino, noatime) => s'.handles == s.handles[h := Handle(ino, false, noatime)]
      case OpenTrunc(h, ino, noatime, locked, _, outcome) =>
        s'.handles == if locked && outcome.Committed? then s.handles[h := Handle(ino, false, noatime)] else s.handles
      case Write(h, off, buf, _, outcome, _) =>
        var hd := s.handles[h];
        var dirty := outcome.PersistFailed? || off + |buf| <= s.mem[hd.ino].size;
        s'.handles == s.handles[h := Handle(hd.ino, dirty, hd.noatime)]
      case Touch(h, _) =>
        var hd := s.handles[h]; s'.handles == s.handles[h := Handle(hd.ino, hd.dirty || !hd.noatime, hd.noatime)]
      case Fsync(h, outcome) =>
        var hd := s.handles[h];
        s'.handles == s.handles[h := Handle(hd.ino, hd.dirty && outcome.PersistFailed?, hd.noatime)]
      case Close(h, _) => s'.handles == s.handles - {h}
      case Remount => s'.handles == map[]
      case _ => s'.handles == s.handles
  {
    hide CommitData, StageSegments, WriteSegments, TruncateOps, Next, InodeKey, Inv, WellFormed, ExtentsOf;
    if step.OpenTrunc? {
      LoadedBase(e, s, step.ino);
    }
  }

  // The inode a call works on after the call; no other inode in memory changes.
  lemma InodeAfterStep(e: nat, s: Fs, step: FsStep)
    requires ExtentSize(e) && FsBase(e, s) && FsEnabled(e, s, step)
    ensures var s' := FsNext(e, s, step);
      match step
      case Open(_, ino, _) => s'.mem == s.mem[ino := if ino in s.mem then s.mem[ino] else RecordOf(s, ino)]
      case OpenTrunc(_, ino, _, locked, _, _) =>
        var i := if ino in s.mem then s.mem[ino] else RecordOf(s, ino);
        s'.mem == s.mem[ino := if locked then i.(size := 0) else i]
      case Write(h, off, buf, _, _, now) =>
        var i := s.mem[s.handles[h].ino];
        s'.mem == s.mem[i.ino := i.(size := Max(i.size, off + |buf|), mtime := now)]
      case Touch(h, now) =>
        var hd := s.handles[h];
        s'.mem == if hd.noatime then s.mem else s.mem[hd.ino := s.mem[hd.ino].(atime := now)]
      case Evict(ino) => s'.mem == s.mem - {ino}
      case Remount => s'.mem == map[]
      case _ => s'.mem == s.mem
  {
    hide CommitData, StageSegments, WriteSegments, TruncateOps, Next, InodeKey, Inv, WellFormed, ExtentsOf;
    if step.Open? {
      LoadedBase(e, s, step.ino);
    } else if step.OpenTrunc? {
      LoadedBase(e, s, step.ino);
    }
  }

  /* ---- Runs ---- */

  /** After every run from a base state, the base holds. */
  lemma {:induction false} AnyRunBase(e: nat, s: Fs, steps: seq<FsStep>)
    requires ExtentSize(e) && FsBase(e, s) && s.m.seed + |steps| <= TWO56
    ensures FsBase(e, FsRun(e, s, steps)) && FsRun(e, s, steps).m.seed <= s.m.seed + |steps|
    decreases |steps|
  {
    hide FsBase, FsNext;
    if steps != [] {
      AnyStepBase(e, s, steps[0]);
      AnyRunBase(e, FsNext(e, s, steps[0]), steps[1..]);
    }
  }

  lemma NoRecordNoExtents(e: nat, s: Fs, ino: nat, index: nat)
    requires FsBase(e, s) && !HasRecord(s, ino)
    ensures SizeOf(s, ino) == 0 && (ino, index) !in ExtentsOf(s.data, e)
  {}

  // After every run, whatever failed in it, a number without a record has no extents; so has the next number.
  lemma NoRecordAfterRun(e: nat, sk: Key, firstIno: nat, steps: seq<FsStep>, ino: nat, index: nat)
    requires ExtentSize(e) && SeedKey(sk) && firstIno + |steps| < TWO56
    ensures var s := FsRun(e, FreshFs(sk, firstIno), steps);
            && (!HasRecord(s, ino) ==> SizeOf(s, ino) == 0 && (ino, index) !in ExtentsOf(s.data, e))
            && !HasRecord(s, s.m.seed) && (s.m.seed, index) !in ExtentsOf(s.data, e)
  {
    hide FsBase, FsRun, ExtentsOf, InodeKey;
    FreshBase(e, sk, firstIno);
    AnyRunBase(e, FreshFs(sk, firstIno), steps);
    var s := FsRun(e, FreshFs(sk, firstIno), steps);
    if !HasRecord(s, ino) {
      NoRecordNoExtents(e, s, ino, index);
    }
    BaseInv(e, s);
    NextNumberIsNew(s.m);
    NoRecordNoExtents(e, s, s.m.seed, index);
  }

  /**
   After every run, whatever failed in it, the file that a committing create brings into being is empty: no extent
   carries its number, although unlinked files leave theirs behind.
   */
  lemma NewFileIsEmpty(e: nat, sk: Key, firstIno: nat, steps: seq<FsStep>, t: Tid, index: nat)
    requires ExtentSize(e) && SeedKey(sk) && firstIno + |steps| < TWO56
    requires var m := FsRun(e, FreshFs(sk, firstIno), steps).m; Enabled(m, Commit(t)) && m.txns[t].Create?
    ensures var s := FsRun(e, FreshFs(sk, firstIno), steps);
            var ino, s' := s.m.txns[t].inode.ino, FsNext(e, s, MetaStep(Commit(t)));
            HasRecord(s', ino) && SizeOf(s', ino) == 0 && (ino, index) !in ExtentsOf(s'.data, e)
  {
    hide FsBase, FsRun, ExtentsOf;
    FreshBase(e, sk, firstIno);
    AnyRunBase(e, FreshFs(sk, firstIno), steps);
    CreatedIsEmpty(e, FsRun(e, FreshFs(sk, firstIno), steps), t, index);
  }

  lemma CreatedIsEmpty(e: nat, s: Fs, t: Tid, index: nat)
    requires FsBase(e, s) && Enabled(s.m, Commit(t)) && s.m.txns[t].Create?
    ensures var ino, s' := s.m.txns[t].inode.ino, s.(m := Next(s.m, Commit(t)));
            HasRecord(s', ino) && SizeOf(s', ino) == 0 && (ino, index) !in ExtentsOf(s'.data, e)
  {
    hide ExtentsOf, InodeKey, NameKey;
    var ino := s.m.txns[t].inode.ino;
    assert TxnOk(s.m, t);
    assert !HasRecord(s, ino) && ino !in s.mem;
    NoRecordNoExtents(e, s, ino, index);
    CreateBatch(s.m, t);
    InodeKeyApart(s.m, ino, s.m.txns[t].parent, s.m.txns[t].name);
  }

  /* ---- Where bytes come from ---- */

  // (ino, p, b): byte b at position p of file ino.
  type History = iset<(nat, nat, byte)>

  // The step is a write call that hands b to position p of file ino.
  predicate WritesByte(e: nat, s: Fs, step: FsStep, ino: nat, p: nat, b: byte) {
    && step.Write? && FsEnabled(e, s, step) && s.handles[step.h].ino == ino
    && step.off <= p < step.off + |step.buf| && step.buf[p - step.off] == b
  }

  ghost function HistoryStep(e: nat, s: Fs, step: FsStep, h: History): History {
    h + iset w: (nat, nat, byte) | WritesByte(e, s, step, w.0, w.1, w.2)
  }

  ghost function HistoryRun(e: nat, s: Fs, steps: seq<FsStep>, h: History): History
    requires e > 0
    decreases |steps|
  {
    if steps == [] then h else HistoryRun(e, FsNext(e, s, steps[0]), steps[1..], HistoryStep(e, s, steps[0], h))
  }

  ghost predicate FromHistory(e: nat, x: ExtentMap, h: History)
    requires e > 0
  {
    forall ino: nat, p: nat :: ByteAt(x, e, ino, p) == 0 || (ino, p, ByteAt(x, e, ino, p)) in h
  }

  lemma AnyStepHistory(e: nat, s: Fs, step: FsStep, h: History)
    requires ExtentSize(e) && FsBase(e, s) && FromHistory(e, ExtentsOf(s.data, e), h)
    ensures FromHistory(e, ExtentsOf(FsNext(e, s, step).data, e), HistoryStep(e, s, step, h))
  {
    hide Inv, WellFormed, ExtentsOf, ByteAt, CommitData, TruncateOps, StageSegments, WriteSegments, InodeKey, Next;
    if FsEnabled(e, s, step) {
      match step
      case Write(_, _, _, _, _, _) => WriteHistory(e, s, step, h);
      case OpenTrunc(_, ino, _, _, _, _) => TruncateHistory(e, s, step, h);
      case Compact(key, rewrite) =>
        forall ino: nat, p: nat
          ensures var b := ByteAt(ExtentsOf(Compacted(e, s.data, key, rewrite), e), e, ino, p);
                  b == 0 || (ino, p, b) in h
        {
          CompactedByte(e, s.data, key, rewrite, ino, p);
        }
      case _ =>
    }
  }

  lemma WriteHistory(e: nat, s: Fs, step: FsStep, h: History)
    requires ExtentSize(e) && FsBase(e, s) && FromHistory(e, ExtentsOf(s.data, e), h)
    requires step.Write? && FsEnabled(e, s, step)
    ensures FromHistory(e, ExtentsOf(FsNext(e, s, step).data, e), HistoryStep(e, s, step, h))
  {
    hide Inv, WellFormed, ExtentsOf, ByteAt, CommitData, StageSegments, WriteSegments, InodeKey;
    var Write(hd, off, buf, failed, outcome, now) := step;
    var ino := s.handles[hd].ino;
    var x, h' := ExtentsOf(s.data, e), HistoryStep(e, s, step, h);
    WellFormedIsFull(s.data, e);
    WriteMeaning(e, s.data, ino, off, buf, failed);
    WriteWritten(x, e, ino, off, buf, failed);
    var y := ExtentsOf(FsNext(e, s, step).data, e);
    forall ino': nat, p: nat ensures ByteAt(y, e, ino', p) == 0 || (ino', p, ByteAt(y, e, ino', p)) in h' {
      if ino' == ino && off <= p < off + |buf| {
        assert WritesByte(e, s, step, ino, p, buf[p - off]);
      }
    }
  }

  lemma TruncateHistory(e: nat, s: Fs, step: FsStep, h: History)
    requires ExtentSize(e) && FsBase(e, s) && FromHistory(e, ExtentsOf(s.data, e), h)
    requires step.OpenTrunc? && FsEnabled(e, s, step)
    ensures FromHistory(e, ExtentsOf(FsNext(e, s, step).data, e), h)
  {
    hide Inv, WellFormed, ExtentsOf, CommitData, TruncateOps, InodeKey, ExtentCount, ExtentOf, OffsetIn;
    var i := Loaded(s, step.ino);
    LoadedBase(e, s, step.ino);
    TruncateDataMeaning(e, s.data, i, step.failed);
    var x, x' := ExtentsOf(s.data, e), ExtentsOf(FsNext(e, s, step).data, e);
    forall ino: nat, p: nat ensures ByteAt(x', e, ino, p) == 0 || ByteAt(x', e, ino, p) == ByteAt(x, e, ino, p) {}
  }

  /**
   After every run from a fresh file system, whatever failed in it and however the store rewrote its logs, each
   stored byte is zero or was written by some call to that very position of that very file.
   */
  lemma BytesComeFromWrites(e: nat, sk: Key, firstIno: nat, steps: seq<FsStep>, ino: nat, p: nat)
    requires ExtentSize(e) && SeedKey(sk) && firstIno + |steps| <= TWO56
    ensures var s0 := FreshFs(sk, firstIno);
            var b := ByteAt(ExtentsOf(FsRun(e, s0, steps).data, e), e, ino, p);
            b == 0 || (ino, p, b) in HistoryRun(e, s0, steps, iset{})
  {
    hide FsBase, FsRun, HistoryRun;
    var s0 := FreshFs(sk, firstIno);
    FreshBase(e, sk, firstIno);
    assert FromHistory(e, ExtentsOf(s0.data, e), iset{});
    AnyRunHistory(e, s0, steps, iset{});
  }

  lemma {:induction false} AnyRunHistory(e: nat, s: Fs, steps: seq<FsStep>, h: History)
    requires ExtentSize(e) && FsBase(e, s) && s.m.seed + |steps| <= TWO56 && FromHistory(e, ExtentsOf(s.data, e), h)
    ensures FromHistory(e, ExtentsOf(FsRun(e, s, steps).data, e), HistoryRun(e, s, steps, h))
    decreases |steps|
  {
    hide FsBase, FsNext, FromHistory, HistoryStep;
    if steps != [] {
      AnyStepBase(e, s, steps[0]);
      AnyStepHistory(e, s, steps[0], h);
      AnyRunHistory(e, FsNext(e, s, steps[0]), steps[1..], HistoryStep(e, s, steps[0], h));
    }
  }
}
