/**
 Memory and store agree: over every run whose data calls commit, whatever the store does to its logs and whichever
 Deletes it refuses.
 */
module FileSystemSync {
  import opened Bytes
  import opened Extents
  import opened FlatFile
  import opened MetaKeys
  import opened Metadata
  import opened DataOps
  import opened FileSystem
  import opened FileSystemInv
  import opened FileSystemBase

  // If the step is a data call, its transaction commits.
  predicate CallCommits(step: FsStep) {
    match step
    case OpenTrunc(_, _, _, locked, _, outcome) => locked ==> outcome.Committed?
    case Write(_, _, _, _, outcome, _) => outcome.Committed?
    case Fsync(_, outcome) => outcome.Committed?
    case Close(_, outcome) => outcome.Committed?
    case _ => true
  }

  predicate DirtyHandle(s: Fs, h: nat, ino: nat) {
    h in s.handles && s.handles[h].ino == ino && s.handles[h].dirty
  }

  // The sizes agree, and an inode that differs from its record has a dirty handle that will store it.
  ghost predicate Synced(s: Fs, ino: nat)
    requires ino in s.mem
  {
    && SizeStored(s, ino)
    && (s.mem[ino] == RecordOf(s, ino) || exists h :: DirtyHandle(s, h, ino))
  }

  ghost predicate AllSynced(s: Fs) {
    forall ino :: ino in s.mem ==> Synced(s, ino)
  }

  // The record is up to date, or a handle other than h will store the inode.
  ghost predicate Covered(s: Fs, h: nat, ino: nat)
    requires ino in s.mem && HasRecord(s, ino)
  {
    s.mem[ino] == RecordOf(s, ino) || exists h' :: h' != h && DirtyHandle(s, h', ino)
  }

  /**
   The steps that keep the agreement.  What can go wrong: a growing write, or a truncation of a file that is not
   empty, that does not commit, and an fsync or close of a dirty handle that loses the only promise to store.
   */
  ghost predicate KeepsSync(e: nat, s: Fs, step: FsStep)
    requires FsEnabled(e, s, step)
  {
    match step
    case OpenTrunc(_, ino, _, locked, _, outcome) => locked ==> outcome.Committed? || Loaded(s, ino).size == 0
    case Write(h, off, buf, _, outcome, _) => outcome.Committed? || off + |buf| <= s.mem[s.handles[h].ino].size
    case Fsync(h, outcome) =>
      outcome.CommitFailed? && s.handles[h].dirty && HasRecord(s, s.handles[h].ino) ==> Covered(s, h, s.handles[h].ino)
    case Close(h, outcome) =>
      !outcome.Committed? && s.handles[h].dirty && HasRecord(s, s.handles[h].ino) ==> Covered(s, h, s.handles[h].ino)
    case _ => true
  }

  lemma MetaStepSynced(e: nat, s: Fs, step: Step)
    requires ExtentSize(e) && FsBase(e, s) && AllSynced(s) && !step.Persist? && !step.Remount?
    ensures AllSynced(s.(m := Next(s.m, step)))
  {
    var s' := s.(m := Next(s.m, step));
    forall ino | ino in s'.mem ensures Synced(s', ino) {
      assert Synced(s, ino);
      MetaStepRecords(s.m, step, ino);
      if h :| DirtyHandle(s, h, ino) {
        assert DirtyHandle(s', h, ino);
      }
    }
  }

  // A call leaves the other inodes synced; its own inode is stored or the handle is dirty.
  lemma PutSynced(e: nat, s: Fs, h: nat, hd: Handle, r: Result)
    requires ExtentSize(e) && FsBase(e, s) && AllSynced(s) && StoresAtMost(s, r)
    requires hd.ino == r.inode.ino < TWO56 && HasRecord(s, hd.ino) && (h in s.handles ==> s.handles[h].ino == hd.ino)
    requires r.disk.meta == PersistInode(s.m.meta, r.inode)
          || (r.disk.meta == s.m.meta && r.inode.size == RecordOf(s, hd.ino).size
              && (r.dirty || r.inode == RecordOf(s, hd.ino) || exists h' :: h' != h && DirtyHandle(s, h', hd.ino)))
    ensures AllSynced(Put(s, h, hd, r))
  {
    hide Inv, WellFormed, ExtentsOf, SizesOk, InodeKey;
    var s' := Put(s, h, hd, r);
    forall ino | ino in s'.mem ensures Synced(s', ino) {
      if ino == hd.ino {
        if r.dirty {
          assert DirtyHandle(s', h, ino);
        } else if h' :| h' != h && DirtyHandle(s, h', ino) {
          assert DirtyHandle(s', h', ino);
        }
      } else {
        assert Synced(s, ino);
        PersistKeepsRecords(s, r.inode, ino);
        if h' :| DirtyHandle(s, h', ino) {
          assert DirtyHandle(s', h', ino);
        }
      }
    }
  }

  lemma WriteSyncedIff(e: nat, s: Fs, step: FsStep)
    requires ExtentSize(e) && FsBase(e, s) && AllSynced(s) && step.Write? && FsEnabled(e, s, step)
    ensures AllSynced(FsNext(e, s, step)) <==> KeepsSync(e, s, step)
  {
    hide Inv, WellFormed, ExtentsOf, SizesOk, InodeKey, CommitData, StageSegments, WriteSegments;
    var hd := s.handles[step.h];
    assert Synced(s, hd.ino);
    WriteStoresSizeIff(e, s, step);
    if KeepsSync(e, s, step) {
      PutSynced(e, s, step.h, hd,
                WriteEffect(e, DiskOf(s), s.mem[hd.ino], step.off, step.buf, step.failed, step.outcome, step.now));
    } else {
      assert !Synced(FsNext(e, s, step), hd.ino);
    }
  }

  lemma TouchSynced(e: nat, s: Fs, step: FsStep)
    requires ExtentSize(e) && FsBase(e, s) && AllSynced(s) && step.Touch? && FsEnabled(e, s, step)
    ensures AllSynced(FsNext(e, s, step))
  {
    var hd := s.handles[step.h];
    assert Synced(s, hd.ino);
    OthersCover(s, step.h, hd.ino);
    var (i, dirty) := TouchEffect(s.mem[hd.ino], hd.dirty, hd.noatime, step.now);
    PutSynced(e, s, step.h, hd, Result(DiskOf(s), i, dirty, 0));
  }

  // If a handle is clean, whatever its inode owes the store is owed by another handle.
  lemma OthersCover(s: Fs, h: nat, ino: nat)
    requires ino in s.mem && Synced(s, ino)
    ensures DirtyHandle(s, h, ino) || s.mem[ino] == RecordOf(s, ino) || exists h' :: h' != h && DirtyHandle(s, h', ino)
  {}

  lemma FsyncSyncedIff(e: nat, s: Fs, h: nat, outcome: Outcome)
    requires ExtentSize(e) && FsBase(e, s) && AllSynced(s) && OpenHandle(s, h)
    ensures AllSynced(FsNext(e, s, Fsync(h, outcome))) <==> KeepsSync(e, s, Fsync(h, outcome))
  {
    hide Inv, WellFormed, ExtentsOf, SizesOk, InodeKey;
    var hd := s.handles[h];
    assert Synced(s, hd.ino);
    OthersCover(s, h, hd.ino);
    if KeepsSync(e, s, Fsync(h, outcome)) {
      PutSynced(e, s, h, hd, FsyncEffect(DiskOf(s), s.mem[hd.ino], hd.dirty, outcome));
    } else {
      FailedFsyncIffCovered(e, s, h);
    }
  }

  lemma CloseSyncedIff(e: nat, s: Fs, h: nat, outcome: Outcome)
    requires ExtentSize(e) && FsBase(e, s) && AllSynced(s) && OpenHandle(s, h)
    ensures AllSynced(FsNext(e, s, Close(h, outcome))) <==> KeepsSync(e, s, Close(h, outcome))
  {
    hide Inv, WellFormed, ExtentsOf, SizesOk, InodeKey;
    var ino0, s' := s.handles[h].ino, FsNext(e, s, Close(h, outcome));
    assert Synced(s, ino0);
    OthersCover(s, h, ino0);
    ClosedSyncedIff(e, s, h, outcome);
    forall ino | ino in s'.mem && ino != ino0 ensures Synced(s', ino) {
      assert Synced(s, ino);
      PersistKeepsRecords(s, s.mem[ino0], ino);
      if h' :| DirtyHandle(s, h', ino) {
        assert DirtyHandle(s', h', ino);
      }
    }
  }

  // The inode of the handle that is closed.
  lemma ClosedSyncedIff(e: nat, s: Fs, h: nat, outcome: Outcome)
    requires ExtentSize(e) && FsBase(e, s) && AllSynced(s) && OpenHandle(s, h)
    ensures var ino, s' := s.handles[h].ino, FsNext(e, s, Close(h, outcome));
            ino in s'.mem && (Synced(s', ino) <==> KeepsSync(e, s, Close(h, outcome)))
  {
    hide Inv, WellFormed, ExtentsOf, SizesOk, InodeKey;
    var ino, s' := s.handles[h].ino, FsNext(e, s, Close(h, outcome));
    assert Synced(s, ino);
    OthersCover(s, h, ino);
    if h' :| h' != h && DirtyHandle(s, h', ino) {
      assert DirtyHandle(s', h', ino);
    }
    if h' :| DirtyHandle(s', h', ino) {
      assert h' != h && DirtyHandle(s, h', ino);
    }
  }

  lemma OpenSynced(e: nat, s: Fs, step: FsStep)
    requires ExtentSize(e) && FsBase(e, s) && AllSynced(s) && step.Open? && FsEnabled(e, s, step)
    ensures AllSynced(FsNext(e, s, step))
  {
    var i := Loaded(s, step.ino);
    LoadedBase(e, s, step.ino);
    assert step.ino in s.mem ==> Synced(s, step.ino);
    PutSynced(e, s, step.h, Handle(step.ino, false, step.noatime), Result(DiskOf(s), i, false, 0));
    assert s.m.(meta := s.m.meta) == s.m;
  }

  lemma OpenTruncSyncedIff(e: nat, s: Fs, step: FsStep)
    requires ExtentSize(e) && FsBase(e, s) && AllSynced(s) && step.OpenTrunc? && FsEnabled(e, s, step)
    ensures AllSynced(FsNext(e, s, step)) <==> KeepsSync(e, s, step)
  {
    hide Inv, WellFormed, ExtentsOf, SizesOk, InodeKey, CommitData, TruncateOps, ExtentCount;
    LoadedBase(e, s, step.ino);
    assert step.ino in s.mem ==> Synced(s, step.ino);
    if KeepsSync(e, s, step) {
      OpenTruncSynced(e, s, step);
    } else {
      assert !SizeStored(FsNext(e, s, step), step.ino);
      assert !Synced(FsNext(e, s, step), step.ino);
    }
  }

  lemma OpenTruncSynced(e: nat, s: Fs, step: FsStep)
    requires ExtentSize(e) && FsBase(e, s) && AllSynced(s) && step.OpenTrunc? && FsEnabled(e, s, step)
    requires KeepsSync(e, s, step)
    ensures AllSynced(FsNext(e, s, step))
  {
    hide Inv, WellFormed, ExtentsOf, SizesOk, InodeKey, CommitData, TruncateOps, ExtentCount;
    var hd, i := Handle(step.ino, false, step.noatime), Loaded(s, step.ino);
    LoadedBase(e, s, step.ino);
    assert step.ino in s.mem ==> Synced(s, step.ino);
    var r := TruncateEffect(e, DiskOf(s), i, step.locked, step.failed, step.outcome);
    PutSynced(e, s, step.h, hd, r);
    if r.ret != 0 {
      var s1, s2 := Put(s, step.h, hd, r), FsNext(e, s, step);
      forall ino | ino in s2.mem ensures Synced(s2, ino) {
        assert Synced(s1, ino);
        if h :| DirtyHandle(s1, h, ino) {
          assert DirtyHandle(s2, h, ino);
        }
      }
    }
  }

  /** A step keeps memory and store in agreement exactly when KeepsSync says so. */
  lemma SyncStepIff(e: nat, s: Fs, step: FsStep)
    requires ExtentSize(e) && FsBase(e, s) && AllSynced(s)
    ensures AllSynced(FsNext(e, s, step)) <==> (FsEnabled(e, s, step) ==> KeepsSync(e, s, step))
  {
    hide FsBase, Synced, InodeKey, Next, Put, WriteEffect, TruncateEffect, FsyncEffect;
    if FsEnabled(e, s, step) {
      match step
      case MetaStep(st) => MetaStepSynced(e, s, st);
      case Open(_, _, _) => OpenSynced(e, s, step);
      case OpenTrunc(_, _, _, _, _, _) => OpenTruncSyncedIff(e, s, step);
      case Write(_, _, _, _, _, _) => WriteSyncedIff(e, s, step);
      case Touch(_, _) => TouchSynced(e, s, step);
      case Fsync(h, outcome) => FsyncSyncedIff(e, s, h, outcome);
      case Close(h, outcome) => CloseSyncedIff(e, s, h, outcome);
      case Evict(ino) => EvictSynced(e, s, ino);
      case Compact(_, _) => CompactSynced(e, s, step);
      case Remount =>
    }
  }

  lemma CompactSynced(e: nat, s: Fs, step: FsStep)
    requires ExtentSize(e) && AllSynced(s) && step.Compact?
    ensures AllSynced(FsNext(e, s, step))
  {
    hide InodeKey, Compacted;
    var s' := FsNext(e, s, step);
    forall ino | ino in s'.mem ensures Synced(s', ino) {
      assert Synced(s, ino);
      if h :| DirtyHandle(s, h, ino) {
        assert DirtyHandle(s', h, ino);
      }
    }
  }

  lemma EvictSynced(e: nat, s: Fs, ino: nat)
    requires ExtentSize(e) && AllSynced(s) && FsEnabled(e, s, Evict(ino))
    ensures AllSynced(FsNext(e, s, Evict(ino)))
  {
    var s' := FsNext(e, s, Evict(ino));
    forall ino' | ino' in s'.mem ensures Synced(s', ino') {
      assert Synced(s, ino');
      if h :| DirtyHandle(s, h, ino') {
        assert DirtyHandle(s', h, ino');
      }
    }
  }

  // Committing calls keep the agreement.
  lemma CommittingKeepsSync(e: nat, s: Fs, step: FsStep)
    requires FsEnabled(e, s, step) && CallCommits(step)
    ensures KeepsSync(e, s, step)
  {}

  // Every step of the run that does something keeps the agreement.
  ghost predicate KeepsSyncRun(e: nat, s: Fs, steps: seq<FsStep>)
    requires e > 0
    decreases |steps|
  {
    steps == [] || (&& (FsEnabled(e, s, steps[0]) ==> KeepsSync(e, s, steps[0]))
                    && KeepsSyncRun(e, FsNext(e, s, steps[0]), steps[1..]))
  }

  ghost predicate SyncedRun(e: nat, s: Fs, steps: seq<FsStep>)
    requires e > 0
    decreases |steps|
  {
    AllSynced(s) && (steps == [] || SyncedRun(e, FsNext(e, s, steps[0]), steps[1..]))
  }

  /** Memory and store agree all along a run exactly when each of its steps keeps the agreement. */
  lemma {:induction false} SyncRunIff(e: nat, s: Fs, steps: seq<FsStep>)
    requires ExtentSize(e) && FsBase(e, s) && AllSynced(s) && s.m.seed + |steps| <= TWO56
    ensures SyncedRun(e, s, steps) <==> KeepsSyncRun(e, s, steps)
    ensures SyncedRun(e, s, steps) ==> AllSynced(FsRun(e, s, steps))
    decreases |steps|
  {
    hide FsBase, AllSynced, FsNext, FsEnabled, KeepsSync;
    if steps != [] {
      var s' := FsNext(e, s, steps[0]);
      SyncStepIff(e, s, steps[0]);
      AnyStepBase(e, s, steps[0]);
      if AllSynced(s') {
        SyncRunIff(e, s', steps[1..]);
      }
    }
  }

  lemma {:induction false} CommittingRunKeepsSync(e: nat, s: Fs, steps: seq<FsStep>)
    requires e > 0 && forall i :: 0 <= i < |steps| ==> CallCommits(steps[i])
    ensures KeepsSyncRun(e, s, steps)
    decreases |steps|
  {
    hide FsNext, FsEnabled, KeepsSync, CallCommits;
    if steps != [] {
      if FsEnabled(e, s, steps[0]) {
        CommittingKeepsSync(e, s, steps[0]);
      }
      CommittingRunKeepsSync(e, FsNext(e, s, steps[0]), steps[1..]);
    }
  }

  /**
   After every run from a fresh file system whose data calls commit: every in-memory size is the recorded one, and
   an inode that differs from its record has a dirty handle.
   */
  lemma AgreementAfterRun(e: nat, sk: Key, firstIno: nat, steps: seq<FsStep>, ino: nat)
    requires ExtentSize(e) && SeedKey(sk) && firstIno + |steps| <= TWO56
    requires forall i :: 0 <= i < |steps| ==> CallCommits(steps[i])
    ensures var s := FsRun(e, FreshFs(sk, firstIno), steps);
            ino in s.mem ==>
              SizeStored(s, ino) && (s.mem[ino] == RecordOf(s, ino) || exists h :: DirtyHandle(s, h, ino))
  {
    hide FsBase, FsRun, CallCommits, RecordOf, SyncedRun, KeepsSyncRun;
    FreshBase(e, sk, firstIno);
    CommittingRunKeepsSync(e, FreshFs(sk, firstIno), steps);
    SyncRunIff(e, FreshFs(sk, firstIno), steps);
    var s := FsRun(e, FreshFs(sk, firstIno), steps);
    assert ino in s.mem ==> Synced(s, ino);
  }

  // A write whose file had its size stored leaves it stored exactly when it commits or does not grow the file.
  lemma WriteStoresSizeIff(e: nat, s: Fs, step: FsStep)
    requires ExtentSize(e) && FsBase(e, s) && step.Write? && FsEnabled(e, s, step)
    requires SizeStored(s, s.handles[step.h].ino)
    ensures var ino := s.handles[step.h].ino;
            && ino in FsNext(e, s, step).mem
            && (SizeStored(FsNext(e, s, step), ino)
                <==> step.outcome.Committed? || step.off + |step.buf| <= s.mem[ino].size)
  {
    hide Inv, WellFormed, ExtentsOf, SizesOk, InodeKey, CommitData, StageSegments, WriteSegments;
  }

  // Fsync or close of a dirty handle makes the record equal to the in-memory inode.
  lemma FsyncAgrees(e: nat, s: Fs, h: nat)
    requires ExtentSize(e) && FsBase(e, s) && OpenHandle(s, h) && s.handles[h].dirty
    ensures var ino := s.handles[h].ino;
            var a, b := FsNext(e, s, Fsync(h, Committed)), FsNext(e, s, Close(h, Committed));
            && HasRecord(a, ino) && RecordOf(a, ino) == a.mem[ino] == s.mem[ino] && !a.handles[h].dirty
            && HasRecord(b, ino) && RecordOf(b, ino) == b.mem[ino] == s.mem[ino]
  {}

  // When the last handle has gone, nothing in memory is missing from the store.
  lemma EvictLosesNothing(e: nat, s: Fs, ino: nat)
    requires ExtentSize(e) && AllSynced(s) && FsEnabled(e, s, Evict(ino))
    ensures HasRecord(s, ino) && s.mem[ino] == RecordOf(s, ino)
  {
    assert Synced(s, ino);
  }

  /**
   An fsync whose commit fails clears the dirty flag all the same.  The inode is then still covered exactly
   when it was in the store already or another handle on it is dirty.
   */
  lemma FailedFsyncIffCovered(e: nat, s: Fs, h: nat)
    requires ExtentSize(e) && FsBase(e, s) && AllSynced(s) && OpenHandle(s, h)
    ensures var ino := s.handles[h].ino;
            var s' := FsNext(e, s, Fsync(h, CommitFailed));
            && ino in s'.mem
            && (Synced(s', ino) <==>
                s.mem[ino] == RecordOf(s, ino) || exists h' :: h' != h && DirtyHandle(s, h', ino))
  {
    hide Inv, WellFormed, ExtentsOf, SizesOk, InodeKey;
    var ino := s.handles[h].ino;
    var s' := FsNext(e, s, Fsync(h, CommitFailed));
    assert Synced(s, ino);
    if h' :| h' != h && DirtyHandle(s, h', ino) {
      assert DirtyHandle(s', h', ino);
    }
    if h' :| DirtyHandle(s', h', ino) {
      assert DirtyHandle(s, h', ino);
    }
  }
}
