/** Every step of the file system machine keeps each file equal to its flat specification. */
module FileSystemInv {
  import opened Bytes
  import opened Extents
  import opened FlatFile
  import opened MetaKeys
  import opened Metadata
  import opened MetadataInv
  import opened DataOps
  import opened FileSystem
  import MergeLog

  /* ---- Invariant ---- */

  // An in-memory inode has its own number and a record of that number.
  ghost predicate MemOk(s: Fs) {
    forall ino :: ino in s.mem ==>
      ino < TWO56 && s.mem[ino].ino == ino && s.mem[ino].links == 1 && HasRecord(s, ino)
  }

  ghost predicate HandlesOk(s: Fs) {
    forall h :: h in s.handles ==> s.handles[h].ino in s.mem
  }

  // The stored extents of every inode number, used or not, are its flat file, and i_size is its length.
  ghost predicate DataOk(e: nat, s: Fs, files: Files)
    requires e > 0
  {
    && WellFormed(e, s.data)
    && forall ino: nat :: ino < TWO64 ==>
         && Represents(ExtentsOf(s.data, e), e, ino, FileOf(files, ino))
         && |FileOf(files, ino)| == SizeOf(s, ino) <= TWO63
  }

  ghost predicate FsOk(e: nat, s: Fs, files: Files)
    requires e > 0
  {
    Inv(s.m) && MemOk(s) && HandlesOk(s) && DataOk(e, s, files)
  }

  lemma FreshFsOk(e: nat, sk: Key, firstIno: nat)
    requires ExtentSize(e) && SeedKey(sk) && firstIno <= TWO56
    ensures FsOk(e, FreshFs(sk, firstIno), map[])
  {
    var s := FreshFs(sk, firstIno);
    FreshInv(sk, firstIno);
    var x := ExtentsOf(s.data, e);
    forall ino: nat | ino < TWO64
      ensures Represents(x, e, ino, []) && SizeOf(s, ino) == 0
    {
      assert forall index: nat :: (ino, index) !in x;
    }
  }

  // The constants of the source are among those all results are about.
  lemma SourceConstantsOk()
    ensures ExtentSize(VIVEFS_EXTENT_SIZE) && SeedKey(INODE_SEED_KEY) && VN_FIRST_USER_INO <= TWO56
    ensures FsOk(VIVEFS_EXTENT_SIZE, FreshFs(INODE_SEED_KEY, VN_FIRST_USER_INO), map[])
  {
    assert INODE_SEED_KEY[1] != SUPERBLOCK_KEY[1];
    FreshFsOk(VIVEFS_EXTENT_SIZE, INODE_SEED_KEY, VN_FIRST_USER_INO);
  }

  /* ---- Records under metadata steps ---- */

  function RecordSize(meta: map<Key, MetaVal>, ino: nat): nat {
    var k := InodeKey(ino);
    if k in meta && meta[k].Rec? then meta[k].inode.size else 0
  }

  // A record sits under its own number, which is below the seed.
  lemma RecordNumber(s: State, ino: nat)
    requires Inv(s) && ino < TWO64 && InodeKey(ino) in s.meta && s.meta[InodeKey(ino)].Rec?
    ensures s.meta[InodeKey(ino)].inode.ino == ino < TWO56 && s.meta[InodeKey(ino)].inode.links == 1
  {
    var k := InodeKey(ino);
    assert EntryOk(s.sk, s.meta, k);
    InodeKeyInjective(s.meta[k].inode.ino, ino);
  }

  // Creates add empty files and unlinks remove names; no step of theirs touches an existing record.
  lemma MetaStepRecords(s: State, step: Step, ino: nat)
    requires Inv(s) && !step.Persist? && !step.Remount? && ino < TWO64
    ensures RecordSize(Next(s, step).meta, ino) == RecordSize(s.meta, ino)
    ensures InodeKey(ino) in s.meta && s.meta[InodeKey(ino)].Rec?
        ==> InodeKey(ino) in Next(s, step).meta && Next(s, step).meta[InodeKey(ino)] == s.meta[InodeKey(ino)]
  {
    if Enabled(s, step) && step.Commit? {
      if s.txns[step.t].Create? {
        CreateRecords(s, step.t, ino);
      } else {
        UnlinkRecords(s, step.t, ino);
      }
    }
  }

  lemma CreateRecords(s: State, t: Tid, ino: nat)
    requires Inv(s) && Enabled(s, Commit(t)) && s.txns[t].Create? && ino < TWO64
    ensures RecordSize(Next(s, Commit(t)).meta, ino) == RecordSize(s.meta, ino)
    ensures InodeKey(ino) in s.meta && s.meta[InodeKey(ino)].Rec?
        ==> InodeKey(ino) in Next(s, Commit(t)).meta && Next(s, Commit(t)).meta[InodeKey(ino)] == s.meta[InodeKey(ino)]
  {
    var c := s.txns[t];
    assert TxnOk(s, t);
    CreateBatch(s, t);
    InodeKeyApart(s, c.inode.ino, c.parent, c.name);
    if InodeKey(ino) in s.meta && s.meta[InodeKey(ino)].Rec? {
      RecordNumber(s, ino);
      InodeKeyApart(s, ino, c.parent, c.name);
    }
  }

  lemma UnlinkRecords(s: State, t: Tid, ino: nat)
    requires Inv(s) && Enabled(s, Commit(t)) && s.txns[t].Unlink? && ino < TWO64
    ensures RecordSize(Next(s, Commit(t)).meta, ino) == RecordSize(s.meta, ino)
    ensures InodeKey(ino) in s.meta && s.meta[InodeKey(ino)].Rec?
        ==> InodeKey(ino) in Next(s, Commit(t)).meta && Next(s, Commit(t)).meta[InodeKey(ino)] == s.meta[InodeKey(ino)]
  {
    CommitUnlinkInv(s, t);
    assert TxnOk(s, t);
    if InodeKey(ino) in s.meta && s.meta[InodeKey(ino)].Rec? {
      RecordNumber(s, ino);
      InodeKeyApart(s, ino, s.txns[t].parent, s.txns[t].name);
    }
  }

  lemma MetaStepOk(e: nat, s: Fs, files: Files, step: Step)
    requires ExtentSize(e) && FsOk(e, s, files) && s.m.seed < TWO56
    requires !step.Persist? && !step.Remount?
    ensures FsOk(e, s.(m := Next(s.m, step)), files)
  {
    var s' := s.(m := Next(s.m, step));
    StepInv(s.m, step);
    forall ino | ino in s.mem ensures HasRecord(s', ino) {
      MetaStepRecords(s.m, step, ino);
    }
    forall ino: nat | ino < TWO64 ensures SizeOf(s', ino) == SizeOf(s, ino) {
      MetaStepRecords(s.m, step, ino);
      assert SizeOf(s, ino) == if ino in s.mem then s.mem[ino].size else RecordSize(s.m.meta, ino);
      assert SizeOf(s', ino) == if ino in s.mem then s.mem[ino].size else RecordSize(s'.m.meta, ino);
    }
  }

  /* ---- Data calls ---- */

  // A call may store its inode or not; other inodes keep their records.
  ghost predicate StoresAtMost(s: Fs, r: Result) {
    r.disk.meta == s.m.meta || r.disk.meta == PersistInode(s.m.meta, r.inode)
  }

  lemma PersistKeepsInv(s: Fs, i: Inode)
    requires Inv(s.m) && i.ino < TWO56 && i.links == 1 && HasRecord(s, i.ino)
    ensures Inv(s.m.(meta := PersistInode(s.m.meta, i)))
  {
    RecordNumber(s.m, i.ino);
    PersistInv(s.m, i);
    assert Next(s.m, Persist(i)) == s.m.(meta := PersistInode(s.m.meta, i));
  }

  lemma PersistKeepsRecords(s: Fs, i: Inode, ino': nat)
    requires i.ino < TWO64 && ino' < TWO64 && ino' != i.ino
    ensures RecordSize(PersistInode(s.m.meta, i), ino') == RecordSize(s.m.meta, ino')
    ensures InodeKey(ino') in s.m.meta ==> InodeKey(ino') in PersistInode(s.m.meta, i)
                                           && PersistInode(s.m.meta, i)[InodeKey(ino')] == s.m.meta[InodeKey(ino')]
  {
    if InodeKey(ino') == InodeKey(i.ino) {
      InodeKeyInjective(ino', i.ino);
    }
  }

  lemma PutOk(e: nat, s: Fs, files: Files, h: nat, hd: Handle, r: Result, files': Files)
    requires ExtentSize(e) && FsOk(e, s, files) && StoresAtMost(s, r)
    requires hd.ino == r.inode.ino < TWO56 && HasRecord(s, hd.ino) && r.inode.links == 1
    requires WellFormed(e, r.disk.data)
    requires forall ino: nat :: ino < TWO64 ==> Represents(ExtentsOf(r.disk.data, e), e, ino, FileOf(files', ino))
    requires forall ino :: ino != hd.ino ==> FileOf(files', ino) == FileOf(files, ino)
    requires |FileOf(files', hd.ino)| == r.inode.size <= TWO63
    ensures FsOk(e, Put(s, h, hd, r), files')
  {
    hide Inv, Represents, ExtentsOf, InodeKey;
    var s' := Put(s, h, hd, r);
    if r.disk.meta != s.m.meta {
      PersistKeepsInv(s, r.inode);
    }
    assert s.m.(meta := s.m.meta) == s.m;
    forall ino | ino in s'.mem ensures HasRecord(s', ino) {
      if ino != hd.ino {
        PersistKeepsRecords(s, r.inode, ino);
      }
    }
    forall ino: nat | ino < TWO64 ensures |FileOf(files', ino)| == SizeOf(s', ino) <= TWO63 {
      if ino != hd.ino {
        PersistKeepsRecords(s, r.inode, ino);
        assert SizeOf(s, ino) == if ino in s.mem then s.mem[ino].size else RecordSize(s.m.meta, ino);
        assert SizeOf(s', ino) == if ino in s.mem then s.mem[ino].size else RecordSize(s'.m.meta, ino);
      }
    }
  }

  // The inode an open works on has the file's number and size.
  lemma LoadedOk(e: nat, s: Fs, files: Files, ino: nat)
    requires ExtentSize(e) && FsOk(e, s, files) && ino < TWO56 && HasRecord(s, ino)
    ensures Loaded(s, ino).ino == ino && Loaded(s, ino).links == 1
    ensures Loaded(s, ino).size == SizeOf(s, ino) == |FileOf(files, ino)|
  {
    RecordNumber(s.m, ino);
  }

  // One write, seen by all files at once.
  lemma WriteFiles(e: nat, s: Fs, files: Files, i: Inode, off: nat, buf: seq<byte>, failed: set<nat>,
                   outcome: Outcome, now: int, r: Result, files': Files)
    requires ExtentSize(e) && DataOk(e, s, files) && InRange(e, off, |buf|) && i.ino < TWO56
    requires i.size == |FileOf(files, i.ino)|
    requires r == WriteEffect(e, DiskOf(s), i, off, buf, failed, outcome, now)
    requires files' == files[i.ino := FlatAfterWrite(e, FileOf(files, i.ino), off, buf, failed, outcome)]
    ensures forall ino: nat :: ino < TWO64 ==> Represents(ExtentsOf(r.disk.data, e), e, ino, FileOf(files', ino))
    ensures WellFormed(e, r.disk.data) && |FileOf(files', i.ino)| == r.inode.size && StoresAtMost(s, r)
    ensures r.inode.ino == i.ino && r.inode.links == i.links
  {
    WriteEffectOnFile(e, DiskOf(s), i, FileOf(files, i.ino), off, buf, failed, outcome, now);
    forall ino: nat | ino < TWO64
      ensures Represents(ExtentsOf(r.disk.data, e), e, ino, FileOf(files', ino))
    {
      if ino != i.ino {
        WriteEffectElsewhere(e, DiskOf(s), i, off, buf, failed, outcome, now, ino, FileOf(files, ino));
      }
    }
  }

  lemma WriteOk(e: nat, s: Fs, files: Files, step: FsStep)
    requires ExtentSize(e) && FsOk(e, s, files) && step.Write? && FsEnabled(e, s, step)
    ensures FsOk(e, FsNext(e, s, step), FlatStep(e, s, step, files))
  {
    var Write(h, off, buf, failed, outcome, now) := step;
    var hd := s.handles[h];
    var i := s.mem[hd.ino];
    var r := WriteEffect(e, DiskOf(s), i, off, buf, failed, outcome, now);
    var files' := FlatStep(e, s, step, files);
    assert |FileOf(files, hd.ino)| == SizeOf(s, hd.ino) <= TWO63;
    WriteFiles(e, s, files, i, off, buf, failed, outcome, now, r, files');
    PutOk(e, s, files, h, hd, r, files');
  }

  // Calls that leave the extents alone.
  lemma QuietPutOk(e: nat, s: Fs, files: Files, h: nat, hd: Handle, r: Result)
    requires ExtentSize(e) && FsOk(e, s, files) && StoresAtMost(s, r)
    requires hd.ino == r.inode.ino < TWO56 && HasRecord(s, hd.ino) && r.inode.links == 1
    requires r.disk.data == s.data && r.inode.size == SizeOf(s, hd.ino)
    ensures FsOk(e, Put(s, h, hd, r), files)
  {
    assert |FileOf(files, hd.ino)| == SizeOf(s, hd.ino);
    PutOk(e, s, files, h, hd, r, files);
  }

  // What a truncation that took the lock leaves of its file's extents.
  ghost predicate NothingLeft(e: nat, s: Fs, ino: nat, failed: set<nat>, outcome: Outcome) {
    forall index: nat :: (ino, index) in ExtentsOf(s.data, e) ==> outcome.Committed? && index !in failed
  }

  /** An open with O_TRUNC does its work exactly when it leaves no stored extent of the file behind. */
  lemma OpenTruncOkIff(e: nat, s: Fs, files: Files, step: FsStep)
    requires ExtentSize(e) && FsOk(e, s, files) && step.OpenTrunc? && FsEnabled(e, s, step)
    ensures FsOk(e, FsNext(e, s, step), FlatStep(e, s, step, files))
       <==> (step.locked ==> NothingLeft(e, s, step.ino, step.failed, step.outcome))
  {
    hide Inv, Represents, ExtentsOf, WellFormed, CommitData, TruncateOps, NothingLeft, ExtentCount;
    var OpenTrunc(h, ino, noatime, locked, failed, outcome) := step;
    var hd := Handle(ino, false, noatime);
    var i := Loaded(s, ino);
    var r := TruncateEffect(e, DiskOf(s), i, locked, failed, outcome);
    LoadedOk(e, s, files, ino);
    if !locked {
      QuietPutOk(e, s, files, h, hd, r);
      DropHandleOk(e, Put(s, h, hd, r), files, h);
      NewHandleDropped(s, h, hd, r);
    } else {
      var files' := files[ino := []];
      TruncateLeaves(e, s, files, i, failed, outcome);
      if NothingLeft(e, s, ino, failed, outcome) {
        forall ino': nat | ino' < TWO64 ensures Represents(ExtentsOf(r.disk.data, e), e, ino', FileOf(files', ino')) {
          TruncateElsewhere(e, s, files, i, failed, outcome, ino');
        }
        PutOk(e, s, files, h, hd, r, files');
        DropHandleOk(e, Put(s, h, hd, r), files', h);
        NewHandleDropped(s, h, hd, r);
      } else {
        var s' := FsNext(e, s, step);
        assert s'.data == r.disk.data && FileOf(files', ino) == [];
      }
    }
  }

  lemma NewHandleDropped(s: Fs, h: nat, hd: Handle, r: Result)
    requires h !in s.handles
    ensures Put(s, h, hd, r).handles - {h} == s.handles
  {}

  // A truncation that took the lock, seen by its own file.
  lemma TruncateLeaves(e: nat, s: Fs, files: Files, i: Inode, failed: set<nat>, outcome: Outcome)
    requires ExtentSize(e) && DataOk(e, s, files) && i.ino < TWO56
    requires i.size == |FileOf(files, i.ino)| <= TWO63 && InodeKey(i.ino) in s.m.meta
    ensures var r := TruncateEffect(e, DiskOf(s), i, true, failed, outcome);
            && WellFormed(e, r.disk.data)
            && (Represents(ExtentsOf(r.disk.data, e), e, i.ino, []) <==> NothingLeft(e, s, i.ino, failed, outcome))
  {
    hide ExtentsOf, ExtentCount, WellFormed, TruncateOps;
    var x := ExtentsOf(s.data, e);
    var r := TruncateEffect(e, DiskOf(s), i, true, failed, outcome);
    assert Represents(x, e, i.ino, FileOf(files, i.ino));
    TruncateDataMeaning(e, s.data, i, failed);
    EmptyIffNoExtents(ExtentsOf(r.disk.data, e), e, i.ino);
  }

  // And by every other file.
  lemma TruncateElsewhere(e: nat, s: Fs, files: Files, i: Inode, failed: set<nat>, outcome: Outcome, ino: nat)
    requires ExtentSize(e) && DataOk(e, s, files) && i.ino < TWO56 && ino < TWO64
    requires i.size == |FileOf(files, i.ino)| <= TWO63 && InodeKey(i.ino) in s.m.meta
    requires NothingLeft(e, s, i.ino, failed, outcome)
    ensures var r := TruncateEffect(e, DiskOf(s), i, true, failed, outcome);
            Represents(ExtentsOf(r.disk.data, e), e, ino, FileOf(files[i.ino := []], ino))
  {
    hide Represents, ExtentsOf, ExtentCount, WellFormed, TruncateOps, NothingLeft;
    if ino == i.ino {
      TruncateLeaves(e, s, files, i, failed, outcome);
    } else {
      TruncateDataMeaning(e, s.data, i, failed);
      TruncateKeepsOthers(ExtentsOf(s.data, e), e, i.ino, ExtentCount(i.size, e), failed, ino, FileOf(files, ino));
    }
  }

  lemma OpenOk(e: nat, s: Fs, files: Files, step: FsStep)
    requires ExtentSize(e) && FsOk(e, s, files) && step.Open? && FsEnabled(e, s, step)
    ensures FsOk(e, FsNext(e, s, step), files)
  {
    var i := Loaded(s, step.ino);
    LoadedOk(e, s, files, step.ino);
    QuietPutOk(e, s, files, step.h, Handle(step.ino, false, step.noatime), Result(DiskOf(s), i, false, 0));
    assert s.m.(meta := s.m.meta) == s.m;
  }

  lemma TouchOk(e: nat, s: Fs, files: Files, step: FsStep)
    requires ExtentSize(e) && FsOk(e, s, files) && step.Touch? && FsEnabled(e, s, step)
    ensures FsOk(e, FsNext(e, s, step), files)
  {
    var hd := s.handles[step.h];
    var (i, dirty) := TouchEffect(s.mem[hd.ino], hd.dirty, hd.noatime, step.now);
    QuietPutOk(e, s, files, step.h, hd, Result(DiskOf(s), i, dirty, 0));
  }

  lemma FsyncOk(e: nat, s: Fs, files: Files, h: nat, outcome: Outcome)
    requires ExtentSize(e) && FsOk(e, s, files) && OpenHandle(s, h)
    ensures FsOk(e, FsNext(e, s, Fsync(h, outcome)), files)
    ensures FsOk(e, FsNext(e, s, Close(h, outcome)), files)
  {
    hide Inv, DataOk, InodeKey;
    var hd := s.handles[h];
    var r := FsyncEffect(DiskOf(s), s.mem[hd.ino], hd.dirty, outcome);
    QuietPutOk(e, s, files, h, hd, r);
    DropHandleOk(e, Put(s, h, hd, r), files, h);
  }

  lemma DropHandleOk(e: nat, s: Fs, files: Files, h: nat)
    requires ExtentSize(e) && FsOk(e, s, files)
    ensures FsOk(e, s.(handles := s.handles - {h}), files)
  {
    var s' := s.(handles := s.handles - {h});
    forall ino: nat ensures SizeOf(s', ino) == SizeOf(s, ino) {}
  }

  /* ---- Losing memory ---- */

  // The in-memory size of an inode is the recorded one.
  predicate SizeStored(s: Fs, ino: nat)
    requires ino in s.mem
  {
    HasRecord(s, ino) && s.mem[ino].size == RecordOf(s, ino).size
  }

  // Losing an inode is harmless exactly when its in-memory size was stored.
  lemma EvictOkIff(e: nat, s: Fs, files: Files, ino: nat)
    requires ExtentSize(e) && FsOk(e, s, files) && FsEnabled(e, s, Evict(ino))
    ensures FsOk(e, FsNext(e, s, Evict(ino)), files) <==> SizeStored(s, ino)
  {
    hide Inv, Represents, ExtentsOf, WellFormed, InodeKey;
    var s' := FsNext(e, s, Evict(ino));
    assert forall ino' :: ino' != ino ==> SizeOf(s', ino') == SizeOf(s, ino');
    assert SizeOf(s', ino) == RecordOf(s, ino).size;
    assert |FileOf(files, ino)| == SizeOf(s, ino) == s.mem[ino].size;
  }

  // A remount is harmless exactly when all in-memory sizes were stored.
  lemma RemountOkIff(e: nat, s: Fs, files: Files)
    requires ExtentSize(e) && FsOk(e, s, files)
    ensures FsOk(e, FsNext(e, s, FsStep.Remount), files) <==> forall ino :: ino in s.mem ==> SizeStored(s, ino)
  {
    hide Represents, ExtentsOf, WellFormed;
    var s' := FsNext(e, s, FsStep.Remount);
    RemountInv(s.m);
    forall ino: nat ensures SizeOf(s', ino) == SizeOf(s, ino) <==> (ino in s.mem ==> SizeStored(s, ino)) {}
    if FsOk(e, s', files) {
      forall ino | ino in s.mem ensures SizeStored(s, ino) {
        assert |FileOf(files, ino)| == SizeOf(s, ino) && |FileOf(files, ino)| == SizeOf(s', ino);
      }
    }
  }

  // A rewrite of a merge log is harmless to the files exactly when it is harmless to the log.
  lemma CompactOkIff(e: nat, s: Fs, files: Files, step: FsStep)
    requires ExtentSize(e) && FsOk(e, s, files) && step.Compact? && FsEnabled(e, s, step)
    ensures FsOk(e, FsNext(e, s, step), files) <==> HarmlessCompaction(e, s.data, step.key, step.rewrite)
  {
    hide Inv, Represents, ExtentsOf, WellFormed, Compacted, HarmlessCompaction;
    var s' := FsNext(e, s, step);
    var x, x' := ExtentsOf(s.data, e), ExtentsOf(s'.data, e);
    CompactionKeepsExtentsIff(e, s.data, step.key, step.rewrite);
    CompactionKeepsWellFormed(e, s.data, step.key, step.rewrite);
    assert forall ino' :: SizeOf(s', ino') == SizeOf(s, ino');
    if FsOk(e, s', files) {
      SameFilesSameExtents(e, s, files, step.key, step.rewrite);
    }
  }

  lemma SameFilesSameExtents(e: nat, s: Fs, files: Files, key: DataKey, rewrite: MergeLog.LogEvent)
    requires ExtentSize(e) && DataOk(e, s, files) && !rewrite.Append?
    requires DataOk(e, s.(data := Compacted(e, s.data, key, rewrite)), files)
    ensures ExtentsOf(Compacted(e, s.data, key, rewrite), e) == ExtentsOf(s.data, e)
  {
    hide Represents, Compacted, Extent, WellFormed;
    var data' := Compacted(e, s.data, key, rewrite);
    var x, x' := ExtentsOf(s.data, e), ExtentsOf(data', e);
    WellFormedIsFull(s.data, e);
    WellFormedIsFull(data', e);
    forall k: (nat, nat)
      ensures k in x' <==> k in x
      ensures k in x ==> x'[k] == x[k]
    {
      CompactionKeepsPresence(e, s.data, key, rewrite, k);
      if k in x {
        assert Represents(x, e, k.0, FileOf(files, k.0)) && Represents(x', e, k.0, FileOf(files, k.0));
        FileDeterminesExtent(x, x', e, k.0, FileOf(files, k.0), k.1);
      }
    }
  }

  /* ---- Every step ---- */

  /**
   The steps that leave every file equal to its flat file.  What can go wrong: a truncation that took the lock
   and left a stored extent behind, the loss of an inode whose in-memory size was never stored, and a log
   rewrite that clears bytes.
   */
  ghost predicate Safe(e: nat, s: Fs, step: FsStep) {
    match step
    case OpenTrunc(_, ino, _, locked, failed, outcome) => locked ==> NothingLeft(e, s, ino, failed, outcome)
    case Evict(ino) => ino in s.mem ==> SizeStored(s, ino)
    case Compact(key, rewrite) => HarmlessCompaction(e, s.data, key, rewrite)
    case Remount => forall ino :: ino in s.mem ==> SizeStored(s, ino)
    case _ => true
  }

  /** Every enabled step keeps the invariant exactly when it is safe. */
  lemma FsStepOkIff(e: nat, s: Fs, files: Files, step: FsStep)
    requires ExtentSize(e) && FsOk(e, s, files) && s.m.seed < TWO56
    ensures FsOk(e, FsNext(e, s, step), FlatStep(e, s, step, files)) <==> (FsEnabled(e, s, step) ==> Safe(e, s, step))
  {
    hide FsOk, NothingLeft, HarmlessCompaction, SizeStored, Put, WriteEffect, TruncateEffect, FsyncEffect, TouchEffect;
    if FsEnabled(e, s, step) {
      match step
      case MetaStep(st) => MetaStepOk(e, s, files, st);
      case Open(_, _, _) => OpenOk(e, s, files, step);
      case OpenTrunc(_, _, _, _, _, _) => OpenTruncOkIff(e, s, files, step);
      case Write(_, _, _, _, _, _) => WriteOk(e, s, files, step);
      case Touch(_, _) => TouchOk(e, s, files, step);
      case Fsync(h, outcome) => FsyncOk(e, s, files, h, outcome);
      case Close(h, outcome) => FsyncOk(e, s, files, h, outcome);
      case Evict(ino) => EvictOkIff(e, s, files, ino);
      case Compact(_, _) => CompactOkIff(e, s, files, step);
      case Remount => RemountOkIff(e, s, files);
    }
  }
}
