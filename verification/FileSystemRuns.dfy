/** What holds over every run of the whole file system. */
module FileSystemRuns {
  import opened Bytes
  import opened Extents
  import opened FlatFile
  import opened ReadSpec
  import opened MetaKeys
  import opened Metadata
  import opened MetadataInv
  import opened MetadataRuns
  import opened FileSystem
  import opened FileSystemInv
  import opened FileSystemBase
  import opened FileSystemSync
  import MergeLog

  // Every step that does something is safe.
  ghost predicate SafeRun(e: nat, s: Fs, steps: seq<FsStep>)
    requires e > 0
    decreases |steps|
  {
    steps == [] || (&& (FsEnabled(e, s, steps[0]) ==> Safe(e, s, steps[0]))
                    && SafeRun(e, FsNext(e, s, steps[0]), steps[1..]))
  }

  // Every state of the run keeps all files equal to their flat files.
  ghost predicate OkRun(e: nat, s: Fs, steps: seq<FsStep>, files: Files)
    requires e > 0
    decreases |steps|
  {
    FsOk(e, s, files) && (steps == [] || OkRun(e, FsNext(e, s, steps[0]), steps[1..], FlatStep(e, s, steps[0], files)))
  }

  /** The invariant holds all along a run exactly when the run is safe. */
  lemma {:induction false} RunOkIff(e: nat, s: Fs, steps: seq<FsStep>, files: Files)
    requires ExtentSize(e) && FsOk(e, s, files) && s.m.seed + |steps| <= TWO56
    ensures OkRun(e, s, steps, files) <==> SafeRun(e, s, steps)
    ensures SafeRun(e, s, steps) ==> FsOk(e, FsRun(e, s, steps), FlatRun(e, s, steps, files))
    decreases |steps|
  {
    hide FsOk, FsNext, FlatStep, FsEnabled, Safe;
    if steps != [] {
      var s', files' := FsNext(e, s, steps[0]), FlatStep(e, s, steps[0], files);
      FsStepOkIff(e, s, files, steps[0]);
      FsSeedStep(e, s, files, steps[0]);
      if FsOk(e, s', files') {
        RunOkIff(e, s', steps[1..], files');
      } else {
        NotOkRun(e, s', steps[1..], files');
      }
    }
  }

  lemma NotOkRun(e: nat, s: Fs, steps: seq<FsStep>, files: Files)
    requires e > 0 && !FsOk(e, s, files)
    ensures !OkRun(e, s, steps, files)
  {}

  lemma FsSeedStep(e: nat, s: Fs, files: Files, step: FsStep)
    requires ExtentSize(e) && FsOk(e, s, files) && s.m.seed < TWO56
    ensures FsNext(e, s, step).m.seed <= s.m.seed + 1
  {
    hide DataOk, InodeKey;
    PutSeed(e, s, step);
    if FsEnabled(e, s, step) {
      if step.MetaStep? {
        StepInv(s.m, step.step);
      } else if step.Remount? {
        StepInv(s.m, Step.Remount);
      }
    }
  }

  /* ---- Reads ---- */

  /**
   The law of reads at any offset up to the end of the file: an aligned read returns what the flat file
   returns, clamped at i_size, holes as zeros.  Any other read takes its first segment from the start of the
   extent and is right from there on; a reader that added the in-extent offset would be right everywhere.
   */
  ghost predicate ReadsBack(e: nat, x: ExtentMap, ino: nat, f: seq<byte>, off: nat, len: nat)
    requires e > 0 && off <= |f|
  {
    var n := Min(len, |f| - off);
    var k := SegmentLen(e, off, n);
    var base := off - OffsetIn(off, e);
    && (OffsetIn(off, e) == 0 ==> Fetch(x, e, ino, off, n) == FlatRead(f, off, len))
    && Fetch(x, e, ino, off, n) == f[base..base + k] + f[off + k..off + n]
    && FetchAtOffset(x, e, ino, off, n) == FlatRead(f, off, len)
  }

  // After any safe run from a fresh file system every file reads back as its flat file.
  lemma ReadAfterRun(e: nat, sk: Key, firstIno: nat, steps: seq<FsStep>, ino: nat, off: nat, len: nat)
    requires ExtentSize(e) && SeedKey(sk) && firstIno + |steps| <= TWO56 && ino < TWO64
    requires SafeRun(e, FreshFs(sk, firstIno), steps)
    requires off <= SizeOf(FsRun(e, FreshFs(sk, firstIno), steps), ino)
    ensures var s := FsRun(e, FreshFs(sk, firstIno), steps);
            var f := FileOf(FlatRun(e, FreshFs(sk, firstIno), steps, map[]), ino);
            |f| == SizeOf(s, ino) && ReadsBack(e, ExtentsOf(s.data, e), ino, f, off, len)
  {
    hide FsOk, FsRun, FlatRun, SafeRun, ReadsBack, ExtentsOf, FileOf, SizeOf;
    var s0 := FreshFs(sk, firstIno);
    FreshFsOk(e, sk, firstIno);
    RunOkIff(e, s0, steps, map[]);
    ReadInOk(e, FsRun(e, s0, steps), FlatRun(e, s0, steps, map[]), ino, off, len);
  }

  lemma ReadInOk(e: nat, s: Fs, files: Files, ino: nat, off: nat, len: nat)
    requires ExtentSize(e) && FsOk(e, s, files) && ino < TWO64 && off <= SizeOf(s, ino)
    ensures var f := FileOf(files, ino);
            |f| == SizeOf(s, ino) && ReadsBack(e, ExtentsOf(s.data, e), ino, f, off, len)
  {
    hide Inv, MemOk, HandlesOk, Represents, ReadsBack, ExtentsOf, ExtentOf, OffsetIn;
    var f, x := FileOf(files, ino), ExtentsOf(s.data, e);
    assert |f| == SizeOf(s, ino) && Represents(x, e, ino, f);
    FileReadsBack(e, x, ino, f, off, len);
  }

  lemma FileReadsBack(e: nat, x: ExtentMap, ino: nat, f: seq<byte>, off: nat, len: nat)
    requires e > 0 && Represents(x, e, ino, f) && off <= |f|
    ensures ReadsBack(e, x, ino, f, off, len)
  {
    hide Represents, Fetch, FetchAtOffset, ExtentOf, OffsetIn;
    var n := Min(len, |f| - off);
    FetchExact(x, e, ino, f, off, n);
    FetchAtOffsetIsFlat(x, e, ino, f, off, n);
    if OffsetIn(off, e) == 0 {
      FetchIsFlat(x, e, ino, f, off, n);
    }
  }

  /* ---- Runs with any log rewrites ---- */

  // Every file of a is the one of b with some bytes cleared.
  ghost predicate Faded(a: Files, b: Files) {
    forall ino: nat :: FadedFile(FileOf(a, ino), FileOf(b, ino))
  }

  ghost predicate FadedFile(f: seq<byte>, g: seq<byte>) {
    |f| == |g| && forall p :: 0 <= p < |f| ==> f[p] == g[p] || f[p] == 0
  }

  // What extents hold up to a size.
  ghost function BytesUpTo(x: ExtentMap, e: nat, ino: nat, size: nat): (f: seq<byte>)
    requires e > 0
    ensures |f| == size && forall p :: 0 <= p < size ==> f[p] == ByteAt(x, e, ino, p)
  {
    seq(size, p requires 0 <= p => ByteAt(x, e, ino, p))
  }

  ghost function FilesIn(x: ExtentMap, e: nat, files: Files): Files
    requires e > 0
  {
    map ino | ino in files :: BytesUpTo(x, e, ino, |files[ino]|)
  }

  /** Any rewrite of a log leaves a consistent file system, in which some bytes may have been cleared. */
  lemma AnyCompactFades(e: nat, s: Fs, files: Files, step: FsStep) returns (files': Files)
    requires ExtentSize(e) && FsOk(e, s, files) && step.Compact? && FsEnabled(e, s, step)
    ensures FsOk(e, FsNext(e, s, step), files') && Faded(files', files)
  {
    hide Inv, Represents, ExtentsOf, WellFormed, Compacted, InodeKey;
    var s' := FsNext(e, s, step);
    var x, x' := ExtentsOf(s.data, e), ExtentsOf(s'.data, e);
    files' := FilesIn(x', e, files);
    CompactionKeepsWellFormed(e, s.data, step.key, step.rewrite);
    forall ino: nat | ino < TWO64
      ensures Represents(x', e, ino, FileOf(files', ino)) && |FileOf(files', ino)| == SizeOf(s', ino) <= TWO63
    {
      assert Represents(x, e, ino, FileOf(files, ino));
      CompactedFile(e, s.data, step.key, step.rewrite, ino, FileOf(files, ino), FileOf(files', ino));
    }
    forall ino: nat ensures FadedFile(FileOf(files', ino), FileOf(files, ino)) {
      if ino < TWO64 {
        assert Represents(x, e, ino, FileOf(files, ino));
        CompactedFile(e, s.data, step.key, step.rewrite, ino, FileOf(files, ino), FileOf(files', ino));
      } else {
        NoSuchExtents(s'.data, e, ino);
      }
    }
  }

  lemma NoSuchExtents(data: DataCf, e: nat, ino: nat)
    requires e > 0 && ino >= TWO64
    ensures forall p: nat :: ByteAt(ExtentsOf(data, e), e, ino, p) == 0
  {}

  lemma CompactedFile(e: nat, data: DataCf, key: DataKey, rewrite: MergeLog.LogEvent, ino: nat,
                      f: seq<byte>, g: seq<byte>)
    requires e > 0 && !rewrite.Append? && Represents(ExtentsOf(data, e), e, ino, f)
    requires g == BytesUpTo(ExtentsOf(Compacted(e, data, key, rewrite), e), e, ino, |f|)
    ensures Represents(ExtentsOf(Compacted(e, data, key, rewrite), e), e, ino, g) && FadedFile(g, f)
  {
    hide ExtentsOf, Compacted, ExtentCount, ByteAt;
    var x, y := ExtentsOf(data, e), ExtentsOf(Compacted(e, data, key, rewrite), e);
    forall index: nat | (ino, index) in y ensures index < ExtentCount(|g|, e) {
      CompactionKeepsPresence(e, data, key, rewrite, (ino, index));
    }
    forall p: nat
      ensures ByteAt(y, e, ino, p) == if p < |g| then g[p] else 0
      ensures p < |f| ==> g[p] == f[p] || g[p] == 0
    {
      assert ByteAt(x, e, ino, p) == if p < |f| then f[p] else 0;
      CompactedByte(e, data, key, rewrite, ino, p);
    }
  }

  // A safe step does to the cleared files what it does to the flat files.
  lemma FlatStepFades(e: nat, s: Fs, step: FsStep, a: Files, b: Files)
    requires e > 0 && Faded(a, b)
    ensures Faded(FlatStep(e, s, step, a), FlatStep(e, s, step, b))
  {
    hide ExtentOf, InodeKey;
    var a', b' := FlatStep(e, s, step, a), FlatStep(e, s, step, b);
    forall ino: nat ensures FadedFile(FileOf(a', ino), FileOf(b', ino)) {
      assert FadedFile(FileOf(a, ino), FileOf(b, ino));
    }
  }

  // Every step other than a log rewrite is safe.
  ghost predicate TidyRun(e: nat, s: Fs, steps: seq<FsStep>)
    requires e > 0
    decreases |steps|
  {
    steps == [] || (&& (FsEnabled(e, s, steps[0]) ==> steps[0].Compact? || Safe(e, s, steps[0]))
                    && TidyRun(e, FsNext(e, s, steps[0]), steps[1..]))
  }

  /** Over every tidy run, with any log rewrites, the files are the flat files with some bytes cleared. */
  lemma {:induction false} TidyRunFades(e: nat, s: Fs, steps: seq<FsStep>, files: Files, flat: Files)
    returns (files': Files)
    requires ExtentSize(e) && FsOk(e, s, files) && Faded(files, flat) && s.m.seed + |steps| <= TWO56
    requires TidyRun(e, s, steps)
    ensures FsOk(e, FsRun(e, s, steps), files') && Faded(files', FlatRun(e, s, steps, flat))
    decreases |steps|
  {
    hide FsOk, FsNext, FlatStep, Faded, Safe;
    files' := files;
    if steps != [] {
      var next;
      if FsEnabled(e, s, steps[0]) && steps[0].Compact? {
        next := AnyCompactFades(e, s, files, steps[0]);
        CompactIsFlat(e, s, steps[0], flat);
        FadedTwice(next, files, flat);
      } else {
        next := FlatStep(e, s, steps[0], files);
        FsStepOkIff(e, s, files, steps[0]);
        FlatStepFades(e, s, steps[0], files, flat);
      }
      FsSeedStep(e, s, files, steps[0]);
      files' := TidyRunFades(e, FsNext(e, s, steps[0]), steps[1..], next, FlatStep(e, s, steps[0], flat));
    }
  }

  lemma CompactIsFlat(e: nat, s: Fs, step: FsStep, files: Files)
    requires e > 0 && step.Compact?
    ensures FlatStep(e, s, step, files) == files
  {}

  lemma FadedTwice(a: Files, b: Files, c: Files)
    requires Faded(a, b) && Faded(b, c)
    ensures Faded(a, c)
  {
    forall ino: nat ensures FadedFile(FileOf(a, ino), FileOf(c, ino)) {
      assert FadedFile(FileOf(a, ino), FileOf(b, ino)) && FadedFile(FileOf(b, ino), FileOf(c, ino));
    }
  }

  lemma TidyFreshRun(e: nat, sk: Key, firstIno: nat, steps: seq<FsStep>) returns (files: Files)
    requires ExtentSize(e) && SeedKey(sk) && firstIno + |steps| <= TWO56
    requires TidyRun(e, FreshFs(sk, firstIno), steps)
    ensures FsOk(e, FsRun(e, FreshFs(sk, firstIno), steps), files)
    ensures Faded(files, FlatRun(e, FreshFs(sk, firstIno), steps, map[]))
  {
    hide FsOk, FsRun, FlatRun, TidyRun;
    FreshFsOk(e, sk, firstIno);
    files := TidyRunFades(e, FreshFs(sk, firstIno), steps, map[], map[]);
  }

  /**
   After every tidy run, with any log rewrites, each byte of an aligned read, or of a read by a reader that adds the
   offset, is the flat file's byte or zero: no wrong byte and no old byte ever shows.
   */
  lemma ReadsOnlyFade(e: nat, sk: Key, firstIno: nat, steps: seq<FsStep>, ino: nat, off: nat, n: nat, q: nat)
    requires ExtentSize(e) && SeedKey(sk) && firstIno + |steps| <= TWO56 && ino < TWO64 && q < n
    requires TidyRun(e, FreshFs(sk, firstIno), steps)
    requires off + n <= SizeOf(FsRun(e, FreshFs(sk, firstIno), steps), ino)
    ensures var s := FsRun(e, FreshFs(sk, firstIno), steps);
            var x, f := ExtentsOf(s.data, e), FileOf(FlatRun(e, FreshFs(sk, firstIno), steps, map[]), ino);
            && |f| == SizeOf(s, ino)
            && (FetchAtOffset(x, e, ino, off, n)[q] == f[off + q] || FetchAtOffset(x, e, ino, off, n)[q] == 0)
            && (OffsetIn(off, e) == 0 ==> Fetch(x, e, ino, off, n)[q] == FetchAtOffset(x, e, ino, off, n)[q])
  {
    hide FsRun, FlatRun, TidyRun, Represents, Inv, MemOk, HandlesOk, ExtentsOf, Fetch, FetchAtOffset, OffsetIn;
    var files := TidyFreshRun(e, sk, firstIno, steps);
    var s := FsRun(e, FreshFs(sk, firstIno), steps);
    var x, f := ExtentsOf(s.data, e), FileOf(files, ino);
    assert Represents(x, e, ino, f) && |f| == SizeOf(s, ino);
    FetchAtOffsetIsFlat(x, e, ino, f, off, n);
    if OffsetIn(off, e) == 0 {
      FetchAligned(x, e, ino, off, n);
    }
    assert FadedFile(f, FileOf(FlatRun(e, FreshFs(sk, firstIno), steps, map[]), ino));
  }

  /**
   After every tidy run, with any log rewrites, every stored extent of a file lies below ceil(i_size / e) and is zero
   past i_size.
   */
  lemma ExtentsAfterRun(e: nat, sk: Key, firstIno: nat, steps: seq<FsStep>, ino: nat, index: nat, p: nat)
    requires ExtentSize(e) && SeedKey(sk) && firstIno + |steps| <= TWO56 && ino < TWO64
    requires TidyRun(e, FreshFs(sk, firstIno), steps)
    ensures var s := FsRun(e, FreshFs(sk, firstIno), steps);
            var x := ExtentsOf(s.data, e);
            && ((ino, index) in x ==> index < ExtentCount(SizeOf(s, ino), e) && HasRecord(s, ino))
            && (SizeOf(s, ino) <= p ==> ByteAt(x, e, ino, p) == 0)
  {
    hide FsRun, FlatRun, TidyRun, Inv, ExtentsOf, ExtentCount, Faded, FsBase, ByteAt;
    var files := TidyFreshRun(e, sk, firstIno, steps);
    var s := FsRun(e, FreshFs(sk, firstIno), steps);
    assert Represents(ExtentsOf(s.data, e), e, ino, FileOf(files, ino));
    FreshBase(e, sk, firstIno);
    AnyRunBase(e, FreshFs(sk, firstIno), steps);
    if !HasRecord(s, ino) {
      NoRecordNoExtents(e, s, ino, index);
    }
  }

  /* ---- Runs whose calls succeed ---- */

  // Data calls commit, and truncations delete what there is.  Staging of single segments may still fail, and logs
  // may be rewritten in any way.
  ghost predicate Succeeds(e: nat, s: Fs, step: FsStep) {
    && CallCommits(step)
    && (step.OpenTrunc? && step.locked ==> NothingLeft(e, s, step.ino, step.failed, step.outcome))
  }

  ghost predicate SuccessfulRun(e: nat, s: Fs, steps: seq<FsStep>)
    requires e > 0
    decreases |steps|
  {
    steps == [] || (&& CallCommits(steps[0]) && (FsEnabled(e, s, steps[0]) ==> Succeeds(e, s, steps[0]))
                    && SuccessfulRun(e, FsNext(e, s, steps[0]), steps[1..]))
  }

  // Every log rewrite is harmless where it happens.
  ghost predicate HarmlessRewrites(e: nat, s: Fs, steps: seq<FsStep>)
    requires e > 0
    decreases |steps|
  {
    steps == [] || (&& (steps[0].Compact? && FsEnabled(e, s, steps[0]) ==> Safe(e, s, steps[0]))
                    && HarmlessRewrites(e, FsNext(e, s, steps[0]), steps[1..]))
  }

  // Nothing but a rewrite can be unsafe where memory and store agree.
  lemma SuccessIsSafe(e: nat, s: Fs, step: FsStep)
    requires AllSynced(s) && Succeeds(e, s, step)
    ensures step.Compact? || Safe(e, s, step)
  {
    hide NothingLeft, InodeKey;
    assert forall ino :: ino in s.mem ==> Synced(s, ino);
  }

  /**
   A successful run keeps memory and store in agreement and is tidy, so all that is said of tidy runs holds of it.
   If its log rewrites are harmless it is safe.
   */
  lemma {:induction false} SuccessfulRunIsTidy(e: nat, s: Fs, steps: seq<FsStep>)
    requires ExtentSize(e) && FsBase(e, s) && AllSynced(s) && s.m.seed + |steps| <= TWO56
    requires SuccessfulRun(e, s, steps)
    ensures TidyRun(e, s, steps) && AllSynced(FsRun(e, s, steps))
    ensures HarmlessRewrites(e, s, steps) ==> SafeRun(e, s, steps)
    decreases |steps|
  {
    hide FsBase, AllSynced, FsNext, FsEnabled, Safe, Succeeds, CallCommits, KeepsSync;
    if steps != [] {
      if FsEnabled(e, s, steps[0]) {
        SuccessIsSafe(e, s, steps[0]);
      }
      if FsEnabled(e, s, steps[0]) {
        CommittingKeepsSync(e, s, steps[0]);
      }
      SyncStepIff(e, s, steps[0]);
      AnyStepBase(e, s, steps[0]);
      SuccessfulRunIsTidy(e, FsNext(e, s, steps[0]), steps[1..]);
    }
  }

  /** After every successful run from a fresh file system: agreement, the extent bound and the zero tail at once. */
  lemma CommittedRun(e: nat, sk: Key, firstIno: nat, steps: seq<FsStep>, ino: nat, index: nat, p: nat)
    requires ExtentSize(e) && SeedKey(sk) && firstIno + |steps| <= TWO56 && ino < TWO64
    requires SuccessfulRun(e, FreshFs(sk, firstIno), steps)
    ensures var s := FsRun(e, FreshFs(sk, firstIno), steps);
            var x := ExtentsOf(s.data, e);
            && AllSynced(s)
            && ((ino, index) in x ==> index < ExtentCount(SizeOf(s, ino), e) && HasRecord(s, ino))
            && (SizeOf(s, ino) <= p ==> ByteAt(x, e, ino, p) == 0)
  {
    hide FsBase, FsRun, SuccessfulRun, TidyRun, ExtentsOf, ByteAt, ExtentCount, Synced, SizeOf, HasRecord;
    FreshBase(e, sk, firstIno);
    SuccessfulRunIsTidy(e, FreshFs(sk, firstIno), steps);
    ExtentsAfterRun(e, sk, firstIno, steps, ino, index, p);
  }

  /** After every successful run, with any log rewrites, the inode looked up has the length of the flat file. */
  lemma LookupSizeAfterRun(e: nat, sk: Key, firstIno: nat, steps: seq<FsStep>, p: int, n: seq<byte>)
    requires ExtentSize(e) && SeedKey(sk) && firstIno + |steps| <= TWO56 && CString(n)
    requires SuccessfulRun(e, FreshFs(sk, firstIno), steps)
    ensures var s := FsRun(e, FreshFs(sk, firstIno), steps);
            var r := Lookup(s.m.meta, p, n);
            r.Found? ==> r.inode.size == |FileOf(FlatRun(e, FreshFs(sk, firstIno), steps, map[]), r.ino)|
  {
    hide FsBase, FsRun, FlatRun, SuccessfulRun, TidyRun, NameKey, CString, Represents, ExtentsOf, WellFormed;
    FreshBase(e, sk, firstIno);
    SuccessfulRunIsTidy(e, FreshFs(sk, firstIno), steps);
    var files := TidyFreshRun(e, sk, firstIno, steps);
    var s := FsRun(e, FreshFs(sk, firstIno), steps);
    LookupInInv(s.m, p, n);
    var r := Lookup(s.m.meta, p, n);
    if r.Found? {
      assert r.ino < TWO56;
      assert RecordOf(s, r.ino) == r.inode;
      assert r.ino in s.mem ==> Synced(s, r.ino);
      assert |FileOf(files, r.ino)| == SizeOf(s, r.ino);
      assert FadedFile(FileOf(files, r.ino), FileOf(FlatRun(e, FreshFs(sk, firstIno), steps, map[]), r.ino));
    }
  }

  // Every file reads back after any successful run with harmless log rewrites.
  lemma ReadAfterCommittedRun(e: nat, sk: Key, firstIno: nat, steps: seq<FsStep>, ino: nat, off: nat, len: nat)
    requires ExtentSize(e) && SeedKey(sk) && firstIno + |steps| <= TWO56 && ino < TWO64
    requires SuccessfulRun(e, FreshFs(sk, firstIno), steps) && HarmlessRewrites(e, FreshFs(sk, firstIno), steps)
    requires off <= SizeOf(FsRun(e, FreshFs(sk, firstIno), steps), ino)
    ensures var s := FsRun(e, FreshFs(sk, firstIno), steps);
            var f := FileOf(FlatRun(e, FreshFs(sk, firstIno), steps, map[]), ino);
            |f| == SizeOf(s, ino) && ReadsBack(e, ExtentsOf(s.data, e), ino, f, off, len)
  {
    hide FsBase, FsRun, FlatRun, SafeRun, ReadsBack, ExtentsOf, FileOf, SizeOf, SuccessfulRun, HarmlessRewrites, Synced;
    FreshBase(e, sk, firstIno);
    SuccessfulRunIsTidy(e, FreshFs(sk, firstIno), steps);
    ReadAfterRun(e, sk, firstIno, steps, ino, off, len);
  }

  // Without failures, and if the store never joins two deltas, a run is successful with harmless rewrites.
  predicate Plain(step: FsStep) {
    && CallCommits(step)
    && (step.OpenTrunc? && step.locked ==> step.failed == {})
    && (step.Compact? ==> !step.rewrite.JoinDeltas?)
  }

  lemma {:induction false} PlainRunSucceeds(e: nat, s: Fs, steps: seq<FsStep>)
    requires ExtentSize(e) && forall i :: 0 <= i < |steps| ==> Plain(steps[i])
    ensures SuccessfulRun(e, s, steps) && HarmlessRewrites(e, s, steps)
    decreases |steps|
  {
    if steps != [] {
      PlainRunSucceeds(e, FsNext(e, s, steps[0]), steps[1..]);
    }
  }
}
