/**
 The whole file system as one machine: the metadata machine, the extents, the in-memory inodes and the open
 handles.  Creates and unlinks interleave step by step; each data call (open, write, read, fsync, close) is
 one step, with every way it can fail as part of the step.  The store may rewrite any merge log at any time.
 All handles on a file share one in-memory inode.

 The specification beside it is a map from inode numbers to flat byte sequences.
 */
module FileSystem {
  import opened Bytes
  import opened Extents
  import opened MetaKeys
  import opened Metadata
  import opened DataOps
  import MergeLog

  datatype Handle = Handle(ino: nat, dirty: bool, noatime: bool)

  datatype Fs = Fs(m: State, data: DataCf, mem: map<nat, Inode>, handles: map<nat, Handle>)

  datatype FsStep =
    | MetaStep(step: Step)                                  // a step of a create or an unlink
    | Open(h: nat, ino: nat, noatime: bool)                 // loads the inode if it is not in memory
    | OpenTrunc(h: nat, ino: nat, noatime: bool, locked: bool, failed: set<nat>, outcome: Outcome)
    | Write(h: nat, off: nat, buf: seq<byte>, failed: set<nat>, outcome: Outcome, now: int)
    | Touch(h: nat, now: int)                               // what a read does besides reading
    | Fsync(h: nat, outcome: Outcome)
    | Close(h: nat, outcome: Outcome)
    | Evict(ino: nat)                                       // the last reference to an inode goes away
    | Compact(key: DataKey, rewrite: MergeLog.LogEvent)     // the store rewrites one merge log
    | Remount

  function DiskOf(s: Fs): Disk {
    Disk(s.m.meta, s.data)
  }

  predicate HasRecord(s: Fs, ino: nat) {
    InodeKey(ino) in s.m.meta && s.m.meta[InodeKey(ino)].Rec?
  }

  function RecordOf(s: Fs, ino: nat): Inode
    requires HasRecord(s, ino)
  {
    s.m.meta[InodeKey(ino)].inode
  }

  predicate OpenHandle(s: Fs, h: nat) {
    h in s.handles && s.handles[h].ino in s.mem
  }

  predicate FsEnabled(e: nat, s: Fs, step: FsStep) {
    match step
    case MetaStep(st) => !st.Persist? && !st.Remount?
    case Open(h, ino, _) => h !in s.handles && ino < TWO56 && HasRecord(s, ino)
    case OpenTrunc(h, ino, _, _, _, _) => h !in s.handles && ino < TWO56 && HasRecord(s, ino)
    case Write(h, off, buf, _, _, _) => OpenHandle(s, h) && InRange(e, off, |buf|)
    case Touch(h, _) => OpenHandle(s, h)
    case Fsync(h, _) => OpenHandle(s, h)
    case Close(h, _) => OpenHandle(s, h)
    case Evict(ino) => ino in s.mem && forall h :: h in s.handles ==> s.handles[h].ino != ino
    case Compact(_, rewrite) => !rewrite.Append?
    case Remount => true
  }

  // The inode object an open works on: the shared one, or a new one made from the record.
  function Loaded(s: Fs, ino: nat): Inode
    requires HasRecord(s, ino)
  {
    if ino in s.mem then s.mem[ino] else RecordOf(s, ino)
  }

  // A call's effect on the store, on the shared inode and on its handle.
  function Put(s: Fs, h: nat, hd: Handle, r: Result): Fs {
    s.(m := s.m.(meta := r.disk.meta), data := r.disk.data,
       mem := s.mem[r.inode.ino := r.inode], handles := s.handles[h := hd.(dirty := r.dirty)])
  }

  function FsNext(e: nat, s: Fs, step: FsStep): Fs
    requires e > 0
  {
    if !FsEnabled(e, s, step) then s
    else match step
      case MetaStep(st) => s.(m := Next(s.m, st))
      case Open(h, ino, noatime) =>
        s.(mem := s.mem[ino := Loaded(s, ino)], handles := s.handles[h := Handle(ino, false, noatime)])
      case OpenTrunc(h, ino, noatime, locked, failed, outcome) =>
        var r := TruncateEffect(e, DiskOf(s), Loaded(s, ino), locked, failed, outcome);
        var s' := Put(s, h, Handle(ino, false, noatime), r);
        if r.ret == 0 then s' else s'.(handles := s.handles)
      case Write(h, off, buf, failed, outcome, now) =>
        var hd := s.handles[h];
        Put(s, h, hd, WriteEffect(e, DiskOf(s), s.mem[hd.ino], off, buf, failed, outcome, now))
      case Touch(h, now) =>
        var hd := s.handles[h];
        var (i, dirty) := TouchEffect(s.mem[hd.ino], hd.dirty, hd.noatime, now);
        Put(s, h, hd, Result(DiskOf(s), i, dirty, 0))
      case Fsync(h, outcome) =>
        var hd := s.handles[h];
        Put(s, h, hd, FsyncEffect(DiskOf(s), s.mem[hd.ino], hd.dirty, outcome))
      case Close(h, outcome) =>
        var hd := s.handles[h];
        var s' := Put(s, h, hd, FsyncEffect(DiskOf(s), s.mem[hd.ino], hd.dirty, outcome));
        s'.(handles := s'.handles - {h})
      case Evict(ino) => s.(mem := s.mem - {ino})
      case Compact(key, rewrite) => s.(data := Compacted(e, s.data, key, rewrite))
      case Remount => Fs(Next(s.m, Step.Remount), s.data, map[], map[])
  }

  function FsRun(e: nat, s: Fs, steps: seq<FsStep>): Fs
    requires e > 0
    decreases |steps|
  {
    if steps == [] then s else FsRun(e, FsNext(e, s, steps[0]), steps[1..])
  }

  function FreshFs(sk: Key, firstIno: nat): Fs {
    Fs(Fresh(sk, firstIno), map[], map[], map[])
  }

  /* ---- The specification: one flat file per inode number ---- */

  type Files = map<nat, seq<byte>>

  function FileOf(files: Files, ino: nat): seq<byte> {
    if ino in files then files[ino] else []
  }

  function FlatStep(e: nat, s: Fs, step: FsStep, files: Files): Files
    requires e > 0
  {
    if !FsEnabled(e, s, step) then files
    else match step
      case Write(h, off, buf, failed, outcome, now) =>
        var ino := s.handles[h].ino;
        files[ino := FlatAfterWrite(e, FileOf(files, ino), off, buf, failed, outcome)]
      case OpenTrunc(_, ino, _, locked, _, _) => if locked then files[ino := []] else files
      case _ => files
  }

  function FlatRun(e: nat, s: Fs, steps: seq<FsStep>, files: Files): Files
    requires e > 0
    decreases |steps|
  {
    if steps == [] then files
    else FlatRun(e, FsNext(e, s, steps[0]), steps[1..], FlatStep(e, s, steps[0], files))
  }

  // i_size as the next operation will see it.
  function SizeOf(s: Fs, ino: nat): nat {
    if ino in s.mem then s.mem[ino].size
    else if HasRecord(s, ino) then RecordOf(s, ino).size
    else 0
  }
}
