/**
 The metadata machine: concurrent creates and unlinks, their transactions and key locks, failed commits,
 rollbacks and remounts.

 A thread's call is a series of steps, interleaved with other threads' steps in any way.  A transaction
 locks a key when it first touches it and keeps the lock until it commits or rolls back; commit is
 atomic.  `seed` is the in-memory inode_seed, which runs ahead of the committed one.  A remount keeps the
 committed store and drops everything in memory.
 */
module Metadata {
  import opened Bytes
  import opened MetaKeys

  // The fields of ViveInode that these operations use.
  datatype Inode = Inode(ino: nat, size: nat, links: int, atime: int, mtime: int)

  const VIVEFS_MAGIC_STR: string := "vivefs_0"
  const VIVEFS_VER: nat := 0x0001_0000
  const VN_FIRST_USER_INO: nat := 12

  datatype MetaVal = Super(magic: string, version: nat) | Seed(seed: nat) | Ino(ino: nat) | Rec(inode: Inode)

  datatype MetaOp = MetaPut(key: Key, val: MetaVal) | MetaDel(key: Key)

  type Tid = nat

  // How far vn_create_file has come.
  datatype Pc = Begun | Locked | NameStaged | RecordStaged | SeedStaged

  datatype Txn =
    | Create(parent: int, name: seq<byte>, inode: Inode, pc: Pc, checked: bool, batch: seq<MetaOp>)
    | Unlink(parent: int, name: seq<byte>, inode: Inode, batch: seq<MetaOp>)

  datatype State = State(
    sk: Key,                    // INODE_SEED_KEY
    meta: map<Key, MetaVal>,    // committed meta_cf
    seed: nat,                  // ctx->inode_seed
    txns: map<Tid, Txn>,
    locks: map<Key, Tid>)

  datatype Step =
    | Begin(t: Tid, parent: int, name: seq<byte>, now: int)   // generate_inode_no and BeginTransaction
    | GetForUpdate(t: Tid)                                     // found: -EEXIST; not found: lock and go on
    | LockError(t: Tid)                                        // GetForUpdate failed; the code goes on
    | StageName(t: Tid)
    | StageRecord(t: Tid)
    | StageSeed(t: Tid)
    | BeginUnlink(t: Tid, parent: int, name: seq<byte>)        // vn_lookup_inode_no and BeginTransaction
    | StageUnlink(t: Tid)
    | Commit(t: Tid)
    | Abort(t: Tid)                                            // any error path, failed commits included, and
                                                               // an unlink that commits without its Delete
    | Persist(inode: Inode)                                    // the data path stores an inode
    | Remount

  /* ---- Operations ---- */

  function ApplyMeta(meta: map<Key, MetaVal>, op: MetaOp): map<Key, MetaVal> {
    match op
    case MetaPut(k, v) => meta[k := v]
    case MetaDel(k) => meta - {k}
  }

  function CommitMeta(meta: map<Key, MetaVal>, batch: seq<MetaOp>): map<Key, MetaVal>
    decreases |batch|
  {
    if batch == [] then meta else CommitMeta(ApplyMeta(meta, batch[0]), batch[1..])
  }

  // vn_lookup_inode_no with a non-null inode argument.
  datatype LookupResult = NotFound | InodeLost | Found(ino: nat, inode: Inode)

  function Lookup(meta: map<Key, MetaVal>, parent: int, name: seq<byte>): LookupResult {
    var k := NameKey(parent, name);
    if k !in meta || !meta[k].Ino? then NotFound
    else
      var r := InodeKey(meta[k].ino);
      if r in meta && meta[r].Rec? then Found(meta[k].ino, meta[r].inode) else InodeLost
  }

  predicate CanLock(s: State, k: Key, t: Tid) {
    k in s.locks ==> s.locks[k] == t
  }

  function Release(locks: map<Key, Tid>, t: Tid): map<Key, Tid> {
    map k | k in locks && locks[k] != t :: locks[k]
  }

  function Stage(s: State, t: Tid, k: Key, txn: Txn): State {
    s.(txns := s.txns[t := txn], locks := s.locks[k := t])
  }

  function Drop(s: State, t: Tid): State {
    s.(txns := s.txns - {t}, locks := Release(s.locks, t))
  }

  predicate Creating(s: State, t: Tid, pc: Pc) {
    t in s.txns && s.txns[t].Create? && s.txns[t].pc == pc
  }

  predicate ReadyToCommit(txn: Txn) {
    if txn.Create? then txn.pc == SeedStaged else txn.batch != []
  }

  predicate Enabled(s: State, step: Step) {
    match step
    case Begin(t, parent, name, now) => t !in s.txns && CString(name)
    case GetForUpdate(t) =>
      Creating(s, t, Begun) && CanLock(s, NameKey(s.txns[t].parent, s.txns[t].name), t)
    case LockError(t) => Creating(s, t, Begun)
    case StageName(t) =>
      Creating(s, t, Locked) && CanLock(s, NameKey(s.txns[t].parent, s.txns[t].name), t)
    case StageRecord(t) => Creating(s, t, NameStaged) && CanLock(s, InodeKey(s.txns[t].inode.ino), t)
    case StageSeed(t) => Creating(s, t, RecordStaged) && CanLock(s, s.sk, t)
    case BeginUnlink(t, parent, name) => t !in s.txns && CString(name) && Lookup(s.meta, parent, name).Found?
    case StageUnlink(t) =>
      && t in s.txns && s.txns[t].Unlink? && s.txns[t].batch == []
      && CanLock(s, UnlinkKey(s.txns[t]), t)
    case Commit(t) => t in s.txns && ReadyToCommit(s.txns[t])
    case Abort(t) => t in s.txns
    case Persist(i) =>
      var k := InodeKey(i.ino);
      && k in s.meta && s.meta[k].Rec? && s.meta[k].inode.ino == i.ino && s.meta[k].inode.links == i.links
    case Remount => s.sk in s.meta && s.meta[s.sk].Seed?
  }

  // The last link goes away: the name is deleted.  Otherwise the record is stored with one link less.
  function UnlinkKey(u: Txn): Key
    requires u.Unlink?
  {
    if u.inode.links - 1 == 0 then NameKey(u.parent, u.name) else InodeKey(u.inode.ino)
  }

  function UnlinkOp(u: Txn): MetaOp
    requires u.Unlink?
  {
    if u.inode.links - 1 == 0 then MetaDel(UnlinkKey(u))
    else MetaPut(UnlinkKey(u), Rec(u.inode.(links := u.inode.links - 1)))
  }

  function NewInode(ino: nat, now: int): Inode {
    Inode(ino, 0, 1, now, now)
  }

  function Next(s: State, step: Step): State {
    if !Enabled(s, step) then s
    else match step
      case Begin(t, parent, name, now) =>
        s.(seed := s.seed + 1, txns := s.txns[t := Create(parent, name, NewInode(s.seed, now), Begun, false, [])])
      case GetForUpdate(t) =>
        var c := s.txns[t];
        var k := NameKey(c.parent, c.name);
        if k in s.meta then Drop(s, t) else Stage(s, t, k, c.(pc := Locked, checked := true))
      case LockError(t) => s.(txns := s.txns[t := s.txns[t].(pc := Locked)])
      case StageName(t) =>
        var c := s.txns[t];
        var k := NameKey(c.parent, c.name);
        Stage(s, t, k, c.(pc := NameStaged, batch := c.batch + [MetaPut(k, Ino(c.inode.ino))]))
      case StageRecord(t) =>
        var c := s.txns[t];
        var k := InodeKey(c.inode.ino);
        Stage(s, t, k, c.(pc := RecordStaged, batch := c.batch + [MetaPut(k, Rec(c.inode))]))
      case StageSeed(t) =>
        var c := s.txns[t];
        Stage(s, t, s.sk, c.(pc := SeedStaged, batch := c.batch + [MetaPut(s.sk, Seed(s.seed))]))
      case BeginUnlink(t, parent, name) =>
        s.(txns := s.txns[t := Unlink(parent, name, Lookup(s.meta, parent, name).inode, [])])
      case StageUnlink(t) =>
        var u := s.txns[t];
        Stage(s, t, UnlinkKey(u), Unlink(u.parent, u.name, u.inode, [UnlinkOp(u)]))
      case Commit(t) => Drop(s, t).(meta := CommitMeta(s.meta, s.txns[t].batch))
      case Abort(t) => Drop(s, t)
      case Persist(i) => s.(meta := s.meta[InodeKey(i.ino) := Rec(i)])
      case Remount => s.(seed := s.meta[s.sk].seed, txns := map[], locks := map[])
  }

  function Run(s: State, steps: seq<Step>): State
    decreases |steps|
  {
    if steps == [] then s else Run(Next(s, steps[0]), steps[1..])
  }

  // vn_mkfs_vivefs followed by a mount: superblock and seed, committed in one transaction.
  function Fresh(sk: Key, firstIno: nat): State {
    State(sk, map[SUPERBLOCK_KEY := Super(VIVEFS_MAGIC_STR, VIVEFS_VER)][sk := Seed(firstIno)], firstIno, map[], map[])
  }

  /* ---- Invariant ---- */

  ghost predicate SeedStored(sk: Key, meta: map<Key, MetaVal>) {
    SeedKey(sk) && sk in meta && meta[sk].Seed?
  }

  predicate SuperblockStored(meta: map<Key, MetaVal>) {
    SUPERBLOCK_KEY in meta && meta[SUPERBLOCK_KEY] == Super(VIVEFS_MAGIC_STR, VIVEFS_VER)
  }

  function CommittedSeed(s: State): nat
    requires s.sk in s.meta && s.meta[s.sk].Seed?
  {
    s.meta[s.sk].seed
  }

  ghost predicate IsNameKey(k: Key) {
    var (parent, name) := ParseKey(k);
    CString(name) && k == NameKey(parent, name)
  }

  // Each value sits under a key of its own kind; names lead to records; numbers stay below the seed.
  ghost predicate EntryOk(sk: Key, meta: map<Key, MetaVal>, k: Key)
    requires SeedStored(sk, meta) && k in meta
  {
    match meta[k]
    case Super(_, _) => k == SUPERBLOCK_KEY
    case Seed(_) => k == sk
    case Rec(i) => k == InodeKey(i.ino) && i.ino < meta[sk].seed && i.links == 1
    case Ino(n) => IsNameKey(k) && n < meta[sk].seed && InodeKey(n) in meta && meta[InodeKey(n)].Rec?
  }

  ghost predicate NamesInjective(meta: map<Key, MetaVal>) {
    forall k, k' :: k in meta && k' in meta && meta[k].Ino? && meta[k'] == meta[k] ==> k == k'
  }

  ghost predicate StoreOk(sk: Key, meta: map<Key, MetaVal>) {
    && SeedStored(sk, meta) && SuperblockStored(meta)
    && (forall k :: k in meta ==> EntryOk(sk, meta, k))
    && NamesInjective(meta)
  }

  // The seed value a create has staged; 0 before it staged one.
  function StagedSeed(c: Txn): nat
    requires c.Create?
  {
    if |c.batch| == 3 && c.batch[2].MetaPut? && c.batch[2].val.Seed? then c.batch[2].val.seed else 0
  }

  ghost predicate CreateOk(s: State, t: Tid, c: Txn)
    requires SeedStored(s.sk, s.meta) && c.Create?
  {
    var k, i := NameKey(c.parent, c.name), c.inode.ino;
    var named, recorded := MetaPut(k, Ino(i)), MetaPut(InodeKey(i), Rec(c.inode));
    && CString(c.name) && c.inode.links == 1 && c.inode.size == 0
    && i < s.seed && InodeKey(i) !in s.meta
    && (c.checked ==> k !in s.meta)
    && ((c.checked || c.pc in {NameStaged, RecordStaged, SeedStaged}) ==> Holds(s, k, t))
    && match c.pc
       case Begun => c.batch == [] && !c.checked
       case Locked => c.batch == []
       case NameStaged => c.batch == [named]
       case RecordStaged => c.batch == [named, recorded]
       case SeedStaged =>
         && Holds(s, s.sk, t)
         && c.batch == [named, recorded, MetaPut(s.sk, Seed(StagedSeed(c)))]
         && i < StagedSeed(c) <= s.seed && CommittedSeed(s) <= StagedSeed(c)
  }

  ghost predicate Holds(s: State, k: Key, t: Tid) {
    k in s.locks && s.locks[k] == t
  }

  ghost predicate UnlinkOk(s: State, t: Tid, u: Txn)
    requires u.Unlink?
  {
    && CString(u.name) && u.inode.links == 1
    && (u.batch == [] || (u.batch == [MetaDel(NameKey(u.parent, u.name))] && Holds(s, NameKey(u.parent, u.name), t)))
  }

  ghost predicate TxnOk(s: State, t: Tid)
    requires SeedStored(s.sk, s.meta) && t in s.txns
  {
    if s.txns[t].Create? then CreateOk(s, t, s.txns[t]) else UnlinkOk(s, t, s.txns[t])
  }

  ghost predicate FreshNumbers(s: State) {
    forall t, t' :: t in s.txns && t' in s.txns && t != t' && s.txns[t].Create? && s.txns[t'].Create?
      ==> s.txns[t].inode.ino != s.txns[t'].inode.ino
  }

  ghost predicate Inv(s: State) {
    && StoreOk(s.sk, s.meta)
    && CommittedSeed(s) <= s.seed <= TWO56
    && (forall t :: t in s.txns ==> TxnOk(s, t))
    && FreshNumbers(s)
  }
}
