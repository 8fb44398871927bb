/** Every step of the metadata machine keeps its invariant; what follows for whole runs. */
module MetadataInv {
  import opened Bytes
  import opened MetaKeys
  import opened Metadata

  /* ---- Which kind of value sits under which key ---- */

  lemma NameEntry(s: State, parent: int, name: seq<byte>)
    requires Inv(s) && CString(name) && NameKey(parent, name) in s.meta
    ensures s.meta[NameKey(parent, name)].Ino?
  {
    var k := NameKey(parent, name);
    assert EntryOk(s.sk, s.meta, k);
    FixedKeysAreNoNames(SUPERBLOCK_KEY, parent, name);
    FixedKeysAreNoNames(s.sk, parent, name);
    NameKeyIsCString(parent, name);
    if s.meta[k].Rec? {
      InodeKeyIsNoCString(s.meta[k].inode.ino, k);
    }
  }

  lemma RecordEntry(s: State, i: nat)
    requires Inv(s) && i < TWO56 && InodeKey(i) in s.meta
    ensures s.meta[InodeKey(i)].Rec? && s.meta[InodeKey(i)].inode.ino == i
    ensures i < CommittedSeed(s) && s.meta[InodeKey(i)].inode.links == 1
  {
    var k := InodeKey(i);
    assert EntryOk(s.sk, s.meta, k);
    InodeKeyIsNoCString(i, SUPERBLOCK_KEY);
    InodeKeyIsNoCString(i, s.sk);
    match s.meta[k]
    case Rec(j) => InodeKeyInjective(j.ino, i);
    case Ino(_) =>
      var (parent, name) := ParseKey(k);
      NameKeyIsCString(parent, name);
      InodeKeyIsNoCString(i, k);
    case Super(_, _) =>
    case Seed(_) =>
  }

  // A raw inode key is neither a name key nor a fixed key.
  lemma InodeKeyApart(s: State, i: nat, parent: int, name: seq<byte>)
    requires SeedStored(s.sk, s.meta) && i < TWO56 && CString(name)
    ensures InodeKey(i) != NameKey(parent, name) && InodeKey(i) != s.sk && NameKey(parent, name) != s.sk
    ensures InodeKey(i) != SUPERBLOCK_KEY && NameKey(parent, name) != SUPERBLOCK_KEY
  {
    NameKeyIsCString(parent, name);
    InodeKeyIsNoCString(i, NameKey(parent, name));
    InodeKeyIsNoCString(i, s.sk);
    InodeKeyIsNoCString(i, SUPERBLOCK_KEY);
    FixedKeysAreNoNames(s.sk, parent, name);
    FixedKeysAreNoNames(SUPERBLOCK_KEY, parent, name);
  }

  lemma FreshInv(sk: Key, firstIno: nat)
    requires SeedKey(sk) && firstIno <= TWO56
    ensures Inv(Fresh(sk, firstIno))
  {}

  /* ---- Steps that leave the committed store alone ---- */

  // The next inode number has no record yet.
  lemma NextNumberIsNew(s: State)
    requires Inv(s) && s.seed < TWO56
    ensures InodeKey(s.seed) !in s.meta
  {
    if InodeKey(s.seed) in s.meta {
      RecordEntry(s, s.seed);
    }
  }

  lemma SetTxnInv(s: State, s': State, t: Tid, txn: Txn)
    requires Inv(s) && s' == s.(txns := s.txns[t := txn], seed := s'.seed)
    requires s.seed <= s'.seed <= TWO56 && TxnOk(s', t)
    requires txn.Create? ==> forall t' :: t' in s.txns && t' != t && s.txns[t'].Create?
                                          ==> s.txns[t'].inode.ino != txn.inode.ino
    ensures Inv(s')
  {
    forall t' | t' in s.txns && t' != t ensures TxnOk(s', t') {
      assert TxnOk(s, t');
    }
  }

  lemma BeginInv(s: State, step: Step)
    requires Inv(s) && step.Begin? && Enabled(s, step) && s.seed < TWO56
    ensures Inv(Next(s, step))
  {
    NextNumberIsNew(s);
    forall t | t in s.txns && s.txns[t].Create? ensures s.txns[t].inode.ino != s.seed {
      assert TxnOk(s, t);
    }
    var s' := Next(s, step);
    SetTxnInv(s, s', step.t, s'.txns[step.t]);
  }

  // Dropping a transaction releases only its own locks.
  lemma DropInv(s: State, t: Tid)
    requires Inv(s) && t in s.txns
    ensures Inv(Drop(s, t))
  {
    var s' := Drop(s, t);
    forall t' | t' in s'.txns ensures TxnOk(s', t') {
      assert TxnOk(s, t');
    }
  }

  // Staging under a free or own lock cannot take a lock away from another transaction.
  lemma StageInv(s: State, t: Tid, k: Key, txn: Txn)
    requires Inv(s) && t in s.txns && CanLock(s, k, t)
    requires txn.Create? ==> s.txns[t].Create? && s.txns[t].inode.ino == txn.inode.ino
    requires TxnOk(Stage(s, t, k, txn), t)
    ensures Inv(Stage(s, t, k, txn))
  {
    var s' := Stage(s, t, k, txn);
    forall t' | t' in s'.txns && t' != t ensures TxnOk(s', t') {
      assert TxnOk(s, t');
    }
  }

  lemma StagingStepInv(s: State, step: Step)
    requires Inv(s) && Enabled(s, step)
    requires step.GetForUpdate? || step.StageName? || step.StageRecord? || step.StageSeed? || step.StageUnlink?
    ensures Inv(Next(s, step))
  {
    var txn := s.txns[step.t];
    assert TxnOk(s, step.t);
    match step
    case GetForUpdate(t) =>
      var k := NameKey(txn.parent, txn.name);
      if k in s.meta {
        DropInv(s, t);
      } else {
        StageInv(s, t, k, txn.(pc := Locked, checked := true));
      }
    case StageName(t) =>
      var k := NameKey(txn.parent, txn.name);
      StageInv(s, t, k, txn.(pc := NameStaged, batch := txn.batch + [MetaPut(k, Ino(txn.inode.ino))]));
    case StageRecord(t) =>
      var k := InodeKey(txn.inode.ino);
      StageInv(s, t, k, txn.(pc := RecordStaged, batch := txn.batch + [MetaPut(k, Rec(txn.inode))]));
    case StageSeed(t) =>
      StageInv(s, t, s.sk, txn.(pc := SeedStaged, batch := txn.batch + [MetaPut(s.sk, Seed(s.seed))]));
    case StageUnlink(t) =>
      StageInv(s, t, UnlinkKey(txn), Unlink(txn.parent, txn.name, txn.inode, [UnlinkOp(txn)]));
  }

  lemma LockErrorInv(s: State, t: Tid)
    requires Inv(s) && Enabled(s, LockError(t))
    ensures Inv(Next(s, LockError(t)))
  {
    var s' := Next(s, LockError(t));
    assert TxnOk(s, t);
    SetTxnInv(s, s', t, s'.txns[t]);
  }

  lemma BeginUnlinkInv(s: State, step: Step)
    requires Inv(s) && step.BeginUnlink? && Enabled(s, step)
    ensures Inv(Next(s, step))
  {
    var k := NameKey(step.parent, step.name);
    assert EntryOk(s.sk, s.meta, k);
    assert EntryOk(s.sk, s.meta, InodeKey(s.meta[k].ino));
    var s' := Next(s, step);
    SetTxnInv(s, s', step.t, s'.txns[step.t]);
  }

  lemma RemountInv(s: State)
    requires Inv(s)
    ensures Inv(Next(s, Remount))
  {
    var s' := Next(s, Remount);
  }

  /* ---- Steps that change the committed store ---- */

  lemma PersistInv(s: State, i: Inode)
    requires Inv(s) && Enabled(s, Persist(i))
    ensures Inv(Next(s, Persist(i)))
  {
    var s' := Next(s, Persist(i));
    var r := InodeKey(i.ino);
    assert EntryOk(s.sk, s.meta, r);
    InodeKeyIsNoCString(i.ino, s.sk);
    forall k | k in s.meta ensures EntryOk(s.sk, s'.meta, k) {
      assert EntryOk(s.sk, s.meta, k);
    }
    forall t | t in s.txns ensures TxnOk(s', t) {
      assert TxnOk(s, t);
    }
  }

  lemma CommitSingleMeta(meta: map<Key, MetaVal>, op: MetaOp)
    ensures CommitMeta(meta, [op]) == ApplyMeta(meta, op)
  {
    assert [op][1..] == [];
  }

  lemma CommitTripleMeta(meta: map<Key, MetaVal>, a: MetaOp, b: MetaOp, c: MetaOp)
    ensures CommitMeta(meta, [a, b, c]) == ApplyMeta(ApplyMeta(ApplyMeta(meta, a), b), c)
  {
    assert [a, b, c][1..] == [b, c] && [b, c][1..] == [c];
    CommitSingleMeta(ApplyMeta(ApplyMeta(meta, a), b), c);
  }

  // The store after a finished create: the name, the record and the seed, all at once.
  function Created(s: State, c: Txn): map<Key, MetaVal>
    requires c.Create?
  {
    s.meta[NameKey(c.parent, c.name) := Ino(c.inode.ino)]
          [InodeKey(c.inode.ino) := Rec(c.inode)]
          [s.sk := Seed(StagedSeed(c))]
  }

  lemma CreateBatch(s: State, t: Tid)
    requires Inv(s) && Enabled(s, Commit(t)) && s.txns[t].Create?
    ensures Next(s, Commit(t)) == Drop(s, t).(meta := Created(s, s.txns[t]))
  {
    assert TxnOk(s, t);
    var b := s.txns[t].batch;
    CommitTripleMeta(s.meta, b[0], b[1], b[2]);
  }

  lemma CommitCreateInv(s: State, t: Tid)
    requires Inv(s) && Enabled(s, Commit(t)) && s.txns[t].Create?
    ensures Inv(Next(s, Commit(t)))
  {
    CreateBatch(s, t);
    CreatedStoreOk(s, t);
    var s' := Next(s, Commit(t));
    assert TxnOk(s, t);
    forall t' | t' in s'.txns ensures TxnOk(s', t') {
      CommitCreateOthers(s, t, t');
    }
  }

  lemma CreatedStoreOk(s: State, t: Tid)
    requires Inv(s) && Enabled(s, Commit(t)) && s.txns[t].Create?
    ensures StoreOk(s.sk, Created(s, s.txns[t]))
  {
    hide NameKey, InodeKey, ParseKey, CString;
    var c := s.txns[t];
    var meta' := Created(s, c);
    var k, r := NameKey(c.parent, c.name), InodeKey(c.inode.ino);
    assert TxnOk(s, t);
    InodeKeyApart(s, c.inode.ino, c.parent, c.name);
    NameKeyRoundTrip(c.parent, c.name);
    forall k' | k' in meta' ensures EntryOk(s.sk, meta', k') {
      if k' != k && k' != r && k' != s.sk {
        OldEntryOk(s, t, k');
      }
    }
    forall k' | k' in s.meta && s.meta[k'].Ino? ensures s.meta[k'].ino != c.inode.ino {
      assert EntryOk(s.sk, s.meta, k');
    }
  }

  lemma OldEntryOk(s: State, t: Tid, k: Key)
    requires Inv(s) && Enabled(s, Commit(t)) && s.txns[t].Create?
    requires k in s.meta && k != NameKey(s.txns[t].parent, s.txns[t].name) && k != s.sk
    requires SeedStored(s.sk, Created(s, s.txns[t])) && k != InodeKey(s.txns[t].inode.ino)
    ensures EntryOk(s.sk, Created(s, s.txns[t]), k)
  {
    assert EntryOk(s.sk, s.meta, k) && TxnOk(s, t);
    if s.meta[k].Ino? {
      InodeKeyApart(s, s.meta[k].ino, s.txns[t].parent, s.txns[t].name);
    }
  }

  // A committing create leaves the other transactions' locks, names and numbers alone.
  lemma CommitCreateOthers(s: State, t: Tid, t': Tid)
    requires Inv(s) && Enabled(s, Commit(t)) && s.txns[t].Create?
    requires t' in s.txns && t' != t
    requires SeedStored(s.sk, Next(s, Commit(t)).meta)
    ensures TxnOk(Next(s, Commit(t)), t')
  {
    var c, d := s.txns[t], s.txns[t'];
    assert TxnOk(s, t) && TxnOk(s, t');
    CreateBatch(s, t);
    if d.Create? {
      InodeKeyApart(s, c.inode.ino, d.parent, d.name);
      InodeKeyApart(s, d.inode.ino, c.parent, c.name);
      InodeKeyApart(s, d.inode.ino, d.parent, d.name);
      if InodeKey(c.inode.ino) == InodeKey(d.inode.ino) {
        InodeKeyInjective(c.inode.ino, d.inode.ino);
      }
    }
  }

  lemma CommitUnlinkInv(s: State, t: Tid)
    requires Inv(s) && Enabled(s, Commit(t)) && s.txns[t].Unlink?
    ensures Inv(Next(s, Commit(t)))
    ensures Next(s, Commit(t)).meta == s.meta - {NameKey(s.txns[t].parent, s.txns[t].name)}
  {
    var s' := Next(s, Commit(t));
    var u := s.txns[t];
    var k := NameKey(u.parent, u.name);
    assert TxnOk(s, t);
    CommitSingleMeta(s.meta, MetaDel(k));
    FixedKeysAreNoNames(s.sk, u.parent, u.name);
    FixedKeysAreNoNames(SUPERBLOCK_KEY, u.parent, u.name);
    NameKeyIsCString(u.parent, u.name);
    forall k' | k' in s'.meta ensures EntryOk(s.sk, s'.meta, k') {
      assert EntryOk(s.sk, s.meta, k');
      if s.meta[k'].Ino? {
        InodeKeyIsNoCString(s.meta[k'].ino, k);
      }
    }
    forall t' | t' in s'.txns ensures TxnOk(s', t') {
      assert TxnOk(s, t');
    }
  }

  /* ---- All steps, all runs ---- */

  lemma StepInv(s: State, step: Step)
    requires Inv(s) && s.seed < TWO56
    ensures Inv(Next(s, step)) && Next(s, step).seed <= s.seed + 1 && Next(s, step).sk == s.sk
  {
    if Enabled(s, step) {
      match step
      case Begin(_, _, _, _) => BeginInv(s, step);
      case GetForUpdate(_) => StagingStepInv(s, step);
      case LockError(t) => LockErrorInv(s, t);
      case StageName(_) => StagingStepInv(s, step);
      case StageRecord(_) => StagingStepInv(s, step);
      case StageSeed(_) => StagingStepInv(s, step);
      case BeginUnlink(_, _, _) => BeginUnlinkInv(s, step);
      case StageUnlink(_) => StagingStepInv(s, step);
      case Commit(t) => if s.txns[t].Create? { CommitCreateInv(s, t); } else { CommitUnlinkInv(s, t); }
      case Abort(t) => DropInv(s, t);
      case Persist(i) => PersistInv(s, i);
      case Remount => RemountInv(s);
    }
  }
}
