/**
 What holds over every run of the metadata machine, whatever the interleaving of creates, unlinks,
 rollbacks, failed commits and remounts.
 */
module MetadataRuns {
  import opened Bytes
  import opened MetaKeys
  import opened Metadata
  import opened MetadataInv

  lemma {:induction false} RunInv(s: State, steps: seq<Step>)
    requires Inv(s) && s.seed + |steps| <= TWO56
    ensures Inv(Run(s, steps)) && Run(s, steps).seed <= s.seed + |steps| && Run(s, steps).sk == s.sk
    decreases |steps|
  {
    if steps != [] {
      StepInv(s, steps[0]);
      RunInv(Next(s, steps[0]), steps[1..]);
    }
  }

  lemma {:induction false} RunConcat(s: State, a: seq<Step>, b: seq<Step>)
    ensures Run(s, a + b) == Run(Run(s, a), b)
    decreases |a|
  {
    if a == [] {
      assert a + b == b;
    } else {
      assert (a + b)[1..] == a[1..] + b;
      RunConcat(Next(s, a[0]), a[1..], b);
    }
  }

  // The state before step i of a run.
  function Before(s: State, steps: seq<Step>, i: nat): State
    requires i <= |steps|
  {
    Run(s, steps[..i])
  }

  lemma NothingBefore(s: State, steps: seq<Step>)
    ensures Before(s, steps, 0) == s
  {
    assert steps[..0] == [];
  }

  lemma BeforeNext(s: State, steps: seq<Step>, i: nat)
    requires i < |steps|
    ensures Before(s, steps, i + 1) == Next(Before(s, steps, i), steps[i])
  {
    assert steps[..i + 1] == steps[..i] + [steps[i]];
    RunConcat(s, steps[..i], [steps[i]]);
    assert [steps[i]][1..] == [];
  }

  lemma BeforeInv(s: State, steps: seq<Step>, i: nat)
    requires Inv(s) && s.seed + |steps| <= TWO56 && i <= |steps|
    ensures Inv(Before(s, steps, i)) && Before(s, steps, i).seed + (|steps| - i) <= TWO56
  {
    RunInv(s, steps[..i]);
  }

  // After every run the file system can be mounted again.
  lemma RunIsMountable(sk: Key, firstIno: nat, steps: seq<Step>)
    requires SeedKey(sk) && firstIno + |steps| <= TWO56
    ensures var s := Run(Fresh(sk, firstIno), steps); SeedStored(sk, s.meta) && SuperblockStored(s.meta)
  {
    FreshInv(sk, firstIno);
    RunInv(Fresh(sk, firstIno), steps);
  }

  /* ---- The seed ---- */

  lemma StepSeed(s: State, step: Step)
    requires Inv(s) && s.seed < TWO56
    ensures Inv(Next(s, step)) && CommittedSeed(s) <= CommittedSeed(Next(s, step))
  {
    StepInv(s, step);
    if Enabled(s, step) && step.Commit? {
      if s.txns[step.t].Create? {
        CreateBatch(s, step.t);
        assert TxnOk(s, step.t);
      } else {
        CommitUnlinkInv(s, step.t);
      }
    }
    if Enabled(s, step) && step.Persist? {
      assert EntryOk(s.sk, s.meta, InodeKey(step.inode.ino));
    }
  }

  // The committed seed never decreases, across failed creates and remounts alike.
  lemma {:induction false} SeedNeverDecreases(s: State, steps: seq<Step>)
    requires Inv(s) && s.seed + |steps| <= TWO56
    ensures Inv(Run(s, steps)) && CommittedSeed(s) <= CommittedSeed(Run(s, steps))
    decreases |steps|
  {
    if steps != [] {
      StepInv(s, steps[0]);
      StepSeed(s, steps[0]);
      SeedNeverDecreases(Next(s, steps[0]), steps[1..]);
    }
  }

  /**
   After any run from a fresh file system: a bound name leads to a record with the number it is bound to
   (the "inode lost" branches cannot be taken), the committed seed exceeds that number, and no other name
   is bound to it.
   */
  // All numbers, stored, bound, handed out or still to come, are at least first.
  ghost predicate NumbersFrom(s: State, first: nat) {
    && s.sk in s.meta && s.meta[s.sk].Seed? && s.meta[s.sk].seed >= first && s.seed >= first
    && (forall k :: k in s.meta ==> (s.meta[k].Ino? ==> s.meta[k].ino >= first)
                                    && (s.meta[k].Rec? ==> s.meta[k].inode.ino >= first))
    && forall t :: t in s.txns && s.txns[t].Create? ==> s.txns[t].inode.ino >= first
  }

  lemma StepNumbersFrom(s: State, step: Step, first: nat)
    requires Inv(s) && s.seed < TWO56 && NumbersFrom(s, first)
    ensures NumbersFrom(Next(s, step), first)
  {
    hide NumbersFrom, NameKey, InodeKey, CString, Inv, Next;
    if Enabled(s, step) && step.Commit? {
      if s.txns[step.t].Create? {
        CreateNumbersFrom(s, step.t, first);
      } else {
        UnlinkNumbersFrom(s, step.t, first);
      }
    } else {
      OtherNumbersFrom(s, step, first);
    }
  }

  lemma CreateNumbersFrom(s: State, t: Tid, first: nat)
    requires Inv(s) && NumbersFrom(s, first) && Enabled(s, Commit(t)) && s.txns[t].Create?
    ensures NumbersFrom(Next(s, Commit(t)), first)
  {
    hide NameKey, InodeKey, CString;
    var c := s.txns[t];
    assert TxnOk(s, t) && c.inode.ino >= first;
    CreateBatch(s, t);
    InodeKeyApart(s, c.inode.ino, c.parent, c.name);
  }

  lemma UnlinkNumbersFrom(s: State, t: Tid, first: nat)
    requires Inv(s) && NumbersFrom(s, first) && Enabled(s, Commit(t)) && s.txns[t].Unlink?
    ensures NumbersFrom(Next(s, Commit(t)), first)
  {
    hide NameKey, InodeKey, CString;
    assert TxnOk(s, t);
    CommitUnlinkInv(s, t);
  }

  lemma OtherNumbersFrom(s: State, step: Step, first: nat)
    requires Inv(s) && NumbersFrom(s, first) && (Enabled(s, step) ==> !step.Commit?)
    ensures NumbersFrom(Next(s, step), first)
  {
    hide NameKey, CString, Inv, CanLock;
    if Enabled(s, step) && step.Persist? {
      assert s.meta[InodeKey(step.inode.ino)].inode.ino >= first;
      assert InodeKey(step.inode.ino) != s.sk;
    }
  }

  /**
   After every run from the store mkfs makes, remounts and failures included, no number below the first one is
   stored, bound, in use by an open create or still to be handed out.
   */
  lemma {:induction false} RunNumbersFrom(s: State, steps: seq<Step>, first: nat)
    requires Inv(s) && s.seed + |steps| <= TWO56 && NumbersFrom(s, first)
    ensures NumbersFrom(Run(s, steps), first)
    decreases |steps|
  {
    hide NumbersFrom, Inv, Next;
    if steps != [] {
      StepInv(s, steps[0]);
      StepNumbersFrom(s, steps[0], first);
      RunNumbersFrom(Next(s, steps[0]), steps[1..], first);
    }
  }

  lemma NumbersStartAtFirst(sk: Key, firstIno: nat, steps: seq<Step>)
    requires SeedKey(sk) && firstIno + |steps| <= TWO56
    ensures NumbersFrom(Run(Fresh(sk, firstIno), steps), firstIno)
  {
    hide Run, Inv, NumbersFrom;
    FreshInv(sk, firstIno);
    FreshNumbersFrom(sk, firstIno);
    RunNumbersFrom(Fresh(sk, firstIno), steps, firstIno);
  }

  lemma FreshNumbersFrom(sk: Key, firstIno: nat)
    requires SeedKey(sk)
    ensures NumbersFrom(Fresh(sk, firstIno), firstIno)
    ensures Fresh(sk, firstIno).seed == firstIno && Fresh(sk, firstIno).meta[sk] == Seed(firstIno)
  {}

  /** A remount after any run keeps the store, reloads the committed seed and leaves no transaction and no lock. */
  lemma RemountReloads(s: State, steps: seq<Step>)
    requires Inv(s) && s.seed + |steps| <= TWO56
    ensures var m, s' := Run(s, steps), Run(s, steps + [Remount]);
            && s'.meta == m.meta && s'.sk == s.sk && s.sk in m.meta && m.meta[s.sk] == Seed(s'.seed)
            && s'.txns == map[] && s'.locks == map[]
  {
    hide Run, Next;
    RunInv(s, steps);
    RunConcat(s, steps, [Remount]);
    var m := Run(s, steps);
    BeforeNext(m, [Remount], 0);
    NothingBefore(m, [Remount]);
    assert [Remount][..1] == [Remount];
    RemountEffect(m);
  }

  lemma RemountEffect(s: State)
    requires Inv(s)
    ensures var s' := Next(s, Remount);
            && s'.meta == s.meta && s'.sk == s.sk && s.sk in s.meta && s.meta[s.sk] == Seed(s'.seed)
            && s'.txns == map[] && s'.locks == map[]
  {}

  lemma NamesLeadToTheirOwnInode(sk: Key, firstIno: nat, steps: seq<Step>,
                                 p: int, n: seq<byte>, p': int, n': seq<byte>)
    requires SeedKey(sk) && firstIno + |steps| <= TWO56 && CString(n) && CString(n')
    ensures var s := Run(Fresh(sk, firstIno), steps);
            var r, r' := Lookup(s.meta, p, n), Lookup(s.meta, p', n');
            && (r.NotFound? <==> NameKey(p, n) !in s.meta)
            && !r.InodeLost?
            && (r.Found? ==> r.inode.ino == r.ino && sk in s.meta && s.meta[sk].Seed? && r.ino < s.meta[sk].seed)
            && (r.Found? ==> InodeKey(r.ino) in s.meta && s.meta[InodeKey(r.ino)] == Rec(r.inode))
            && (r.Found? && r'.Found? && r.ino == r'.ino ==> p == p' && n == n')
  {
    FreshInv(sk, firstIno);
    RunInv(Fresh(sk, firstIno), steps);
    var s := Run(Fresh(sk, firstIno), steps);
    LookupInInv(s, p, n);
    LookupInInv(s, p', n');
    if Lookup(s.meta, p, n).Found? && Lookup(s.meta, p', n').Found? && NameKey(p, n) == NameKey(p', n') {
      NameKeyInjective(p, n, p', n');
    }
  }

  lemma LookupInInv(s: State, p: int, n: seq<byte>)
    requires Inv(s) && CString(n)
    ensures var r := Lookup(s.meta, p, n);
            && (r.NotFound? <==> NameKey(p, n) !in s.meta)
            && !r.InodeLost?
            && (r.Found? ==> r.inode.ino == r.ino && r.ino < CommittedSeed(s) && r.inode.links == 1)
            && (r.Found? ==> s.meta[NameKey(p, n)] == Ino(r.ino))
            && (r.Found? ==> InodeKey(r.ino) in s.meta && s.meta[InodeKey(r.ino)] == Rec(r.inode))
  {
    var k := NameKey(p, n);
    if k in s.meta {
      NameEntry(s, p, n);
      assert EntryOk(s.sk, s.meta, k);
      RecordEntry(s, s.meta[k].ino);
    }
  }

  /* ---- Numbers are never reused ---- */

  lemma StepKeepsRecords(s: State, step: Step, i: nat)
    requires Inv(s) && s.seed < TWO56 && i < TWO56 && InodeKey(i) in s.meta
    ensures InodeKey(i) in Next(s, step).meta
  {
    if Enabled(s, step) && step.Commit? {
      if s.txns[step.t].Create? {
        CreateBatch(s, step.t);
      } else {
        CommitUnlinkInv(s, step.t);
        assert TxnOk(s, step.t);
        NameKeyIsCString(s.txns[step.t].parent, s.txns[step.t].name);
        InodeKeyIsNoCString(i, NameKey(s.txns[step.t].parent, s.txns[step.t].name));
      }
    }
  }

  predicate CommitsCreate(s: State, step: Step) {
    step.Commit? && Enabled(s, step) && s.txns[step.t].Create?
  }

  lemma {:induction false} RecordStays(s: State, steps: seq<Step>, i: nat, j: nat, ino: nat)
    requires Inv(s) && s.seed + |steps| <= TWO56 && i <= j <= |steps| && ino < TWO56
    requires InodeKey(ino) in Before(s, steps, i).meta
    ensures InodeKey(ino) in Before(s, steps, j).meta
    decreases j - i
  {
    if i < j {
      BeforeInv(s, steps, i);
      StepKeepsRecords(Before(s, steps, i), steps[i], ino);
      BeforeNext(s, steps, i);
      RecordStays(s, steps, i + 1, j, ino);
    }
  }

  // Two creates that commit in the same run never get the same number, even after unlinks and remounts.
  lemma NumbersAreNeverReused(s: State, steps: seq<Step>, i: nat, j: nat)
    requires Inv(s) && s.seed + |steps| <= TWO56 && i < j < |steps|
    requires CommitsCreate(Before(s, steps, i), steps[i]) && CommitsCreate(Before(s, steps, j), steps[j])
    ensures Before(s, steps, i).txns[steps[i].t].inode.ino != Before(s, steps, j).txns[steps[j].t].inode.ino
  {
    var a, b := Before(s, steps, i), Before(s, steps, j);
    var ino := a.txns[steps[i].t].inode.ino;
    BeforeInv(s, steps, i);
    BeforeInv(s, steps, j);
    assert TxnOk(a, steps[i].t) && TxnOk(b, steps[j].t);
    CreateBatch(a, steps[i].t);
    BeforeNext(s, steps, i);
    RecordStays(s, steps, i + 1, j, ino);
  }

  /* ---- Creates, unlinks and lookups are those of a plain directory map ---- */

  type Directory = map<(int, seq<byte>), nat>

  ghost predicate Refines(s: State, dir: Directory) {
    && (forall k :: k in dir ==> CString(k.1))
    && forall p: int, n: seq<byte> :: CString(n) ==>
         ((p, n) in dir <==> NameKey(p, n) in s.meta)
         && ((p, n) in dir ==> s.meta[NameKey(p, n)] == Ino(dir[(p, n)]))
  }

  // Only commits change the directory: a create binds its name, an unlink removes it.
  function DirStep(s: State, step: Step, dir: Directory): Directory {
    if step.Commit? && Enabled(s, step) then
      var txn := s.txns[step.t];
      if txn.Create? then dir[(txn.parent, txn.name) := txn.inode.ino] else dir - {(txn.parent, txn.name)}
    else dir
  }

  function DirRun(s: State, steps: seq<Step>, dir: Directory): Directory
    decreases |steps|
  {
    if steps == [] then dir else DirRun(Next(s, steps[0]), steps[1..], DirStep(s, steps[0], dir))
  }

  lemma StepRefines(s: State, step: Step, dir: Directory)
    requires Inv(s) && s.seed < TWO56 && Refines(s, dir)
    ensures Refines(Next(s, step), DirStep(s, step, dir))
  {
    if Enabled(s, step) {
      match step
      case Commit(t) =>
        assert TxnOk(s, t);
        if s.txns[t].Create? {
          CreateRefines(s, t, dir);
        } else {
          UnlinkRefines(s, t, dir);
        }
      case Persist(i) =>
        assert EntryOk(s.sk, s.meta, InodeKey(i.ino));
        forall p: int, n: seq<byte> | CString(n) ensures InodeKey(i.ino) != NameKey(p, n) {
          InodeKeyApart(s, i.ino, p, n);
        }
      case _ =>
        assert Next(s, step).meta == s.meta;
    }
  }

  lemma CreateRefines(s: State, t: Tid, dir: Directory)
    requires Inv(s) && Refines(s, dir) && Enabled(s, Commit(t)) && s.txns[t].Create?
    ensures Refines(Next(s, Commit(t)), DirStep(s, Commit(t), dir))
  {
    var s', dir' := Next(s, Commit(t)), DirStep(s, Commit(t), dir);
    var c := s.txns[t];
    assert TxnOk(s, t);
    CreateBatch(s, t);
    forall p: int, n: seq<byte> | CString(n)
      ensures ((p, n) in dir' <==> NameKey(p, n) in s'.meta)
      ensures (p, n) in dir' ==> s'.meta[NameKey(p, n)] == Ino(dir'[(p, n)])
    {
      InodeKeyApart(s, c.inode.ino, p, n);
      if NameKey(p, n) == NameKey(c.parent, c.name) {
        NameKeyInjective(p, n, c.parent, c.name);
      }
    }
  }

  lemma UnlinkRefines(s: State, t: Tid, dir: Directory)
    requires Inv(s) && Refines(s, dir) && Enabled(s, Commit(t)) && s.txns[t].Unlink?
    ensures Refines(Next(s, Commit(t)), DirStep(s, Commit(t), dir))
  {
    var s', dir' := Next(s, Commit(t)), DirStep(s, Commit(t), dir);
    var u := s.txns[t];
    CommitUnlinkInv(s, t);
    forall p: int, n: seq<byte> | CString(n)
      ensures ((p, n) in dir' <==> NameKey(p, n) in s'.meta)
      ensures (p, n) in dir' ==> s'.meta[NameKey(p, n)] == Ino(dir'[(p, n)])
    {
      if NameKey(p, n) == NameKey(u.parent, u.name) {
        NameKeyInjective(p, n, u.parent, u.name);
      }
    }
  }

  lemma {:induction false} RunRefines(s: State, steps: seq<Step>, dir: Directory)
    requires Inv(s) && s.seed + |steps| <= TWO56 && Refines(s, dir)
    ensures Refines(Run(s, steps), DirRun(s, steps, dir))
    decreases |steps|
  {
    if steps != [] {
      StepInv(s, steps[0]);
      StepRefines(s, steps[0], dir);
      RunRefines(Next(s, steps[0]), steps[1..], DirStep(s, steps[0], dir));
    }
  }

  lemma FreshRefines(sk: Key, firstIno: nat)
    requires SeedKey(sk)
    ensures Refines(Fresh(sk, firstIno), map[])
  {
    forall p: int, n: seq<byte> | CString(n) ensures NameKey(p, n) !in Fresh(sk, firstIno).meta {
      FixedKeysAreNoNames(sk, p, n);
      FixedKeysAreNoNames(SUPERBLOCK_KEY, p, n);
    }
  }

  /**
   After any run, looking a name up gives what the directory map gives that the committed creates and
   unlinks build, in commit order.
   */
  lemma LookupIsDirectoryLookup(sk: Key, firstIno: nat, steps: seq<Step>, p: int, n: seq<byte>)
    requires SeedKey(sk) && firstIno + |steps| <= TWO56 && CString(n)
    ensures var dir := DirRun(Fresh(sk, firstIno), steps, map[]);
            var r := Lookup(Run(Fresh(sk, firstIno), steps).meta, p, n);
            if (p, n) in dir then r.Found? && r.ino == dir[(p, n)] else r == NotFound
  {
    FreshInv(sk, firstIno);
    FreshRefines(sk, firstIno);
    RunInv(Fresh(sk, firstIno), steps);
    RunRefines(Fresh(sk, firstIno), steps, map[]);
    LookupInInv(Run(Fresh(sk, firstIno), steps), p, n);
  }

  /* ---- No create overwrites a binding ---- */

  // Every create past the lock checked its name: true as long as GetForUpdate reports no other error.
  ghost predicate AllChecked(s: State) {
    forall t :: t in s.txns && s.txns[t].Create? && s.txns[t].pc != Begun ==> s.txns[t].checked
  }

  ghost predicate NoLockErrors(steps: seq<Step>) {
    forall i :: 0 <= i < |steps| ==> !steps[i].LockError?
  }

  lemma StepAllChecked(s: State, step: Step)
    requires AllChecked(s) && !step.LockError?
    ensures AllChecked(Next(s, step))
  {
    var s' := Next(s, step);
    forall t | t in s'.txns && s'.txns[t].Create? && s'.txns[t].pc != Begun ensures s'.txns[t].checked {
      assert t in s.txns;
    }
  }

  lemma {:induction false} RunAllChecked(s: State, steps: seq<Step>)
    requires AllChecked(s) && NoLockErrors(steps)
    ensures AllChecked(Run(s, steps))
    decreases |steps|
  {
    if steps != [] {
      StepAllChecked(s, steps[0]);
      RunAllChecked(Next(s, steps[0]), steps[1..]);
    }
  }

  predicate Commits(s: State, step: Step, create: bool, p: int, n: seq<byte>) {
    && step.Commit? && Enabled(s, step) && s.txns[step.t].Create? == create
    && s.txns[step.t].parent == p && s.txns[step.t].name == n
  }

  // If GetForUpdate reports only found and not found, every committing create has checked its name.
  lemma CreatesAreChecked(s: State, steps: seq<Step>, i: nat)
    requires Inv(s) && s.seed + |steps| <= TWO56 && AllChecked(s) && NoLockErrors(steps) && i < |steps|
    requires CommitsCreate(Before(s, steps, i), steps[i])
    ensures Before(s, steps, i).txns[steps[i].t].checked
  {
    BeforeInv(s, steps, i);
    RunAllChecked(s, steps[..i]);
    assert TxnOk(Before(s, steps, i), steps[i].t);
  }

  // A create that checked its name never replaces a binding, whatever the other transactions did.
  lemma CreateFindsNoBinding(s: State, steps: seq<Step>, i: nat, p: int, n: seq<byte>)
    requires Inv(s) && s.seed + |steps| <= TWO56 && i < |steps|
    requires Commits(Before(s, steps, i), steps[i], true, p, n) && Before(s, steps, i).txns[steps[i].t].checked
    ensures NameKey(p, n) !in Before(s, steps, i).meta
  {
    BeforeInv(s, steps, i);
    assert TxnOk(Before(s, steps, i), steps[i].t);
  }

  lemma StepKeepsName(s: State, step: Step, p: int, n: seq<byte>)
    requires Inv(s) && CString(n) && NameKey(p, n) in s.meta
    requires !Commits(s, step, false, p, n)
    ensures NameKey(p, n) in Next(s, step).meta
  {
    if Enabled(s, step) && step.Commit? {
      var txn := s.txns[step.t];
      if txn.Create? {
        CreateBatch(s, step.t);
      } else {
        CommitUnlinkInv(s, step.t);
        if NameKey(p, n) == NameKey(txn.parent, txn.name) {
          NameKeyInjective(p, n, txn.parent, txn.name);
        }
      }
    }
  }

  lemma {:induction false} NameStays(s: State, steps: seq<Step>, i: nat, j: nat, p: int, n: seq<byte>)
    requires Inv(s) && s.seed + |steps| <= TWO56 && i <= j <= |steps| && CString(n)
    requires NameKey(p, n) in Before(s, steps, i).meta
    requires forall m :: i <= m < j ==> !Commits(Before(s, steps, m), steps[m], false, p, n)
    ensures NameKey(p, n) in Before(s, steps, j).meta
    decreases j - i
  {
    if i < j {
      BeforeInv(s, steps, i);
      StepKeepsName(Before(s, steps, i), steps[i], p, n);
      BeforeNext(s, steps, i);
      NameStays(s, steps, i + 1, j, p, n);
    }
  }

  /**
   In every run, lock errors in other calls included: between two committed creates of one name, the later
   of which got its lock, an unlink of that name commits.
   */
  lemma CreatesOfANameAreSeparated(s: State, steps: seq<Step>, i: nat, j: nat, p: int, n: seq<byte>)
    requires Inv(s) && s.seed + |steps| <= TWO56 && i < j < |steps|
    requires Commits(Before(s, steps, i), steps[i], true, p, n)
    requires Commits(Before(s, steps, j), steps[j], true, p, n) && Before(s, steps, j).txns[steps[j].t].checked
    ensures exists m :: i < m < j && Commits(Before(s, steps, m), steps[m], false, p, n)
  {
    if forall m :: i < m < j ==> !Commits(Before(s, steps, m), steps[m], false, p, n) {
      var a := Before(s, steps, i);
      BeforeInv(s, steps, i);
      assert TxnOk(a, steps[i].t);
      CreateBatch(a, steps[i].t);
      BeforeNext(s, steps, i);
      NameStays(s, steps, i + 1, j, p, n);
      CreateFindsNoBinding(s, steps, j, p, n);
    }
  }
}
