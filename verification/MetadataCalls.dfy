/** One uninterrupted call at a time: what a whole vn_create_file or vn_unlink does to the store. */
module MetadataCalls {
  import opened Bytes
  import opened MetaKeys
  import opened Metadata
  import opened MetadataInv
  import opened MetadataRuns

  // The steps of one vn_create_file call; lockFails says that GetForUpdate returned an error.
  function CreateCall(t: Tid, p: int, n: seq<byte>, now: int, lockFails: bool): seq<Step> {
    [Begin(t, p, n, now), if lockFails then LockError(t) else GetForUpdate(t),
     StageName(t), StageRecord(t), StageSeed(t), Commit(t)]
  }

  function AfterCreate(s: State, p: int, n: seq<byte>, now: int): State {
    s.(seed := s.seed + 1,
       meta := s.meta[NameKey(p, n) := Ino(s.seed)][InodeKey(s.seed) := Rec(NewInode(s.seed, now))]
                     [s.sk := Seed(s.seed + 1)])
  }

  // No lock is held and number t is free; other transactions may be open.
  predicate Idle(s: State, t: Tid) {
    s.locks == map[] && t !in s.txns
  }

  // The transaction of a lone create that started in s, by how far it has come.
  function CreateTxn(s: State, p: int, n: seq<byte>, now: int, checked: bool, pc: Pc): Txn {
    var i := NewInode(s.seed, now);
    var named, recorded := MetaPut(NameKey(p, n), Ino(s.seed)), MetaPut(InodeKey(s.seed), Rec(i));
    Create(p, n, i, pc, checked,
      match pc
      case Begun => []
      case Locked => []
      case NameStaged => [named]
      case RecordStaged => [named, recorded]
      case SeedStaged => [named, recorded, MetaPut(s.sk, Seed(s.seed + 1))])
  }

  // It holds some locks, all its own.
  ghost predicate InProgress(s: State, m: State, t: Tid, txn: Txn) {
    && m == s.(seed := s.seed + 1, txns := s.txns[t := txn], locks := m.locks)
    && forall k :: k in m.locks ==> m.locks[k] == t
  }

  lemma CreateOpens(s: State, t: Tid, p: int, n: seq<byte>, now: int, lockFails: bool)
    requires Idle(s, t) && CString(n)
    requires !lockFails ==> NameKey(p, n) !in s.meta
    ensures InProgress(s, Before(s, CreateCall(t, p, n, now, lockFails), 2), t,
                       CreateTxn(s, p, n, now, !lockFails, Locked))
  {
    var steps := CreateCall(t, p, n, now, lockFails);
    assert steps[..0] == [];
    BeforeNext(s, steps, 0);
    BeforeNext(s, steps, 1);
  }

  // Each staging step of a lone create finds its lock free or its own.
  lemma CreateStages(s: State, m: State, t: Tid, p: int, n: seq<byte>, now: int, checked: bool,
                     step: Step, pc: Pc, pc': Pc)
    requires InProgress(s, m, t, CreateTxn(s, p, n, now, checked, pc))
    requires (step, pc, pc') in {(StageName(t), Locked, NameStaged), (StageRecord(t), NameStaged, RecordStaged),
                                 (StageSeed(t), RecordStaged, SeedStaged)}
    ensures InProgress(s, Next(m, step), t, CreateTxn(s, p, n, now, checked, pc'))
  {
    hide NameKey, InodeKey;
    var m' := Next(m, step);
    assert m'.txns[t] == CreateTxn(s, p, n, now, checked, pc');
    assert m'.txns == s.txns[t := m'.txns[t]];
  }

  lemma CreateCloses(s: State, m: State, t: Tid, c: Txn)
    requires Idle(s, t) && InProgress(s, m, t, c) && ReadyToCommit(c)
    ensures Next(m, Commit(t)) == s.(seed := s.seed + 1, meta := CommitMeta(s.meta, c.batch))
  {
    var m' := Next(m, Commit(t));
    assert m'.txns == s.txns;
    assert m'.locks == map[];
  }

  // How far the call has come after k of its steps.
  function PcAt(k: nat): Pc {
    match k
    case 1 => Begun
    case 2 => Locked
    case 3 => NameStaged
    case 4 => RecordStaged
    case _ => SeedStaged
  }

  lemma {:induction false} CreateProgress(s: State, t: Tid, p: int, n: seq<byte>, now: int, lockFails: bool, k: nat)
    requires Idle(s, t) && CString(n) && 1 <= k <= 5
    requires k == 1 || lockFails || NameKey(p, n) !in s.meta
    ensures InProgress(s, Before(s, CreateCall(t, p, n, now, lockFails), k), t,
                       CreateTxn(s, p, n, now, !lockFails && k > 1, PcAt(k)))
    decreases k
  {
    hide NameKey, InodeKey, CString, Run;
    var steps := CreateCall(t, p, n, now, lockFails);
    if k == 1 {
      CreateBegins(s, t, p, n, now, lockFails);
    } else if k == 2 {
      CreateOpens(s, t, p, n, now, lockFails);
    } else {
      hide Next, InProgress, CreateTxn, Before;
      CreateProgress(s, t, p, n, now, lockFails, k - 1);
      CreateStages(s, Before(s, steps, k - 1), t, p, n, now, !lockFails, steps[k - 1], PcAt(k - 1), PcAt(k));
      BeforeNext(s, steps, k - 1);
    }
  }

  lemma CreateBegins(s: State, t: Tid, p: int, n: seq<byte>, now: int, lockFails: bool)
    requires Idle(s, t) && CString(n)
    ensures InProgress(s, Before(s, CreateCall(t, p, n, now, lockFails), 1), t, CreateTxn(s, p, n, now, false, Begun))
  {
    var steps := CreateCall(t, p, n, now, lockFails);
    assert steps[..0] == [];
    BeforeNext(s, steps, 0);
  }

  lemma AbortEnds(s: State, m: State, t: Tid, txn: Txn)
    requires Idle(s, t) && InProgress(s, m, t, txn)
    ensures Next(m, Abort(t)) == s.(seed := s.seed + 1)
  {
    var m' := Next(m, Abort(t));
    assert m'.txns == s.txns && m'.locks == map[];
  }

  lemma CreateCallEffect(s: State, t: Tid, p: int, n: seq<byte>, now: int, lockFails: bool)
    requires Idle(s, t) && CString(n)
    requires !lockFails ==> NameKey(p, n) !in s.meta
    ensures Run(s, CreateCall(t, p, n, now, lockFails)) == AfterCreate(s, p, n, now)
    ensures var steps := CreateCall(t, p, n, now, lockFails);
            Before(s, steps, 5).meta == s.meta && Commits(Before(s, steps, 5), steps[5], true, p, n)
  {
    hide Next, Run, NameKey, InodeKey, CString, CommitMeta;
    var steps := CreateCall(t, p, n, now, lockFails);
    var c := CreateTxn(s, p, n, now, !lockFails, SeedStaged);
    CreateProgress(s, t, p, n, now, lockFails, 5);
    CreateCloses(s, Before(s, steps, 5), t, c);
    BeforeNext(s, steps, 5);
    CommitTripleMeta(s.meta, c.batch[0], c.batch[1], c.batch[2]);
    assert steps[..6] == steps;
  }

  // So the first create after a remount gets exactly the committed seed.
  lemma CreateAfterRemount(s: State, steps: seq<Step>, t: Tid, p: int, n: seq<byte>, now: int)
    requires Inv(s) && s.seed + |steps| < TWO56 && CString(n) && NameKey(p, n) !in Run(s, steps).meta
    ensures var m, s' := Run(s, steps), Run(Run(s, steps + [Remount]), CreateCall(t, p, n, now, false));
            && m.sk in m.meta && m.meta[m.sk].Seed? && NameKey(p, n) in s'.meta
            && s'.meta[NameKey(p, n)] == Ino(m.meta[m.sk].seed)
  {
    hide NameKey, InodeKey, Run, Next, CString;
    RunInv(s, steps);
    RemountReloads(s, steps);
    var m := Run(s, steps + [Remount]);
    CreateCallEffect(m, t, p, n, now, false);
    InodeKeyApart(Run(s, steps), m.seed, p, n);
  }

  // A lock request that fails takes no lock and changes nothing but the call's own progress.
  lemma LockErrorTakesNothing(s: State, t: Tid)
    requires Inv(s) && Enabled(s, LockError(t))
    ensures var s' := Next(s, LockError(t));
            && s'.meta == s.meta && s'.locks == s.locks && s'.seed == s.seed && s'.txns.Keys == s.txns.Keys
            && (forall t' :: t' in s.txns && t' != t ==> s'.txns[t'] == s.txns[t'])
            && !s'.txns[t].checked && s'.txns[t].batch == []
            && s'.txns[t].inode == s.txns[t].inode
  {
    assert TxnOk(s, t);
  }

  /**
   The condition on GetForUpdate is needed: when it fails with an error the code treats the name as
   absent, and once the lock is free the create replaces an existing binding.
   */
  lemma LockErrorOverwrites(sk: Key, firstIno: nat, p: int, n: seq<byte>, now: int)
    requires SeedKey(sk) && firstIno + 12 <= TWO56 && CString(n)
    ensures var s := Run(Fresh(sk, firstIno), CreateCall(0, p, n, now, false));
            var steps := CreateCall(1, p, n, now, true);
            && Commits(Before(s, steps, 5), steps[5], true, p, n)
            && NameKey(p, n) in Before(s, steps, 5).meta
            && Lookup(s.meta, p, n).Found? && Lookup(Run(s, steps).meta, p, n).Found?
            && Lookup(s.meta, p, n).ino != Lookup(Run(s, steps).meta, p, n).ino
  {
    var s0 := Fresh(sk, firstIno);
    FreshRefines(sk, firstIno);
    CreateCallEffect(s0, 0, p, n, now, false);
    var s := AfterCreate(s0, p, n, now);
    CreateCallEffect(s, 1, p, n, now, true);
    FreshInv(sk, firstIno);
    RunInv(s0, CreateCall(0, p, n, now, false));
    RunInv(s, CreateCall(1, p, n, now, true));
    InodeKeyApart(s0, firstIno, p, n);
    InodeKeyApart(s0, firstIno + 1, p, n);
    LookupInInv(s, p, n);
    LookupInInv(Run(s, CreateCall(1, p, n, now, true)), p, n);
  }

  lemma RunTwo(s: State, a: Step, b: Step)
    ensures Run(s, [a, b]) == Next(Next(s, a), b)
  {
    assert [a, b][1..] == [b] && [b][1..] == [];
    assert Run(Next(s, a), [b]) == Run(Next(Next(s, a), b), []);
  }

  // -EEXIST and rolled-back creates leave the store alone; the inode number they took is gone.
  lemma ExistingCallEffect(s: State, t: Tid, p: int, n: seq<byte>, now: int)
    requires Idle(s, t) && CString(n) && NameKey(p, n) in s.meta
    ensures Run(s, [Begin(t, p, n, now), GetForUpdate(t)]) == s.(seed := s.seed + 1)
  {
    RunTwo(s, Begin(t, p, n, now), GetForUpdate(t));
    var m := Next(s, Begin(t, p, n, now));
    assert Enabled(m, GetForUpdate(t)) && Drop(m, t).txns == s.txns && Drop(m, t).locks == map[];
  }

  // The rest of the call is not reached then.
  lemma RefusedCallEffect(s: State, t: Tid, p: int, n: seq<byte>, now: int)
    requires Idle(s, t) && CString(n) && NameKey(p, n) in s.meta
    ensures Run(s, CreateCall(t, p, n, now, false)) == s.(seed := s.seed + 1)
  {
    hide NameKey, CString, Run, Next;
    var steps := CreateCall(t, p, n, now, false);
    var first, rest := [Begin(t, p, n, now), GetForUpdate(t)], steps[2..];
    assert steps == first + rest;
    RunConcat(s, first, rest);
    ExistingCallEffect(s, t, p, n, now);
    ClosedIsIdle(s.(seed := s.seed + 1), rest, t);
  }

  // Later steps of a transaction that is not open do nothing.
  lemma {:induction false} ClosedIsIdle(s: State, steps: seq<Step>, t: Tid)
    requires t !in s.txns
    requires forall i :: 0 <= i < |steps| ==> steps[i] in {StageName(t), StageRecord(t), StageSeed(t), Commit(t)}
    ensures Run(s, steps) == s
    decreases |steps|
  {
    if steps != [] {
      assert !Enabled(s, steps[0]);
      ClosedIsIdle(s, steps[1..], t);
    }
  }

  /** A create that fails after any of its steps changes nothing but the in-memory seed. */
  lemma AbortedCallEffect(s: State, t: Tid, p: int, n: seq<byte>, now: int, lockFails: bool, k: nat)
    requires Idle(s, t) && CString(n) && 1 <= k <= 5
    requires k == 1 || lockFails || NameKey(p, n) !in s.meta
    ensures Run(s, CreateCall(t, p, n, now, lockFails)[..k] + [Abort(t)]) == s.(seed := s.seed + 1)
  {
    hide InProgress, CreateTxn, NameKey, Next, CString;
    var steps := CreateCall(t, p, n, now, lockFails);
    CreateProgress(s, t, p, n, now, lockFails, k);
    AbortEnds(s, Before(s, steps, k), t, CreateTxn(s, p, n, now, !lockFails && k > 1, PcAt(k)));
    RunConcat(s, steps[..k], [Abort(t)]);
    assert [Abort(t)][1..] == [];
  }

  function UnlinkCall(t: Tid, p: int, n: seq<byte>): seq<Step> {
    [BeginUnlink(t, p, n), StageUnlink(t), Commit(t)]
  }

  lemma UnlinkCallEffect(s: State, t: Tid, p: int, n: seq<byte>)
    requires Idle(s, t) && CString(n) && Lookup(s.meta, p, n).Found?
    ensures var u := Unlink(p, n, Lookup(s.meta, p, n).inode, []);
            Run(s, UnlinkCall(t, p, n)) == s.(meta := ApplyMeta(s.meta, UnlinkOp(u)))
  {
    var u := Unlink(p, n, Lookup(s.meta, p, n).inode, []);
    var steps := UnlinkCall(t, p, n);
    var s1 := Next(s, steps[0]);
    var s2 := Next(s1, steps[1]);
    assert steps[1..] == [steps[1], steps[2]];
    RunTwo(s1, steps[1], steps[2]);
    assert s1.txns[t] == u && s2.txns[t].batch == [UnlinkOp(u)];
    CommitSingleMeta(s.meta, UnlinkOp(u));
    assert Drop(s2, t).txns == s.txns && Drop(s2, t).locks == map[];
  }
}
