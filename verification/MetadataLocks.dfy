/**
 What a committing create or unlink does to a binding is decided when it takes the lock of the name: from then
 on no other transaction can change it.
 */
module MetadataLocks {
  import opened Bytes
  import opened MetaKeys
  import opened Metadata
  import opened MetadataInv
  import opened MetadataRuns
  import opened MetadataCalls

  // What the store holds under a key.
  function At(meta: map<Key, MetaVal>, k: Key): Option<MetaVal> {
    if k in meta then Some(meta[k]) else None
  }

  // Transaction t has staged its operation on the name: the Put of a create, the Delete of an unlink.
  predicate HoldsName(s: State, t: Tid, p: int, n: seq<byte>) {
    && t in s.txns && s.txns[t].parent == p && s.txns[t].name == n
    && if s.txns[t].Create? then s.txns[t].pc in {NameStaged, RecordStaged, SeedStaged} else s.txns[t].batch != []
  }

  // The step by which it does so, and takes the lock unless it has it.
  predicate TakesName(s: State, step: Step, t: Tid, p: int, n: seq<byte>) {
    && Enabled(s, step) && (step == StageName(t) || step == StageUnlink(t))
    && s.txns[t].parent == p && s.txns[t].name == n
  }

  // From step i to before step j transaction t keeps the name.
  ghost predicate KeepsName(s: State, steps: seq<Step>, i: nat, j: nat, t: Tid, p: int, n: seq<byte>)
    requires j <= |steps|
  {
    forall m: nat :: i < m <= j ==> HoldsName(Before(s, steps, m), t, p, n)
  }

  /* ---- Only locks block a call ---- */

  // The key the next step of an open create needs, and how far the create has come after it.
  function NextKey(s: State, c: Txn): Key
    requires c.Create? && c.pc != SeedStaged
  {
    match c.pc
    case Begun => NameKey(c.parent, c.name)
    case Locked => NameKey(c.parent, c.name)
    case NameStaged => InodeKey(c.inode.ino)
    case RecordStaged => s.sk
  }

  predicate HeldByOther(s: State, k: Key, t: Tid) {
    k in s.locks && s.locks[k] != t
  }

  /**
   With any other transactions open, a create moves on by its next step exactly when no other transaction holds the
   key it needs; GetForUpdate of a bound name ends it.  A create that has staged everything can always commit, and
   any open transaction can end.
   */
  lemma CreateMovesIff(s: State, t: Tid)
    requires t in s.txns && s.txns[t].Create?
    ensures var c := s.txns[t];
            match c.pc
            case Begun =>
              var s' := Next(s, GetForUpdate(t));
              if HeldByOther(s, NextKey(s, c), t) then s' == s
              else if NextKey(s, c) in s.meta then t !in s'.txns && s'.meta == s.meta
              else Creating(s', t, Locked) && s'.txns[t].checked && s'.locks == s.locks[NextKey(s, c) := t]
            case Locked => Creating(Next(s, StageName(t)), t, NameStaged) <==> !HeldByOther(s, NextKey(s, c), t)
            case NameStaged => Creating(Next(s, StageRecord(t)), t, RecordStaged) <==> !HeldByOther(s, NextKey(s, c), t)
            case RecordStaged => Creating(Next(s, StageSeed(t)), t, SeedStaged) <==> !HeldByOther(s, NextKey(s, c), t)
            case SeedStaged => t !in Next(s, Commit(t)).txns
    ensures t !in Next(s, Abort(t)).txns && Next(s, Abort(t)).meta == s.meta
  {
    hide NameKey, InodeKey, CString, CommitMeta;
  }

  // The same for an unlink, and for calls that begin.
  lemma UnlinkMovesIff(s: State, t: Tid)
    requires t in s.txns && s.txns[t].Unlink? && s.txns[t].batch == [] && s.txns[t].inode.links == 1
    ensures var u := s.txns[t];
            var s' := Next(s, StageUnlink(t));
            s' != s <==> !HeldByOther(s, NameKey(u.parent, u.name), t)
    ensures var s' := Next(s, StageUnlink(t)); s' != s ==> t !in Next(s', Commit(t)).txns
  {
    hide NameKey, InodeKey, CString, CommitMeta;
    assert Next(s, StageUnlink(t)) != s ==> Next(s, StageUnlink(t)).txns[t].batch != [];
  }

  lemma CallsBegin(s: State, t: Tid, p: int, n: seq<byte>, now: int)
    requires t !in s.txns && CString(n)
    ensures Creating(Next(s, Begin(t, p, n, now)), t, Begun) && Next(s, Begin(t, p, n, now)).seed == s.seed + 1
    ensures t in Next(s, BeginUnlink(t, p, n)).txns <==> Lookup(s.meta, p, n).Found?
  {
    hide NameKey, InodeKey;
  }

  /* ---- Nobody else touches a held name ---- */

  // The commit of another transaction.
  lemma OtherCommitKeepsName(s: State, t: Tid, t': Tid, p: int, n: seq<byte>)
    requires Inv(s) && HoldsName(s, t, p, n) && t' != t && Enabled(s, Commit(t'))
    ensures At(Next(s, Commit(t')).meta, NameKey(p, n)) == At(s.meta, NameKey(p, n))
  {
    hide NameKey, InodeKey, CString;
    assert TxnOk(s, t) && TxnOk(s, t');
    var other := s.txns[t'];
    assert NameKey(other.parent, other.name) != NameKey(p, n);
    if other.Create? {
      CreateBatch(s, t');
      InodeKeyApart(s, other.inode.ino, p, n);
    } else {
      CommitUnlinkInv(s, t');
    }
  }

  lemma StepKeepsHeldName(s: State, step: Step, t: Tid, p: int, n: seq<byte>)
    requires Inv(s) && HoldsName(s, t, p, n) && HoldsName(Next(s, step), t, p, n)
    ensures At(Next(s, step).meta, NameKey(p, n)) == At(s.meta, NameKey(p, n))
    ensures Next(s, step).txns[t].inode == s.txns[t].inode && Next(s, step).txns[t].Create? == s.txns[t].Create?
  {
    hide NameKey, InodeKey, CString;
    assert TxnOk(s, t);
    if Enabled(s, step) && step.Commit? {
      OtherCommitKeepsName(s, t, step.t, p, n);
    } else if Enabled(s, step) && step.Persist? {
      RecordNumberBelow(s, step.inode);
      InodeKeyApart(s, step.inode.ino, p, n);
    }
  }

  lemma RecordNumberBelow(s: State, i: Inode)
    requires Inv(s) && Enabled(s, Persist(i))
    ensures i.ino < TWO56
  {
    assert EntryOk(s.sk, s.meta, InodeKey(i.ino));
  }

  // A transaction that holds the name now held it before, or this step took it.
  lemma HeldOrTaken(s: State, step: Step, t: Tid, p: int, n: seq<byte>)
    requires HoldsName(Next(s, step), t, p, n) && !HoldsName(s, t, p, n)
    ensures TakesName(s, step, t, p, n) && Next(s, step).meta == s.meta
    ensures Next(s, step).txns[t].inode == s.txns[t].inode && Next(s, step).txns[t].Create? == s.txns[t].Create?
  {
    hide NameKey, InodeKey, CString;
  }

  /** The step at which the name was taken; the binding has not changed since. */
  lemma {:induction false} NameTaken(s: State, steps: seq<Step>, j: nat, t: Tid, p: int, n: seq<byte>) returns (i: nat)
    requires Inv(s) && s.seed + |steps| <= TWO56 && j <= |steps| && t !in s.txns
    requires HoldsName(Before(s, steps, j), t, p, n)
    ensures i < j && TakesName(Before(s, steps, i), steps[i], t, p, n) && KeepsName(s, steps, i, j, t, p, n)
    ensures At(Before(s, steps, j).meta, NameKey(p, n)) == At(Before(s, steps, i).meta, NameKey(p, n))
    ensures Before(s, steps, j).txns[t].inode == Before(s, steps, i).txns[t].inode
    ensures Before(s, steps, j).txns[t].Create? == Before(s, steps, i).txns[t].Create?
    decreases j
  {
    hide Next, Run, NameKey, HoldsName, TakesName, Inv;
    assert j > 0 by { NotHeldAtStart(s, steps, t, p, n); }
    var m := Before(s, steps, j - 1);
    BeforeInv(s, steps, j - 1);
    BeforeNext(s, steps, j - 1);
    if HoldsName(m, t, p, n) {
      i := NameTaken(s, steps, j - 1, t, p, n);
      StepKeepsHeldName(m, steps[j - 1], t, p, n);
    } else {
      i := j - 1;
      HeldOrTaken(m, steps[j - 1], t, p, n);
    }
    HeldIsOpen(m, t, p, n);
    HeldIsOpen(Before(s, steps, j), t, p, n);
  }

  lemma NotHeldAtStart(s: State, steps: seq<Step>, t: Tid, p: int, n: seq<byte>)
    requires t !in s.txns
    ensures !HoldsName(Before(s, steps, 0), t, p, n)
  {
    NothingBefore(s, steps);
  }

  lemma HeldIsOpen(s: State, t: Tid, p: int, n: seq<byte>)
    ensures HoldsName(s, t, p, n) ==> t in s.txns
  {}

  /* ---- Creates ---- */

  // The commit puts another number in the place of a bound one.
  predicate Replaces(s: State, step: Step, p: int, n: seq<byte>) {
    NameKey(p, n) in s.meta && At(Next(s, step).meta, NameKey(p, n)) != At(s.meta, NameKey(p, n))
  }

  lemma CommitReplacesIffBound(s: State, t: Tid, p: int, n: seq<byte>)
    requires Inv(s) && Commits(s, Commit(t), true, p, n)
    ensures Replaces(s, Commit(t), p, n) <==> NameKey(p, n) in s.meta
  {
    hide NameKey, InodeKey, CString;
    var c := s.txns[t];
    assert TxnOk(s, t);
    CreateBatch(s, t);
    InodeKeyApart(s, c.inode.ino, p, n);
    if NameKey(p, n) in s.meta {
      assert EntryOk(s.sk, s.meta, NameKey(p, n));
    }
  }

  /**
   In every interleaving a committing create replaces a binding exactly when the name was bound at the moment its
   Put of the name was staged; that cannot be if GetForUpdate gave it the lock before.
   */
  lemma CreateReplacesIff(s: State, steps: seq<Step>, j: nat, p: int, n: seq<byte>) returns (i: nat)
    requires Inv(s) && s.seed + |steps| <= TWO56 && j < |steps|
    requires Commits(Before(s, steps, j), steps[j], true, p, n) && steps[j].t !in s.txns
    ensures i < j && TakesName(Before(s, steps, i), steps[i], steps[j].t, p, n)
    ensures KeepsName(s, steps, i, j, steps[j].t, p, n)
    ensures Replaces(Before(s, steps, j), steps[j], p, n) <==> NameKey(p, n) in Before(s, steps, i).meta
    ensures Before(s, steps, j).txns[steps[j].t].checked ==> NameKey(p, n) !in Before(s, steps, i).meta
  {
    hide Next, Run, NameKey, TakesName, KeepsName, Replaces, Before;
    var t := steps[j].t;
    BeforeInv(s, steps, j);
    i := NameTaken(s, steps, j, t, p, n);
    CommitReplacesIffBound(Before(s, steps, j), t, p, n);
    if Before(s, steps, j).txns[t].checked {
      CreateFindsNoBinding(s, steps, j, p, n);
    }
  }

  /** One uninterrupted create of a bound name replaces the binding exactly when its lock request fails. */
  lemma CreateCallReplacesIff(s: State, t: Tid, p: int, n: seq<byte>, now: int, lockFails: bool)
    requires Idle(s, t) && Inv(s) && s.seed < TWO56 && CString(n) && NameKey(p, n) in s.meta
    ensures At(Run(s, CreateCall(t, p, n, now, lockFails)).meta, NameKey(p, n)) != At(s.meta, NameKey(p, n))
       <==> lockFails
  {
    hide NameKey, InodeKey, Next, Run, CString;
    if lockFails {
      CreateCallEffect(s, t, p, n, now, true);
      InodeKeyApart(s, s.seed, p, n);
      NextNumberIsNew(s);
      assert EntryOk(s.sk, s.meta, NameKey(p, n));
    } else {
      RefusedCallEffect(s, t, p, n, now);
    }
  }

  /* ---- Unlinks ---- */

  // An unlink's record is the one it looked up when it began.
  lemma {:induction false} LookedUp(s: State, steps: seq<Step>, i: nat, t: Tid) returns (b: nat)
    requires t !in s.txns && i <= |steps| && t in Before(s, steps, i).txns && Before(s, steps, i).txns[t].Unlink?
    ensures var u := Before(s, steps, i).txns[t];
            && b < i && steps[b] == BeginUnlink(t, u.parent, u.name)
            && var r := Lookup(Before(s, steps, b).meta, u.parent, u.name); r.Found? && r.inode == u.inode
    decreases i
  {
    hide Next, Run, Lookup;
    assert i > 0 by { NothingBefore(s, steps); }
    BeforeNext(s, steps, i - 1);
    var m := Before(s, steps, i - 1);
    UnlinkStep(m, steps[i - 1], t);
    if t in m.txns {
      b := LookedUp(s, steps, i - 1, t);
    } else {
      b := i - 1;
    }
  }

  predicate SameUnlink(u: Txn, v: Txn) {
    u.Unlink? && v.Unlink? && u.parent == v.parent && u.name == v.name && u.inode == v.inode
  }

  // An unlink that is open after a step was open before, for the same record, or began with it.
  lemma UnlinkStep(s: State, step: Step, t: Tid)
    requires t in Next(s, step).txns && Next(s, step).txns[t].Unlink?
    ensures var u := Next(s, step).txns[t];
            if t in s.txns then SameUnlink(s.txns[t], u)
            else step == BeginUnlink(t, u.parent, u.name)
                 && var r := Lookup(s.meta, u.parent, u.name); r.Found? && r.inode == u.inode
  {
    hide NameKey, InodeKey, CString;
  }

  /**
   vn_unlink looks the name up before it has the lock.  In every interleaving a committing unlink removes the
   number it looked up exactly when the name still has that number at the moment its Delete is staged.
   */
  lemma UnlinkRemovesIff(s: State, steps: seq<Step>, j: nat, p: int, n: seq<byte>) returns (b: nat, i: nat)
    requires Inv(s) && s.seed + |steps| <= TWO56 && j < |steps|
    requires Commits(Before(s, steps, j), steps[j], false, p, n) && steps[j].t !in s.txns
    ensures b < i < j && steps[b] == BeginUnlink(steps[j].t, p, n) && Lookup(Before(s, steps, b).meta, p, n).Found?
    ensures TakesName(Before(s, steps, i), steps[i], steps[j].t, p, n) && KeepsName(s, steps, i, j, steps[j].t, p, n)
    ensures At(Before(s, steps, j + 1).meta, NameKey(p, n)) == None
    ensures var looked := Some(Ino(Lookup(Before(s, steps, b).meta, p, n).ino));
            At(Before(s, steps, j).meta, NameKey(p, n)) == looked
            <==> At(Before(s, steps, i).meta, NameKey(p, n)) == looked
  {
    hide Next, Run, NameKey, InodeKey, KeepsName, Before, Lookup;
    var t := steps[j].t;
    BeforeInv(s, steps, j);
    i := NameTaken(s, steps, j, t, p, n);
    b := LookedUp(s, steps, i, t);
    BeforeNext(s, steps, j);
    CommitUnlinkInv(Before(s, steps, j), t);
  }

  /**
   The condition is needed.  A first unlink looks the name up and pauses; another unlink and a create of the same
   name follow; the first one then removes the new binding.
   */
  lemma UnlinkRemovesLaterCreate(sk: Key, ino: nat, p: int, n: seq<byte>, now: int)
    requires SeedKey(sk) && ino + 20 <= TWO56 && CString(n)
    ensures var s1 := Run(Fresh(sk, ino), CreateCall(0, p, n, now, false));
            var s2 := Next(s1, BeginUnlink(1, p, n));
            var s3 := Run(Run(s2, UnlinkCall(2, p, n)), CreateCall(0, p, n, now, false));
            var s4 := Next(Next(s3, StageUnlink(1)), Commit(1));
            && At(s1.meta, NameKey(p, n)) == Some(Ino(ino)) && 1 in s2.txns && s2.txns[1].inode.ino == ino
            && At(s3.meta, NameKey(p, n)) == Some(Ino(ino + 1))
            && At(s4.meta, NameKey(p, n)) == None
  {
    hide NameKey, InodeKey, Run, CString;
    var s0 := Fresh(sk, ino);
    FreshInv(sk, ino);
    InodeKeyApart(s0, ino, p, n);
    InodeKeyApart(s0, ino + 1, p, n);
    CreateCallEffect(s0, 0, p, n, now, false);
    var s1 := AfterCreate(s0, p, n, now);
    assert Lookup(s1.meta, p, n) == Found(ino, NewInode(ino, now));
    var s2 := Next(s1, BeginUnlink(1, p, n));
    UnlinkCallEffect(s2, 2, p, n);
    var s2' := Run(s2, UnlinkCall(2, p, n));
    assert s2'.meta == s1.meta - {NameKey(p, n)};
    CreateCallEffect(s2', 0, p, n, now, false);
    var s3 := AfterCreate(s2', p, n, now);
    LateUnlink(s3, 1, p, n, NewInode(ino, now));
  }

  lemma LateUnlink(s: State, t: Tid, p: int, n: seq<byte>, i: Inode)
    requires s.locks == map[] && t in s.txns && s.txns[t] == Unlink(p, n, i, []) && i.links == 1
    ensures At(Next(Next(s, StageUnlink(t)), Commit(t)).meta, NameKey(p, n)) == None
  {
    hide NameKey, InodeKey;
    CommitSingleMeta(s.meta, MetaDel(NameKey(p, n)));
  }
}
