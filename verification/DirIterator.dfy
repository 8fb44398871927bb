/**
 Listing a directory: seek to "p_" in the sorted keys of `meta_cf` and walk on while keys start with "p_".
 Keys are compared byte by byte, as the store's default comparator does.
 */
module DirIterator {
  import opened Bytes
  import opened MetaKeys
  import opened Metadata
  import opened MetadataInv
  import opened MetadataRuns
  import opened MetadataCalls

  /* ---- Key order ---- */

  predicate Less(a: Key, b: Key) {
    b != [] && (a == [] || a[0] < b[0] || (a[0] == b[0] && Less(a[1..], b[1..])))
  }

  // The first i bytes are equal, and then a ends or has the smaller byte.
  predicate SmallerAt(a: Key, b: Key, i: nat) {
    i <= |a| && i < |b| && a[..i] == b[..i] && (i == |a| || a[i] < b[i])
  }

  /** Keys are in ascending bytewise order, a proper prefix before what it is a prefix of. */
  lemma LessIffSmallerAt(a: Key, b: Key)
    ensures Less(a, b) <==> exists i: nat :: SmallerAt(a, b, i)
  {
    if Less(a, b) {
      var i := SmallerPlace(a, b);
    }
    if i: nat :| SmallerAt(a, b, i) {
      SmallerIsLess(a, b, i);
    }
  }

  lemma {:induction false} SmallerPlace(a: Key, b: Key) returns (i: nat)
    requires Less(a, b)
    ensures SmallerAt(a, b, i)
  {
    i := 0;
    if a != [] && a[0] == b[0] {
      var j := SmallerPlace(a[1..], b[1..]);
      i := j + 1;
      assert a[..i] == [a[0]] + a[1..][..j] && b[..i] == [b[0]] + b[1..][..j];
    }
  }

  lemma {:induction false} SmallerIsLess(a: Key, b: Key, i: nat)
    requires SmallerAt(a, b, i)
    ensures Less(a, b)
    decreases i
  {
    if i > 0 {
      assert a[..i][0] == b[..i][0];
      assert a[1..][..i - 1] == a[..i][1..] && b[1..][..i - 1] == b[..i][1..];
      SmallerIsLess(a[1..], b[1..], i - 1);
    }
  }

  lemma {:induction false} LessIrreflexive(a: Key)
    ensures !Less(a, a)
  {
    if a != [] {
      LessIrreflexive(a[1..]);
    }
  }

  lemma {:induction false} LessTransitive(a: Key, b: Key, c: Key)
    requires Less(a, b) && Less(b, c)
    ensures Less(a, c)
  {
    if a != [] && a[0] == b[0] == c[0] {
      LessTransitive(a[1..], b[1..], c[1..]);
    }
  }

  lemma StartsWithTail(k: Key, prefix: Key)
    requires k != [] && prefix != []
    ensures StartsWith(k, prefix) <==> k[0] == prefix[0] && StartsWith(k[1..], prefix[1..])
  {
    if |prefix| <= |k| {
      assert k[..|prefix|] == [k[0]] + k[1..][..|prefix| - 1];
      assert prefix == [prefix[0]] + prefix[1..];
    }
  }

  // A key with the prefix is not before the prefix.
  lemma {:induction false} PrefixNotLess(k: Key, prefix: Key)
    requires StartsWith(k, prefix)
    ensures !Less(k, prefix)
  {
    if prefix != [] {
      StartsWithTail(k, prefix);
      PrefixNotLess(k[1..], prefix[1..]);
    }
  }

  // After a key that is past the prefix, no key has the prefix any more.
  lemma {:induction false} PastThePrefix(a: Key, b: Key, prefix: Key)
    requires !Less(a, prefix) && !StartsWith(a, prefix) && Less(a, b)
    ensures !StartsWith(b, prefix)
  {
    assert prefix != [] && a != [];
    StartsWithTail(a, prefix);
    StartsWithTail(b, prefix);
    if a[0] == prefix[0] == b[0] {
      PastThePrefix(a[1..], b[1..], prefix[1..]);
    }
  }

  /* ---- Snapshots and the seek position ---- */

  ghost predicate Sorted(keys: seq<Key>) {
    forall i, j :: 0 <= i < j < |keys| ==> Less(keys[i], keys[j])
  }

  // The keys of the store in order, as an iterator sees them.
  ghost predicate IsSnapshot(keys: seq<Key>, meta: map<Key, MetaVal>) {
    Sorted(keys) && forall k :: k in keys <==> k in meta
  }

  // The first key that is not before target.
  function Seek(keys: seq<Key>, target: Key): (i: nat)
    ensures i <= |keys|
    ensures forall j :: 0 <= j < i ==> Less(keys[j], target)
    ensures i < |keys| ==> !Less(keys[i], target)
  {
    if keys == [] || !Less(keys[0], target) then 0 else 1 + Seek(keys[1..], target)
  }

  // How many keys an iteration from position pos on yields: it stops at the first key without the prefix.
  function RunLength(keys: seq<Key>, pos: nat, prefix: Key): (n: nat)
    requires pos <= |keys|
    ensures pos + n <= |keys|
    ensures forall i :: pos <= i < pos + n ==> StartsWith(keys[i], prefix)
    ensures pos + n < |keys| ==> !StartsWith(keys[pos + n], prefix)
    decreases |keys| - pos
  {
    if pos < |keys| && StartsWith(keys[pos], prefix) then 1 + RunLength(keys, pos + 1, prefix) else 0
  }

  function Listed(keys: seq<Key>, prefix: Key): seq<Key> {
    var pos := Seek(keys, prefix);
    keys[pos..pos + RunLength(keys, pos, prefix)]
  }

  // The keys with the prefix are exactly the ones from the seek position to the end of the run.
  lemma RunIsExact(keys: seq<Key>, prefix: Key, i: nat)
    requires Sorted(keys) && i < |keys|
    ensures var pos := Seek(keys, prefix);
            StartsWith(keys[i], prefix) <==> pos <= i < pos + RunLength(keys, pos, prefix)
  {
    var pos := Seek(keys, prefix);
    var end := pos + RunLength(keys, pos, prefix);
    if StartsWith(keys[i], prefix) {
      PrefixNotLess(keys[i], prefix);
      if end <= i {
        AfterTheRun(keys, prefix, end, i);
      }
    }
  }

  /** The iteration from the seek position yields every key with the prefix, once, and nothing else. */
  lemma ListedExactly(keys: seq<Key>, prefix: Key)
    requires Sorted(keys)
    ensures var r := Listed(keys, prefix);
            && (forall k :: k in r <==> k in keys && StartsWith(k, prefix))
            && forall i, j :: 0 <= i < j < |r| ==> r[i] != r[j]
  {
    var pos := Seek(keys, prefix);
    var r := Listed(keys, prefix);
    forall k | k in keys && StartsWith(k, prefix) ensures k in r {
      var i :| 0 <= i < |keys| && keys[i] == k;
      RunIsExact(keys, prefix, i);
      assert r[i - pos] == k;
    }
    forall i, j | 0 <= i < j < |r| ensures r[i] != r[j] {
      assert Less(keys[pos + i], keys[pos + j]);
      LessIrreflexive(r[i]);
    }
  }

  lemma AfterTheRun(keys: seq<Key>, prefix: Key, end: nat, i: nat)
    requires Sorted(keys) && Seek(keys, prefix) <= end <= i < |keys| && !StartsWith(keys[end], prefix)
    ensures !StartsWith(keys[i], prefix)
  {
    var pos := Seek(keys, prefix);
    if Less(keys[end], prefix) && pos < end {
      LessTransitive(keys[pos], keys[end], prefix);
    }
    if end < i {
      PastThePrefix(keys[end], keys[i], prefix);
    }
  }

  /* ---- When a listing is the directory ---- */

  // k is the key of a name in directory p.
  ghost predicate IsChild(k: Key, p: int) {
    exists n :: CString(n) && k == NameKey(p, n)
  }

  // No stored inode number spells "p_" in its low bytes.
  ghost predicate NoLookalike(meta: map<Key, MetaVal>, p: int) {
    forall i: nat :: i < TWO56 && InodeKey(i) in meta ==>
      !(|Prefix(p)| <= 8 && i % Pow256(|Prefix(p)|) == LeValue(Prefix(p)))
  }

  // What else could start with "p_": only names of p and raw inode keys.
  lemma PrefixedEntry(s: State, k: Key, p: int)
    requires Inv(s) && k in s.meta && StartsWith(k, Prefix(p))
    ensures s.meta[k].Ino? ==> IsChild(k, p)
    ensures !s.meta[k].Ino? ==> s.meta[k].Rec? && k == InodeKey(s.meta[k].inode.ino) && s.meta[k].inode.ino < TWO56
  {
    assert EntryOk(s.sk, s.meta, k);
    DecSpec(p);
    assert k[0] == k[..|Prefix(p)|][0] == Dec(p)[0];
    match s.meta[k]
    case Ino(_) =>
      var (parent, name) := ParseKey(k);
      PrefixSelectsParent(parent, name, p);
    case _ =>
  }

  /**
   Listing directory p yields only names of p exactly when no stored inode number looks like "p_"; then it
   yields each of them once.
   */
  lemma ListingIsDirectoryIff(s: State, keys: seq<Key>, p: int)
    requires Inv(s) && IsSnapshot(keys, s.meta)
    ensures var r := Listed(keys, Prefix(p));
            && ((forall k :: k in r ==> IsChild(k, p)) <==> NoLookalike(s.meta, p))
            && (forall n :: CString(n) && NameKey(p, n) in s.meta ==> NameKey(p, n) in r)
  {
    var prefix := Prefix(p);
    var r := Listed(keys, prefix);
    ListedExactly(keys, prefix);
    forall n | CString(n) && NameKey(p, n) in s.meta ensures NameKey(p, n) in r {
      PrefixSelectsParent(p, n, p);
    }
    if NoLookalike(s.meta, p) {
      forall k | k in r ensures IsChild(k, p) {
        PrefixedEntry(s, k, p);
        if s.meta[k].Rec? {
          InodeKeyStartsWith(s.meta[k].inode.ino, prefix);
        }
      }
    } else {
      var i: nat :| i < TWO56 && InodeKey(i) in s.meta
                    && |prefix| <= 8 && i % Pow256(|prefix|) == LeValue(prefix);
      InodeKeyStartsWith(i, prefix);
      assert InodeKey(i) in r;
      forall n | CString(n) ensures InodeKey(i) != NameKey(p, n) {
        InodeKeyApart(s, i, p, n);
      }
      assert !IsChild(InodeKey(i), p);
    }
  }

  // While the seed has not passed the prefix's value, or 24368, the listing is right for p (for every p).
  lemma SmallSeedIsEnough(s: State, p: int)
    requires Inv(s) && (CommittedSeed(s) <= LeValue(Prefix(p)) || CommittedSeed(s) <= 24368)
    ensures NoLookalike(s.meta, p)
  {
    forall i: nat | i < TWO56 && InodeKey(i) in s.meta
      ensures !(|Prefix(p)| <= 8 && i % Pow256(|Prefix(p)|) == LeValue(Prefix(p)))
    {
      RecordEntry(s, i);
      SmallInodesAreSafe(i, p);
      InodeKeyStartsWith(i, Prefix(p));
    }
  }

  // The bound is sharp: the record of inode 0x5f32 is listed in directory 2.
  lemma LookalikeExists()
    ensures StartsWith(InodeKey(0x5f32), Prefix(2))
  {
    assert Dec(2) == [0x32];
    assert Prefix(2) == [0x32, 0x5f];
    assert LeValue([0x5f]) == 0x5f + 256 * LeValue([]) by { assert [0x5f][1..] == []; }
    assert [0x32, 0x5f][1..] == [0x5f];
    assert LeValue(Prefix(2)) == 0x5f32;
    assert Pow256(2) == 256 * Pow256(1) && Pow256(1) == 256;
    InodeKeyStartsWith(0x5f32, Prefix(2));
  }

  // k creates that fail at once; each uses up a number.
  function Failures(p: int, n: seq<byte>, now: int, k: nat): seq<Step> {
    if k == 0 then [] else [Begin(0, p, n, now), Abort(0)] + Failures(p, n, now, k - 1)
  }

  lemma {:induction false} FailuresUseNumbers(s: State, p: int, n: seq<byte>, now: int, k: nat)
    requires Idle(s, 0) && CString(n)
    ensures Run(s, Failures(p, n, now, k)) == s.(seed := s.seed + k)
    decreases k
  {
    hide Run, Next, NameKey, CString;
    if k == 0 {
      EmptyRun(s);
    } else {
      var call := CreateCall(0, p, n, now, true);
      AbortedCallEffect(s, 0, p, n, now, true, 1);
      assert call[..1] + [Abort(0)] == [Begin(0, p, n, now), Abort(0)];
      RunConcat(s, [Begin(0, p, n, now), Abort(0)], Failures(p, n, now, k - 1));
      FailuresUseNumbers(s.(seed := s.seed + 1), p, n, now, k - 1);
    }
  }

  lemma EmptyRun(s: State)
    ensures Run(s, []) == s
  {}

  // From the first number mkfs stores, such a number is handed out at last, and then directory 2 is listed wrong.
  lemma LookalikeInRun(sk: Key, p: int, n: seq<byte>, now: int)
    requires SeedKey(sk) && CString(n)
    ensures var steps := Failures(p, n, now, 0x5f32 - VN_FIRST_USER_INO) + CreateCall(0, p, n, now, false);
            !NoLookalike(Run(Fresh(sk, VN_FIRST_USER_INO), steps).meta, 2)
  {
    hide NameKey, InodeKey, Run, Next, CString, Prefix, Failures;
    var s0, k := Fresh(sk, VN_FIRST_USER_INO), 0x5f32 - VN_FIRST_USER_INO;
    FailuresUseNumbers(s0, p, n, now, k);
    RunConcat(s0, Failures(p, n, now, k), CreateCall(0, p, n, now, false));
    var s := s0.(seed := 0x5f32);
    FreshInv(sk, VN_FIRST_USER_INO);
    InodeKeyApart(s0, 0x5f32, p, n);
    CreateCallEffect(s, 0, p, n, now, false);
    assert InodeKey(0x5f32) in AfterCreate(s, p, n, now).meta;
    LookalikeExists();
    InodeKeyStartsWith(0x5f32, Prefix(2));
  }

  /* ---- The iterator object ---- */

  class InodeIterator {
    const snap: map<Key, MetaVal>   // the snapshot the store's iterator walks over
    const keys: seq<Key>            // its keys in order
    const prefix: Key
    var pos: nat

    // vn_begin_iterate_dir
    constructor (snap: map<Key, MetaVal>, keys: seq<Key>, parent: int)
      ensures this.snap == snap && this.keys == keys && prefix == Prefix(parent) && pos == Seek(keys, Prefix(parent))
    {
      this.snap, this.keys := snap, keys;
      this.prefix := Prefix(parent);
      this.pos := Seek(keys, Prefix(parent));
    }

    // vn_iterator_has_next
    predicate HasNext()
      reads this
    {
      pos < |keys| && StartsWith(keys[pos], prefix)
    }

    /**
     vn_next_inode.  The entry comes from the snapshot, its record from the store as it is now.  The source asserts
     that the name fits the caller's buffer and that the record carries the number of the entry.  An entry whose
     record is missing is not stepped over.
     */
    method NextInode(live: map<Key, MetaVal>, bufLen: nat) returns (name: seq<byte>, inode: Option<Inode>)
      requires HasNext() ==> keys[pos] in snap && !snap[keys[pos]].Super? && |keys[pos]| - |prefix| < bufLen
      requires HasNext() ==> var r := InodeKey(EntryIno(snap[keys[pos]]));
                             r in live && live[r].Rec? ==> live[r].inode.ino == EntryIno(snap[keys[pos]])
      modifies this`pos
      ensures inode.Some? <==> old(HasNext()) && InodeKey(EntryIno(snap[keys[old(pos)]])) in live
                               && live[InodeKey(EntryIno(snap[keys[old(pos)]]))].Rec?
      ensures inode.Some? ==> pos == old(pos) + 1 && prefix + name == keys[old(pos)]
                              && EntryIs(snap, live, keys[old(pos)], inode.value)
      ensures inode.Some? ==> match snap[keys[old(pos)]]
                              case Ino(ino) => InodeKey(ino) in live && live[InodeKey(ino)] == Rec(inode.value)
                              case Rec(i) => InodeKey(i.ino) in live && live[InodeKey(i.ino)] == Rec(inode.value)
                              case _ => true
      ensures inode.None? ==> pos == old(pos)
    {
      name, inode := [], None;
      if HasNext() {
        var ino := EntryIno(snap[keys[pos]]);
        if InodeKey(ino) !in live || !live[InodeKey(ino)].Rec? {
          return;
        }
        name := keys[pos][|prefix|..];
        inode := Some(live[InodeKey(ino)].inode);
        pos := pos + 1;
      }
    }
  }

  // The first 8 bytes of a value, which the iterator takes for an inode number.  A record starts with its own.
  function EntryIno(v: MetaVal): nat
    requires !v.Super?
  {
    match v
    case Ino(ino) => ino
    case Rec(i) => i.ino
    case Seed(n) => n
  }

  // i is the live record of the number the snapshot has under k.
  ghost predicate EntryIs(snap: map<Key, MetaVal>, live: map<Key, MetaVal>, k: Key, i: Inode) {
    && k in snap && !snap[k].Super? && EntryIno(snap[k]) == i.ino
    && InodeKey(i.ino) in live && live[InodeKey(i.ino)] == Rec(i)
  }

  // An entry whose record is in the live store and carries its number, with a key shorter than limit.
  ghost predicate Complete(snap: map<Key, MetaVal>, live: map<Key, MetaVal>, k: Key, limit: nat) {
    && k in snap && !snap[k].Super? && |k| < limit
    && var r := InodeKey(EntryIno(snap[k]));
       r in live && live[r].Rec? && live[r].inode.ino == EntryIno(snap[k])
  }

  // A state of the run from s on.
  ghost predicate Later(s: State, steps: seq<Step>, live: map<Key, MetaVal>) {
    exists m: nat :: m <= |steps| && live == Before(s, steps, m).meta
  }

  // Every Get reads some state of the run that starts with the snapshot.
  ghost predicate AllLater(s: State, steps: seq<Step>, lives: seq<map<Key, MetaVal>>) {
    forall i :: 0 <= i < |lives| ==> Later(s, steps, lives[i])
  }

  /**
   Whatever happens to the store after the snapshot, the iterator loses no record and its assertion on i_no
   holds, for names and for the records of lookalikes.
   */
  lemma ListedIsComplete(s: State, steps: seq<Step>, live: map<Key, MetaVal>, keys: seq<Key>, p: int,
                         bufLen: nat, i: nat)
    requires Inv(s) && s.seed + |steps| <= TWO56 && Later(s, steps, live)
    requires IsSnapshot(keys, s.meta) && i < |keys| && StartsWith(keys[i], Prefix(p))
    requires |keys[i]| - |Prefix(p)| < bufLen
    ensures Complete(s.meta, live, keys[i], |Prefix(p)| + bufLen)
  {
    hide Run, Next, InodeKey, NameKey, IsChild;
    var k := keys[i];
    assert k in keys;
    PrefixedEntry(s, k, p);
    if s.meta[k].Ino? {
      ChildEntry(s, k, p);
      RecordIsKept(s, steps, live, s.meta[k].ino);
    } else {
      RecordIsKept(s, steps, live, s.meta[k].inode.ino);
    }
  }

  lemma RecordIsKept(s: State, steps: seq<Step>, live: map<Key, MetaVal>, ino: nat)
    requires Inv(s) && s.seed + |steps| <= TWO56 && Later(s, steps, live)
    requires InodeKey(ino) in s.meta && s.meta[InodeKey(ino)].Rec? && s.meta[InodeKey(ino)].inode.ino == ino
    ensures InodeKey(ino) in live && live[InodeKey(ino)].Rec? && live[InodeKey(ino)].inode.ino == ino
  {
    hide Run, Next, InodeKey;
    assert EntryOk(s.sk, s.meta, InodeKey(ino));
    var m: nat :| m <= |steps| && live == Before(s, steps, m).meta;
    NothingBefore(s, steps);
    RecordStays(s, steps, 0, m, ino);
    BeforeInv(s, steps, m);
    RecordEntry(Before(s, steps, m), ino);
  }

  // A name of the directory leads to its own record.
  lemma ChildEntry(s: State, k: Key, p: int)
    requires Inv(s) && k in s.meta && IsChild(k, p)
    ensures s.meta[k].Ino? && InodeKey(s.meta[k].ino) in s.meta && s.meta[InodeKey(s.meta[k].ino)].Rec?
    ensures s.meta[InodeKey(s.meta[k].ino)].inode.ino == s.meta[k].ino
  {
    var n :| CString(n) && k == NameKey(p, n);
    NameEntry(s, p, n);
    LookupInInv(s, p, n);
  }

  // vn_next_inode while vn_iterator_has_next; the i-th call finds the store as lives[i].
  method Walk(it: InodeIterator, lives: seq<map<Key, MetaVal>>, bufLen: nat)
    returns (names: seq<seq<byte>>, inodes: seq<Inode>)
    requires it.pos <= |it.keys| && RunLength(it.keys, it.pos, it.prefix) <= |lives|
    requires forall i, live :: it.pos <= i < |it.keys| && StartsWith(it.keys[i], it.prefix) && live in lives
               ==> Complete(it.snap, live, it.keys[i], |it.prefix| + bufLen)
    modifies it`pos
    ensures |names| == |inodes| == RunLength(it.keys, old(it.pos), it.prefix)
    ensures forall i :: 0 <= i < |names| ==> it.prefix + names[i] == it.keys[old(it.pos) + i]
    ensures forall i :: 0 <= i < |names| ==> EntryIs(it.snap, lives[i], it.keys[old(it.pos) + i], inodes[i])
  {
    hide InodeKey, EntryIs, Less, EntryIno;
    names, inodes := [], [];
    ghost var start := it.pos;
    while it.HasNext()
      invariant it.pos == start + |names| <= |it.keys| && |names| == |inodes| <= |lives|
      invariant |names| + RunLength(it.keys, it.pos, it.prefix) == RunLength(it.keys, start, it.prefix)
      invariant forall i :: 0 <= i < |names| ==> it.prefix + names[i] == it.keys[start + i]
      invariant forall i :: 0 <= i < |names| ==> EntryIs(it.snap, lives[i], it.keys[start + i], inodes[i])
      decreases |it.keys| - it.pos
    {
      var live := lives[|names|];
      assert live in lives;
      assert Complete(it.snap, live, it.keys[it.pos], |it.prefix| + bufLen);
      var name, inode := it.NextInode(live, bufLen);
      names, inodes := names + [name], inodes + [inode.value];
    }
  }

  // One entry per key of all: what follows the prefix, and the record of the entry's number.
  ghost predicate AreEntries(snap: map<Key, MetaVal>, lives: seq<map<Key, MetaVal>>, p: int, all: seq<Key>,
                             names: seq<seq<byte>>, inodes: seq<Inode>)
  {
    && |names| == |inodes| == |all| <= |lives|
    && forall i :: 0 <= i < |names| ==> NameKey(p, names[i]) == all[i] && EntryIs(snap, lives[i], all[i], inodes[i])
  }

  // One entry per name bound in p at the snapshot, each with the live record of the number it was bound to.
  ghost predicate IsListing(snap: map<Key, MetaVal>, lives: seq<map<Key, MetaVal>>, p: int,
                            names: seq<seq<byte>>, inodes: seq<Inode>)
  {
    && |names| == |inodes| <= |lives|
    && (forall n :: CString(n) ==> (n in names <==> NameKey(p, n) in snap))
    && (forall i :: 0 <= i < |names| ==> CString(names[i]) && IsEntryOf(snap, lives[i], p, names[i], inodes[i]))
    && (forall i, j :: 0 <= i < j < |names| ==> names[i] != names[j])
  }

  ghost predicate IsEntryOf(snap: map<Key, MetaVal>, live: map<Key, MetaVal>, p: int, n: seq<byte>, i: Inode) {
    && Lookup(snap, p, n).Found? && Lookup(snap, p, n).ino == i.ino
    && InodeKey(i.ino) in live && live[InodeKey(i.ino)] == Rec(i)
  }

  /**
   A whole listing of directory p: the snapshot is a consistent store, and every Get reads some later state of any
   run from there.  There is one entry per key with the prefix.  It is the listing of the directory exactly when
   no inode number stored at the snapshot looks like the prefix.
   */
  method ListDirectory(ghost s: State, ghost steps: seq<Step>, snap: map<Key, MetaVal>, keys: seq<Key>,
                       lives: seq<map<Key, MetaVal>>, p: int, bufLen: nat)
    returns (names: seq<seq<byte>>, inodes: seq<Inode>)
    requires Inv(s) && s.seed + |steps| <= TWO56 && s.meta == snap && IsSnapshot(keys, snap)
    requires AllLater(s, steps, lives) && |Listed(keys, Prefix(p))| <= |lives|
    requires forall k :: k in keys && StartsWith(k, Prefix(p)) ==> |k| - |Prefix(p)| < bufLen
    ensures AreEntries(snap, lives, p, Listed(keys, Prefix(p)), names, inodes)
    ensures IsListing(snap, lives, p, names, inodes) <==> NoLookalike(snap, p)
  {
    hide Inv, NoLookalike, IsListing, Complete, EntryIs, AreEntries, IsSnapshot, Seek, RunLength, StartsWith, Prefix;
    var it := new InodeIterator(snap, keys, p);
    AllComplete(s, steps, lives, keys, p, bufLen);
    names, inodes := Walk(it, lives, bufLen);
    WalkedEntries(snap, lives, keys, p, names, inodes);
    EntriesAreListingIff(s, lives, keys, p, names, inodes);
  }

  lemma AllComplete(s: State, steps: seq<Step>, lives: seq<map<Key, MetaVal>>, keys: seq<Key>, p: int, bufLen: nat)
    requires Inv(s) && s.seed + |steps| <= TWO56 && IsSnapshot(keys, s.meta) && AllLater(s, steps, lives)
    requires forall k :: k in keys && StartsWith(k, Prefix(p)) ==> |k| - |Prefix(p)| < bufLen
    ensures forall i: nat, live ::
              Seek(keys, Prefix(p)) <= i < |keys| && StartsWith(keys[i], Prefix(p)) && live in lives
              ==> Complete(s.meta, live, keys[i], |Prefix(p)| + bufLen)
  {
    hide Inv, Complete, IsSnapshot, Seek, StartsWith, Prefix, Later;
    forall i: nat, live | i < |keys| && StartsWith(keys[i], Prefix(p)) && live in lives
      ensures Complete(s.meta, live, keys[i], |Prefix(p)| + bufLen)
    {
      assert keys[i] in keys;
      ListedIsComplete(s, steps, live, keys, p, bufLen, i);
    }
  }

  lemma WalkedEntries(snap: map<Key, MetaVal>, lives: seq<map<Key, MetaVal>>, keys: seq<Key>, p: int,
                      names: seq<seq<byte>>, inodes: seq<Inode>)
    requires |names| == |inodes| == RunLength(keys, Seek(keys, Prefix(p)), Prefix(p)) <= |lives|
    requires forall i :: 0 <= i < |names| ==> Prefix(p) + names[i] == keys[Seek(keys, Prefix(p)) + i]
    requires forall i :: 0 <= i < |names| ==> EntryIs(snap, lives[i], keys[Seek(keys, Prefix(p)) + i], inodes[i])
    ensures AreEntries(snap, lives, p, Listed(keys, Prefix(p)), names, inodes)
  {
    hide EntryIs, Seek, RunLength, NameKey, Prefix;
    var pos, all := Seek(keys, Prefix(p)), Listed(keys, Prefix(p));
    forall i | 0 <= i < |names| ensures NameKey(p, names[i]) == all[i] && EntryIs(snap, lives[i], all[i], inodes[i]) {
      assert all[i] == keys[pos + i];
      NameAfterPrefix(p, names[i]);
    }
  }

  lemma NameAfterPrefix(p: int, name: seq<byte>)
    ensures NameKey(p, name) == Prefix(p) + name
  {}

  lemma EntriesAreListingIff(s: State, lives: seq<map<Key, MetaVal>>, keys: seq<Key>, p: int,
                             names: seq<seq<byte>>, inodes: seq<Inode>)
    requires Inv(s) && IsSnapshot(keys, s.meta)
    requires AreEntries(s.meta, lives, p, Listed(keys, Prefix(p)), names, inodes)
    ensures IsListing(s.meta, lives, p, names, inodes) <==> NoLookalike(s.meta, p)
  {
    hide Inv, NoLookalike, InodeKey, Less, EntryIs, Listed, NameKey, IsEntryOf;
    var all := Listed(keys, Prefix(p));
    ListingIsDirectoryIff(s, keys, p);
    ListedExactly(keys, Prefix(p));
    if NoLookalike(s.meta, p) {
      ListingFacts(s, lives, all, p, names, inodes);
    } else {
      var k :| k in all && !IsChild(k, p);
      var i :| 0 <= i < |all| && all[i] == k;
      assert !CString(names[i]);
    }
  }

  lemma ListingFacts(s: State, lives: seq<map<Key, MetaVal>>, all: seq<Key>, p: int,
                     names: seq<seq<byte>>, inodes: seq<Inode>)
    requires Inv(s) && AreEntries(s.meta, lives, p, all, names, inodes)
    requires forall k :: k in all ==> IsChild(k, p)
    requires forall n :: CString(n) && NameKey(p, n) in s.meta ==> NameKey(p, n) in all
    requires forall i, j :: 0 <= i < j < |all| ==> all[i] != all[j]
    ensures IsListing(s.meta, lives, p, names, inodes)
  {
    hide Inv, InodeKey, NameKey;
    forall n | CString(n) && NameKey(p, n) in s.meta ensures n in names {
      var i :| 0 <= i < |all| && all[i] == NameKey(p, n);
      NameKeyInjective(p, names[i], p, n);
    }
    forall i | 0 <= i < |names| ensures CString(names[i]) && IsEntryOf(s.meta, lives[i], p, names[i], inodes[i]) {
      assert all[i] in all;
      var n :| CString(n) && all[i] == NameKey(p, n);
      NameKeyInjective(p, names[i], p, n);
      ChildEntry(s, all[i], p);
    }
    forall i, j | 0 <= i < j < |names| ensures names[i] != names[j] {
      assert all[i] != all[j];
    }
  }

  // After every run that has handed out no number from 24368 on, every directory is listed right.
  lemma SmallRunListsAll(sk: Key, firstIno: nat, steps: seq<Step>, p: int)
    requires SeedKey(sk) && firstIno + |steps| <= TWO56
    requires var s := Run(Fresh(sk, firstIno), steps); s.seed <= 24368
    ensures var s := Run(Fresh(sk, firstIno), steps); Inv(s) && NoLookalike(s.meta, p)
  {
    FreshInv(sk, firstIno);
    RunInv(Fresh(sk, firstIno), steps);
    SmallSeedIsEnough(Run(Fresh(sk, firstIno), steps), p);
  }
}
