/**
 The keys of `meta_cf`.  One column family holds three kinds of entries under plain byte strings: names
 ("%ld_%s" of the parent number and the file name), inode records (the 8 raw bytes of the inode
 number) and two fixed strings.  This module proves that the kinds do not get in each other's way.
 */
module MetaKeys {
  import opened Bytes

  type Key = seq<byte>

  const UNDERSCORE: byte := 0x5f
  const MINUS: byte := 0x2d
  const DIGIT0: byte := 0x30

  // "__inode_seed__"; the proofs use only that it is a SeedKey.
  const INODE_SEED_KEY: Key := [0x5f, 0x5f, 0x69, 0x6e, 0x6f, 0x64, 0x65, 0x5f, 0x73, 0x65, 0x65, 0x64, 0x5f, 0x5f]

  // "vivefs_sb"
  const SUPERBLOCK_KEY: Key := [0x76, 0x69, 0x76, 0x65, 0x66, 0x73, 0x5f, 0x73, 0x62]

  // A C string carries no NUL byte.
  predicate CString(s: seq<byte>) {
    forall i :: 0 <= i < |s| ==> s[i] != 0
  }

  predicate IsDigit(b: byte) {
    DIGIT0 <= b <= DIGIT0 + 9
  }

  // What is known of INODE_SEED_KEY: a C string that is no name and not the superblock key.
  predicate SeedKey(k: Key) {
    CString(k) && k != [] && !IsDigit(k[0]) && k[0] != MINUS && k != SUPERBLOCK_KEY
  }

  /* ---- "%ld" ---- */

  function DecNat(n: nat): seq<byte> {
    if n < 10 then [DIGIT0 + n] else DecNat(n / 10) + [DIGIT0 + n % 10]
  }

  function Dec(p: int): seq<byte> {
    if p < 0 then [MINUS] + DecNat(-p) else DecNat(p)
  }

  function NatOf(d: seq<byte>): int {
    if d == [] then 0 else 10 * NatOf(d[..|d| - 1]) + (d[|d| - 1] - DIGIT0)
  }

  function IntOf(d: seq<byte>): int {
    if d != [] && d[0] == MINUS then -NatOf(d[1..]) else NatOf(d)
  }

  lemma {:induction false} DecNatSpec(n: nat)
    ensures DecNat(n) != []
    ensures forall i :: 0 <= i < |DecNat(n)| ==> IsDigit(DecNat(n)[i])
    ensures NatOf(DecNat(n)) == n
  {
    if n < 10 {
      assert [DIGIT0 + n][..0] == [];
    } else {
      DecNatSpec(n / 10);
      var d := DecNat(n);
      assert d[..|d| - 1] == DecNat(n / 10);
    }
  }

  // n without its last j decimal digits.
  function DropDigits(n: nat, j: nat): nat {
    if j == 0 then n else DropDigits(n / 10, j - 1)
  }

  // The digits of n, most significant first, without leading zeros.
  lemma {:induction false} DecNatDigits(n: nat, j: nat)
    requires j < |DecNat(n)|
    ensures DecNat(n)[|DecNat(n)| - 1 - j] == 0x30 + DropDigits(n, j) % 10
    ensures n >= 10 ==> DecNat(n)[0] != 0x30
    decreases n
  {
    if n >= 10 {
      DecNatSpec(n / 10);
      DecNatDigits(n / 10, if j == 0 then 0 else j - 1);
    }
  }

  // "%ld_%s"
  lemma NameKeyFormat(p: int, n: seq<byte>)
    ensures NameKey(p, n) == (if p < 0 then [0x2d] + DecNat(-p) else DecNat(p)) + [0x5f] + n
  {}

  lemma DecSpec(p: int)
    ensures Dec(p) != []
    ensures IsDigit(Dec(p)[0]) || Dec(p)[0] == MINUS
    ensures forall i :: 0 <= i < |Dec(p)| ==> Dec(p)[i] != UNDERSCORE && Dec(p)[i] != 0
    ensures IntOf(Dec(p)) == p
  {
    DecNatSpec(if p < 0 then -p else p);
    if p < 0 {
      assert Dec(p)[1..] == DecNat(-p);
    }
  }

  /* ---- "%ld_%s" ---- */

  function Prefix(parent: int): Key {
    Dec(parent) + [UNDERSCORE]
  }

  function NameKey(parent: int, name: seq<byte>): Key {
    Prefix(parent) + name
  }

  // Index of the first underscore, or the length if there is none.
  function FirstUnderscore(k: Key): (i: nat)
    ensures i <= |k|
  {
    if k == [] || k[0] == UNDERSCORE then 0 else 1 + FirstUnderscore(k[1..])
  }

  function ParseKey(k: Key): (int, seq<byte>) {
    var i := FirstUnderscore(k);
    if i < |k| then (IntOf(k[..i]), k[i + 1..]) else (0, [])
  }

  lemma {:induction false} FirstUnderscoreAfter(d: seq<byte>, rest: seq<byte>)
    requires UNDERSCORE !in d
    ensures FirstUnderscore(d + [UNDERSCORE] + rest) == |d|
  {
    var k := d + [UNDERSCORE] + rest;
    if d != [] {
      assert k[1..] == d[1..] + [UNDERSCORE] + rest;
      FirstUnderscoreAfter(d[1..], rest);
    }
  }

  // Splitting at the first underscore recovers both parts, whatever the name contains.
  lemma NameKeyRoundTrip(parent: int, name: seq<byte>)
    ensures ParseKey(NameKey(parent, name)) == (parent, name)
  {
    DecSpec(parent);
    var k := NameKey(parent, name);
    FirstUnderscoreAfter(Dec(parent), name);
    assert k[..|Dec(parent)|] == Dec(parent);
    assert k[|Dec(parent)| + 1..] == name;
  }

  lemma NameKeyInjective(p: int, n: seq<byte>, p': int, n': seq<byte>)
    requires NameKey(p, n) == NameKey(p', n')
    ensures p == p' && n == n'
  {
    NameKeyRoundTrip(p, n);
    NameKeyRoundTrip(p', n');
  }

  predicate StartsWith(k: Key, prefix: Key) {
    |prefix| <= |k| && k[..|prefix|] == prefix
  }

  // A name key starts with "p_" exactly when its parent is p.
  lemma PrefixSelectsParent(parent: int, name: seq<byte>, p: int)
    ensures StartsWith(NameKey(parent, name), Prefix(p)) <==> parent == p
  {
    if StartsWith(NameKey(parent, name), Prefix(p)) {
      var k := NameKey(parent, name);
      assert k == NameKey(p, k[|Prefix(p)|..]);
      NameKeyInjective(parent, name, p, k[|Prefix(p)|..]);
    }
  }

  /* ---- Raw inode keys ---- */

  function InodeKey(ino: nat): Key {
    Le(ino, 8)
  }

  // The 8 bytes of the number, lowest first.
  lemma InodeKeyLayout(ino: nat)
    requires ino < TWO64
    ensures |InodeKey(ino)| == 8 && LeValue(InodeKey(ino)) == ino
  {
    Le64RoundTrip(ino);
  }

  lemma InodeKeyInjective(m: nat, n: nat)
    requires m < TWO64 && n < TWO64 && InodeKey(m) == InodeKey(n)
    ensures m == n
  {
    Pow256Of8();
    var k := 8;
    assert Le(m, k) == Le(n, k);
    LeInjective(m, n, k);
  }

  // Below 2^56 the last key byte is NUL, which no C string contains.
  lemma InodeKeyIsNoCString(ino: nat, k: Key)
    requires ino < TWO56 && CString(k)
    ensures InodeKey(ino) != k
  {
    Pow256Of8();
    var j := 8;
    LeHighByteZero(ino, 7, j);
    assert Le(ino, j)[7] == 0;
  }

  lemma NameKeyIsCString(parent: int, name: seq<byte>)
    requires CString(name)
    ensures CString(NameKey(parent, name))
  {
    DecSpec(parent);
  }

  // The bound cannot be dropped: a name key is some raw inode key exactly when it is 8 bytes long,
  // and that inode number is then at least 2^56.
  lemma NameKeyIsInodeKey(parent: int, name: seq<byte>)
    requires CString(name)
    ensures (exists ino: nat :: ino < TWO64 && InodeKey(ino) == NameKey(parent, name)) <==> |NameKey(parent, name)| == 8
    ensures forall ino: nat :: InodeKey(ino) == NameKey(parent, name) ==> ino >= TWO56
  {
    var k := NameKey(parent, name);
    NameKeyIsCString(parent, name);
    if |k| == 8 {
      Pow256Of8();
      LeOfValue(k);
      assert InodeKey(LeValue(k)) == k;
    }
    forall ino: nat | InodeKey(ino) == k ensures ino >= TWO56 {
      if ino < TWO56 {
        InodeKeyIsNoCString(ino, k);
      }
    }
  }

  lemma FixedKeysAreNoNames(k: Key, parent: int, name: seq<byte>)
    requires k == SUPERBLOCK_KEY || SeedKey(k)
    ensures NameKey(parent, name) != k
  {
    DecSpec(parent);
    assert NameKey(parent, name)[0] == Dec(parent)[0];
  }

  /* ---- Raw inode keys and directory prefixes ---- */

  // A raw inode key starts with a prefix exactly when its low bytes spell it.
  lemma InodeKeyStartsWith(ino: nat, prefix: Key)
    ensures StartsWith(InodeKey(ino), prefix)
       <==> |prefix| <= 8 && ino % Pow256(|prefix|) == LeValue(prefix)
  {
    if |prefix| <= 8 {
      LePrefix(ino, |prefix|, 8);
      LeRoundTrip(ino, |prefix|);
      if LeValue(Le(ino, |prefix|)) == LeValue(prefix) {
        LeValueInjective(Le(ino, |prefix|), prefix);
      }
    }
  }

  lemma {:induction false} LeValueInjective(a: seq<byte>, b: seq<byte>)
    requires |a| == |b| && LeValue(a) == LeValue(b)
    ensures a == b
  {
    if a != [] {
      assert a[0] == b[0];
      LeValueInjective(a[1..], b[1..]);
      assert a == [a[0]] + a[1..] && b == [b[0]] + b[1..];
    }
  }

  // Every directory prefix has a little-endian value of at least 0x5f30, so smaller inode numbers are safe.
  lemma SmallInodesAreSafe(ino: nat, parent: int)
    requires ino < LeValue(Prefix(parent)) || ino < 24368
    ensures !StartsWith(InodeKey(ino), Prefix(parent))
  {
    var prefix := Prefix(parent);
    DecSpec(parent);
    InodeKeyStartsWith(ino, prefix);
    PrefixValue(Dec(parent));
    DivModDef(ino, Pow256(|prefix|));
    if StartsWith(InodeKey(ino), prefix) {
      ModAtMost(ino, Pow256(|prefix|));
    }
  }

  lemma ModAtMost(n: nat, m: nat)
    requires m > 0
    ensures n % m <= n
  {
    DivModDef(n, m);
    if n < m {
      DivModUnique(n, m, 0, n);
    }
  }

  lemma PrefixValue(d: seq<byte>)
    requires d != []
    requires IsDigit(d[0]) || (|d| > 1 && d[0] == MINUS)
    ensures LeValue(d + [UNDERSCORE]) >= 24368
  {
    var k := d + [UNDERSCORE];
    if |d| == 1 {
      assert k[1..] == [UNDERSCORE] && k[1..][1..] == [];
      assert LeValue([UNDERSCORE]) == 0x5f;
    } else {
      assert k[1..] == d[1..] + [UNDERSCORE];
      LastByteCounts(d[1..], UNDERSCORE);
    }
  }

  lemma {:induction false} LastByteCounts(d: seq<byte>, b: byte)
    requires d != []
    ensures LeValue(d + [b]) >= 256 * b
  {
    assert (d + [b])[1..] == d[1..] + [b];
    if |d| == 1 {
      assert d[1..] + [b] == [b] && [b][1..] == [];
    } else {
      LastByteCounts(d[1..], b);
    }
  }
}
