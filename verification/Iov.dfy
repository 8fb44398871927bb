/** Scatter/gather buffers: a list of buffers read as one sequence, with a cursor into it. */
module Iov {
  import opened Bytes

  function Concat<T>(iov: seq<seq<T>>): seq<T> {
    if iov == [] then [] else iov[0] + Concat(iov[1..])
  }

  // Position of a cursor (buffer index, offset inside that buffer) in the concatenation.
  function Cursor<T>(iov: seq<seq<T>>, idx: nat, inOff: nat): nat
    requires idx <= |iov|
  {
    |Concat(iov[..idx])| + inOff
  }

  // Cursors the loops keep: inside a buffer, at its end, or past the last buffer.
  predicate CursorOk<T>(iov: seq<seq<T>>, idx: nat, inOff: nat) {
    if idx < |iov| then inOff <= |iov[idx]| else idx == |iov| && inOff == 0
  }

  lemma CursorStart<T>(iov: seq<seq<T>>)
    ensures CursorOk(iov, 0, 0) && Cursor(iov, 0, 0) == 0
  {
    assert iov[..0] == [];
  }

  lemma {:induction false} ConcatAppend<T>(a: seq<seq<T>>, b: seq<seq<T>>)
    ensures Concat(a + b) == Concat(a) + Concat(b)
    decreases |a|
  {
    if a == [] {
      assert a + b == b;
    } else {
      assert (a + b)[1..] == a[1..] + b;
      ConcatAppend(a[1..], b);
    }
  }

  lemma ConcatTake<T>(iov: seq<seq<T>>, idx: nat)
    requires idx < |iov|
    ensures Concat(iov[..idx + 1]) == Concat(iov[..idx]) + iov[idx]
  {
    var single := [iov[idx]];
    assert iov[..idx + 1] == iov[..idx] + single;
    ConcatAppend(iov[..idx], single);
    assert single[1..] == [];
  }

  lemma ConcatSplit<T>(iov: seq<seq<T>>, idx: nat)
    requires idx < |iov|
    ensures Concat(iov) == Concat(iov[..idx]) + iov[idx] + Concat(iov[idx + 1..])
  {
    assert iov == iov[..idx + 1] + iov[idx + 1..];
    ConcatAppend(iov[..idx + 1], iov[idx + 1..]);
    ConcatTake(iov, idx);
  }

  // A cursor with bytes left before it reaches the end is inside some buffer.
  lemma CursorInside<T>(iov: seq<seq<T>>, idx: nat)
    requires idx <= |iov| && Cursor(iov, idx, 0) < |Concat(iov)|
    ensures idx < |iov|
  {
    assert iov[..|iov|] == iov;
  }

  // Reading k bytes at a cursor reads them from the concatenation.
  lemma ReadAtCursor<T>(iov: seq<seq<T>>, idx: nat, inOff: nat, k: nat)
    requires idx < |iov| && inOff + k <= |iov[idx]|
    ensures var p := Cursor(iov, idx, inOff);
            p + k <= |Concat(iov)| && iov[idx][inOff..inOff + k] == Concat(iov)[p..p + k]
  {
    ConcatSplit(iov, idx);
  }

  // Stepping past a buffer's end is moving the cursor to the start of the next one.
  lemma CursorNext<T>(iov: seq<seq<T>>, idx: nat)
    requires idx < |iov|
    ensures Cursor(iov, idx + 1, 0) == Cursor(iov, idx, |iov[idx]|) <= |Concat(iov)|
  {
    ConcatTake(iov, idx);
    ConcatSplit(iov, idx);
  }

  function Splice(s: seq<byte>, p: nat, src: seq<byte>): seq<byte>
    requires p + |src| <= |s|
  {
    s[..p] + src + s[p + |src|..]
  }

  /* ---- Buffers in memory ---- */

  // struct iovec: a range of the caller's memory.  Ranges may overlap.
  datatype Iovec = Iovec(base: nat, len: nat)

  predicate InMemory(iov: seq<Iovec>, size: nat) {
    forall i :: 0 <= i < |iov| ==> iov[i].base + iov[i].len <= size
  }

  function Range(base: nat, len: nat): (r: seq<nat>)
    ensures |r| == len && forall i :: 0 <= i < len ==> r[i] == base + i
  {
    seq(len, i requires 0 <= i => base + i)
  }

  ghost function Ranges(iov: seq<Iovec>): (r: seq<seq<nat>>)
    ensures |r| == |iov| && forall i :: 0 <= i < |iov| ==> r[i] == Range(iov[i].base, iov[i].len)
  {
    seq(|iov|, i requires 0 <= i < |iov| => Range(iov[i].base, iov[i].len))
  }

  // The address of every byte of the buffers, in order.
  ghost function Addresses(iov: seq<Iovec>): seq<nat> {
    Concat(Ranges(iov))
  }

  ghost predicate AllBelow(addrs: seq<nat>, size: nat) {
    forall i :: 0 <= i < |addrs| ==> addrs[i] < size
  }

  lemma {:induction false} ConcatBelow(parts: seq<seq<nat>>, size: nat)
    requires forall i :: 0 <= i < |parts| ==> AllBelow(parts[i], size)
    ensures AllBelow(Concat(parts), size)
  {
    if parts != [] {
      ConcatBelow(parts[1..], size);
    }
  }

  lemma AddressesBelow(iov: seq<Iovec>, size: nat)
    requires InMemory(iov, size)
    ensures AllBelow(Addresses(iov), size)
  {
    ConcatBelow(Ranges(iov), size);
  }

  // Memory after src[0] went to addrs[0], then src[1] to addrs[1], and so on.
  ghost function Stored(mem: seq<byte>, addrs: seq<nat>, src: seq<byte>): (r: seq<byte>)
    requires |addrs| == |src| && AllBelow(addrs, |mem|)
    ensures |r| == |mem|
    decreases |src|
  {
    if src == [] then mem
    else
      var k := |src| - 1;
      Stored(mem, addrs[..k], src[..k])[addrs[k] := src[k]]
  }

  lemma {:induction false} StoredConcat(mem: seq<byte>, a: seq<nat>, s: seq<byte>, b: seq<nat>, t: seq<byte>)
    requires |a| == |s| && |b| == |t| && AllBelow(a, |mem|) && AllBelow(b, |mem|)
    ensures AllBelow(a + b, |mem|) && Stored(Stored(mem, a, s), b, t) == Stored(mem, a + b, s + t)
    decreases |t|
  {
    if t == [] {
      assert a + b == a && s + t == s;
    } else {
      var k := |t| - 1;
      StoredConcat(mem, a, s, b[..k], t[..k]);
      assert (a + b)[..|a| + k] == a + b[..k] && (s + t)[..|s| + k] == s + t[..k];
    }
  }

  lemma {:induction false} StoredInRange(mem: seq<byte>, base: nat, src: seq<byte>)
    requires base + |src| <= |mem|
    ensures AllBelow(Range(base, |src|), |mem|) && Stored(mem, Range(base, |src|), src) == Splice(mem, base, src)
    decreases |src|
  {
    if src != [] {
      var k := |src| - 1;
      StoredInRange(mem, base, src[..k]);
      assert Range(base, |src|)[..k] == Range(base, k);
    }
  }

  /* ---- What the buffers hold afterwards ---- */

  ghost predicate Distinct(addrs: seq<nat>) {
    forall i, j :: 0 <= i < j < |addrs| ==> addrs[i] != addrs[j]
  }

  ghost function ReadBack(mem: seq<byte>, addrs: seq<nat>): (r: seq<byte>)
    requires AllBelow(addrs, |mem|)
    ensures |r| == |addrs| && forall i :: 0 <= i < |r| ==> r[i] == mem[addrs[i]]
  {
    seq(|addrs|, i requires 0 <= i < |addrs| => mem[addrs[i]])
  }

  // Addresses that are not written keep their byte.
  lemma {:induction false} StoredElsewhere(mem: seq<byte>, addrs: seq<nat>, src: seq<byte>, a: nat)
    requires |addrs| == |src| && AllBelow(addrs, |mem|) && a < |mem| && a !in addrs
    ensures Stored(mem, addrs, src)[a] == mem[a]
    decreases |src|
  {
    if src != [] {
      var k := |src| - 1;
      assert addrs[k] in addrs && forall x :: x in addrs[..k] ==> x in addrs;
      StoredElsewhere(mem, addrs[..k], src[..k], a);
    }
  }

  // The last byte written to an address is the one that stays.
  lemma {:induction false} LastStoreStays(mem: seq<byte>, addrs: seq<nat>, src: seq<byte>, i: nat)
    requires |addrs| == |src| && AllBelow(addrs, |mem|) && i < |src|
    requires forall j :: i < j < |addrs| ==> addrs[j] != addrs[i]
    ensures Stored(mem, addrs, src)[addrs[i]] == src[i]
    decreases |src|
  {
    var k := |src| - 1;
    if i < k {
      LastStoreStays(mem, addrs[..k], src[..k], i);
    }
  }

  // Buffers that share no memory hold the first bytes handed out to them, and otherwise what they held.
  lemma SeparateBuffersHold(mem: seq<byte>, addrs: seq<nat>, src: seq<byte>)
    requires AllBelow(addrs, |mem|) && Distinct(addrs) && |src| <= |addrs|
    ensures ReadBack(Stored(mem, addrs[..|src|], src), addrs) == src + ReadBack(mem, addrs)[|src|..]
  {
    hide Stored, ReadBack, Distinct;
    var back, was := ReadBack(Stored(mem, addrs[..|src|], src), addrs), ReadBack(mem, addrs);
    forall i: nat | i < |addrs| ensures back[i] == if i < |src| then src[i] else was[i] {
      HeldByte(mem, addrs, src, i);
    }
    SameParts(back, src, was);
  }

  lemma SameParts(a: seq<byte>, b: seq<byte>, c: seq<byte>)
    requires |b| <= |a| == |c| && forall i: nat :: i < |a| ==> a[i] == if i < |b| then b[i] else c[i]
    ensures a == b + c[|b|..]
  {}

  lemma HeldByte(mem: seq<byte>, addrs: seq<nat>, src: seq<byte>, i: nat)
    requires AllBelow(addrs, |mem|) && Distinct(addrs) && |src| <= |addrs| && i < |addrs|
    ensures Stored(mem, addrs[..|src|], src)[addrs[i]] == if i < |src| then src[i] else mem[addrs[i]]
  {
    hide Stored;
    if i < |src| {
      LastStoreStays(mem, addrs[..|src|], src, i);
    } else {
      StoredElsewhere(mem, addrs[..|src|], src, addrs[i]);
    }
  }

  // Memory after src went to addrs gives src back.
  ghost predicate GivesBack(mem: seq<byte>, addrs: seq<nat>, src: seq<byte>)
    requires |src| == |addrs| && AllBelow(addrs, |mem|)
  {
    ReadBack(Stored(mem, addrs, src), addrs) == src
  }

  /** The buffers hold every content handed out to them, byte by byte, exactly when they share no memory. */
  lemma BuffersHoldIffDistinct(mem: seq<byte>, addrs: seq<nat>)
    requires AllBelow(addrs, |mem|)
    ensures (forall src: seq<byte> :: |src| == |addrs| ==> GivesBack(mem, addrs, src)) <==> Distinct(addrs)
  {
    hide Stored, ReadBack;
    if Distinct(addrs) {
      forall src: seq<byte> | |src| == |addrs| ensures GivesBack(mem, addrs, src) {
        SeparateBuffersHold(mem, addrs, src);
        assert addrs[..|src|] == addrs;
      }
    } else {
      var i: nat, j: nat :| i < j < |addrs| && addrs[i] == addrs[j];
      SharedByteIsLost(mem, addrs, i, j);
    }
  }

  lemma SharedByteIsLost(mem: seq<byte>, addrs: seq<nat>, i: nat, j: nat)
    requires AllBelow(addrs, |mem|) && i < j < |addrs| && addrs[i] == addrs[j]
    ensures !forall src: seq<byte> :: |src| == |addrs| ==> GivesBack(mem, addrs, src)
  {
    hide Stored, ReadBack;
    var src: seq<byte> := Zeros(|addrs|)[i := 1];
    var back := ReadBack(Stored(mem, addrs, src), addrs);
    assert back[i] == back[j] && src[i] == 1 && src[j] == 0;
    assert !GivesBack(mem, addrs, src);
  }

  /* ---- The loops ---- */

  method Memcpy(dst: array<byte>, at: nat, src: seq<byte>)
    requires at + |src| <= dst.Length
    modifies dst
    ensures dst[..] == Splice(old(dst[..]), at, src)
    ensures dst[at..at + |src|] == src
  {
    forall j | 0 <= j < |src| {
      dst[at + j] := src[j];
    }
  }

  // Memcpy right behind the part that is already filled.
  method MemcpyNext(dst: array<byte>, at: nat, src: seq<byte>)
    requires at + |src| <= dst.Length
    modifies dst
    ensures dst[0..at + |src|] == old(dst[0..at]) + src
  {
    Memcpy(dst, at, src);
  }

  // Memory after the first b bytes of src went to the buffers.
  ghost function StoredUpTo(mem: seq<byte>, iov: seq<Iovec>, src: seq<byte>, b: nat): (r: seq<byte>)
    requires InMemory(iov, |mem|) && b <= |src| <= |Addresses(iov)|
    ensures |r| == |mem|
  {
    AddressesBelow(iov, |mem|);
    Stored(mem, Addresses(iov)[..b], src[..b])
  }

  lemma NothingStored(mem: seq<byte>, iov: seq<Iovec>, src: seq<byte>)
    requires InMemory(iov, |mem|) && |src| <= |Addresses(iov)|
    ensures StoredUpTo(mem, iov, src, 0) == mem
  {}

  // Copying k bytes into one buffer at the cursor stores the next k bytes.
  lemma PieceStored(mem: seq<byte>, iov: seq<Iovec>, src: seq<byte>, b: nat, idx: nat, inOff: nat, k: nat)
    requires InMemory(iov, |mem|) && b + k <= |src| <= |Addresses(iov)|
    requires idx < |iov| && inOff + k <= iov[idx].len && Cursor(Ranges(iov), idx, inOff) == b
    ensures Splice(StoredUpTo(mem, iov, src, b), iov[idx].base + inOff, src[b..b + k])
         == StoredUpTo(mem, iov, src, b + k)
  {
    hide Concat, Splice, Stored;
    var addrs, at := Addresses(iov), iov[idx].base + inOff;
    AddressesBelow(iov, |mem|);
    ReadAtCursor(Ranges(iov), idx, inOff, k);
    assert addrs[b..b + k] == Range(at, k);
    StoredInRange(StoredUpTo(mem, iov, src, b), at, src[b..b + k]);
    StoredConcat(mem, addrs[..b], src[..b], addrs[b..b + k], src[b..b + k]);
    assert addrs[..b] + addrs[b..b + k] == addrs[..b + k] && src[..b] + src[b..b + k] == src[..b + k];
  }

  lemma SliceOfSlice(s: seq<byte>, b: nat, n: nat, off: nat, k: nat)
    requires b + n <= |s| && off + k <= n
    ensures s[b..b + n][off..off + k] == s[b + off..b + off + k]
  {
    var a, c := s[b..b + n][off..off + k], s[b + off..b + off + k];
    assert |a| == |c| == k;
    forall j | 0 <= j < k ensures a[j] == c[j] {
      assert a[j] == s[b..b + n][off + j] == s[b + off + j];
    }
  }

  /**
   The inner loops of vn_readv: hand out src[b..b + n] to the iovecs from a cursor on.  The bytes go to the
   addresses of the buffers in order, whether or not the buffers overlap.
   */
  method Scatter(mem: array<byte>, iov: seq<Iovec>, iovIdx: nat, inIovOff: nat, bytes: seq<byte>,
                 ghost src: seq<byte>, ghost before: seq<byte>, ghost b: nat)
    returns (idx: nat, inOff: nat)
    requires |before| == mem.Length && InMemory(iov, |before|)
    requires b + |bytes| <= |src| <= |Addresses(iov)| && bytes == src[b..b + |bytes|]
    requires CursorOk(Ranges(iov), iovIdx, inIovOff) && Cursor(Ranges(iov), iovIdx, inIovOff) == b
    requires mem[..] == StoredUpTo(before, iov, src, b)
    modifies mem
    ensures mem[..] == StoredUpTo(before, iov, src, b + |bytes|)
    ensures CursorOk(Ranges(iov), idx, inOff) && Cursor(Ranges(iov), idx, inOff) == b + |bytes|
  {
    hide StoredUpTo, Concat, Splice;
    idx, inOff := iovIdx, inIovOff;
    var off: nat, dataRemain: nat := 0, |bytes|;
    while dataRemain > 0
      invariant off + dataRemain == |bytes|
      invariant CursorOk(Ranges(iov), idx, inOff) && Cursor(Ranges(iov), idx, inOff) == b + off
      invariant mem[..] == StoredUpTo(before, iov, src, b + off)
      decreases dataRemain, |iov| - idx
    {
      CursorInside(Ranges(iov), idx);
      var iovRemain := iov[idx].len - inOff;
      var toCopy := Min(iovRemain, dataRemain);
      PieceStored(before, iov, src, b + off, idx, inOff, toCopy);
      SliceOfSlice(src, b, |bytes|, off, toCopy);
      Memcpy(mem, iov[idx].base + inOff, bytes[off..off + toCopy]);
      off, dataRemain, inOff := off + toCopy, dataRemain - toCopy, inOff + toCopy;
      if inOff == iov[idx].len {
        CursorNext(Ranges(iov), idx);
        idx, inOff := idx + 1, 0;
      }
    }
  }
}
