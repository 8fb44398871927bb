/**
 How a file's bytes lie in `data_cf`: extent keys, the cut of a byte range into segments, and the
 byte-level meaning of committing a write or a truncation.
 */
module Extents {
  import opened Bytes
  import opened MergeLog

  type DataKey = seq<byte>
  type DataCf = map<DataKey, Log>

  const VIVEFS_EXTENT_SIZE: nat := 65536

  // The extent size stays symbolic; VIVEFS_EXTENT_SIZE is one that fits the 16-bit merge offset.
  predicate ExtentSize(e: nat) {
    0 < e <= 65536
  }

  // Byte positions the file system can address without overflowing off_t.
  predicate InRange(e: nat, off: nat, len: nat) {
    off + len + e <= TWO63
  }

  /* ---- Keys ---- */

  function ExtentKey(index: nat, ino: nat): DataKey {
    Le(index, 8) + Le(ino, 8)
  }

  lemma ExtentKeyInjective(i: nat, m: nat, j: nat, n: nat)
    requires i < TWO64 && m < TWO64 && j < TWO64 && n < TWO64
    requires ExtentKey(i, m) == ExtentKey(j, n)
    ensures i == j && m == n
  {
    Pow256Of8();
    var k := 8;
    assert Le(i, k) == ExtentKey(i, m)[..k] && Le(j, k) == ExtentKey(j, n)[..k];
    assert Le(m, k) == ExtentKey(i, m)[k..] && Le(n, k) == ExtentKey(j, n)[k..];
    LeInjective(i, j, k);
    LeInjective(m, n, k);
  }

  // 16 bytes: the extent index first, then the inode number.
  lemma ExtentKeyLayout(index: nat, ino: nat)
    requires index < TWO64 && ino < TWO64
    ensures var k := ExtentKey(index, ino); |k| == 16 && LeValue(k[..8]) == index && LeValue(k[8..]) == ino
  {
    hide Le, LeValue;
    var k := ExtentKey(index, ino);
    assert k[..8] == Le(index, 8) && k[8..] == Le(ino, 8);
    Le64RoundTrip(index);
    Le64RoundTrip(ino);
  }

  /* ---- The store: one merge log per key ---- */

  function LogOf(data: DataCf, k: DataKey): Log {
    if k in data then data[k] else []
  }

  function Extent(data: DataCf, e: nat, ino: nat, index: nat): Option<seq<byte>> {
    Resolve(e, LogOf(data, ExtentKey(index, ino)))
  }

  ghost predicate WellFormed(e: nat, data: DataCf) {
    forall k, op :: k in data && op in data[k] ==> Fits(e, op)
  }

  datatype DataOp = DataOp(key: DataKey, op: Op)

  function CommitOne(data: DataCf, d: DataOp): DataCf {
    data[d.key := LogOf(data, d.key) + [d.op]]
  }

  function CommitData(data: DataCf, ops: seq<DataOp>): DataCf
    decreases |ops|
  {
    if ops == [] then data else CommitData(CommitOne(data, ops[0]), ops[1..])
  }

  /* ---- Its meaning: a map from (inode number, extent index) to extents ---- */

  type ExtentMap = imap<(nat, nat), seq<byte>>

  ghost function ExtentsOf(data: DataCf, e: nat): ExtentMap {
    imap k: (nat, nat) | k.0 < TWO64 && k.1 < TWO64 && Extent(data, e, k.0, k.1).Some?
      :: Extent(data, e, k.0, k.1).value
  }

  ghost function Apply(x: ExtentMap, e: nat, k: (nat, nat), op: Op): ExtentMap {
    match op
    case Put(b) => x[k := b]
    case Merge(d) => x[k := Overlay(if k in x then x[k] else Zeros(e), d)]
    case Delete => x - {k}
  }

  // All extents of the map have e bytes.
  ghost predicate Full(x: ExtentMap, e: nat) {
    forall k :: k in x ==> |x[k]| == e
  }

  lemma CommitOneElsewhere(data: DataCf, e: nat, ino: nat, index: nat, op: Op, ino': nat, index': nat)
    requires ino < TWO64 && index < TWO64 && ino' < TWO64 && index' < TWO64
    requires ino != ino' || index != index'
    ensures Extent(CommitOne(data, DataOp(ExtentKey(index, ino), op)), e, ino', index')
         == Extent(data, e, ino', index')
  {
    if ExtentKey(index', ino') == ExtentKey(index, ino) {
      ExtentKeyInjective(index', ino', index, ino);
    }
  }

  lemma CommitOneHere(data: DataCf, e: nat, ino: nat, index: nat, op: Op)
    ensures Extent(CommitOne(data, DataOp(ExtentKey(index, ino), op)), e, ino, index)
         == ApplyOp(e, Extent(data, e, ino, index), op)
  {
    ResolveAppend(e, LogOf(data, ExtentKey(index, ino)), op);
  }

  // Keys do not collide, so a committed operation reaches exactly one extent of one file.
  lemma CommitOneMeaning(data: DataCf, e: nat, ino: nat, index: nat, op: Op)
    requires ino < TWO64 && index < TWO64
    ensures ExtentsOf(CommitOne(data, DataOp(ExtentKey(index, ino), op)), e)
         == Apply(ExtentsOf(data, e), e, (ino, index), op)
  {
    var data' := CommitOne(data, DataOp(ExtentKey(index, ino), op));
    var x, x' := ExtentsOf(data, e), ExtentsOf(data', e);
    var y := Apply(x, e, (ino, index), op);
    CommitOneHere(data, e, ino, index, op);
    forall k: (nat, nat)
      ensures k in x' <==> k in y
      ensures k in x' ==> x'[k] == y[k]
    {
      if k != (ino, index) && k.0 < TWO64 && k.1 < TWO64 {
        CommitOneElsewhere(data, e, ino, index, op, k.0, k.1);
      }
    }
  }

  lemma WellFormedIsFull(data: DataCf, e: nat)
    requires WellFormed(e, data)
    ensures Full(ExtentsOf(data, e), e)
  {
    forall k: (nat, nat) | k in ExtentsOf(data, e)
      ensures |ExtentsOf(data, e)[k]| == e
    {
      ResolveIsFullExtent(e, LogOf(data, ExtentKey(k.1, k.0)));
    }
  }

  lemma CommitOneWellFormed(data: DataCf, e: nat, d: DataOp)
    requires WellFormed(e, data) && Fits(e, d.op)
    ensures WellFormed(e, CommitOne(data, d))
  {}

  // The store compacts the log of one key.
  function Compacted(e: nat, data: DataCf, key: DataKey, rewrite: LogEvent): DataCf {
    data[key := LogStep(e, LogOf(data, key), rewrite)]
  }

  lemma CompactionKeepsWellFormed(e: nat, data: DataCf, key: DataKey, rewrite: LogEvent)
    requires WellFormed(e, data) && !rewrite.Append?
    ensures WellFormed(e, Compacted(e, data, key, rewrite))
  {
    RewriteKeepsFits(e, LogOf(data, key), rewrite);
  }

  lemma CompactionKeepsPresence(e: nat, data: DataCf, key: DataKey, rewrite: LogEvent, k: (nat, nat))
    requires !rewrite.Append?
    ensures k in ExtentsOf(Compacted(e, data, key, rewrite), e) <==> k in ExtentsOf(data, e)
  {
    hide LogStep, Resolve, ExtentKey;
    RewriteKeepsPresence(e, LogOf(data, key), rewrite);
  }

  // A compaction, harmless or not, changes bytes only to zero.
  lemma CompactionOnlyClears(e: nat, data: DataCf, key: DataKey, rewrite: LogEvent, k: (nat, nat))
    requires !rewrite.Append? && k in ExtentsOf(data, e)
    ensures var x, y := ExtentsOf(data, e), ExtentsOf(Compacted(e, data, key, rewrite), e);
            && k in y && |x[k]| == |y[k]|
            && forall r :: 0 <= r < |x[k]| ==> y[k][r] == x[k][r] || y[k][r] == 0
  {
    hide LogStep, Resolve, ExtentKey;
    RewriteOnlyClears(e, LogOf(data, key), rewrite);
  }

  // Every 16-byte key is the key of some extent of some file.
  lemma KeyOfSomeExtent(key: DataKey) returns (index: nat, ino: nat)
    requires |key| == 16
    ensures index < TWO64 && ino < TWO64 && key == ExtentKey(index, ino)
  {
    index, ino := LeValue(key[..8]), LeValue(key[8..]);
    LeOfValue(key[..8]);
    LeOfValue(key[8..]);
    Pow256Of8();
    assert key == key[..8] + key[8..];
  }

  // The rewrite of a key's log shows no wrong byte; a key of another length belongs to no extent.
  ghost predicate HarmlessCompaction(e: nat, data: DataCf, key: DataKey, rewrite: LogEvent) {
    |key| == 16 ==> Harmless(e, LogOf(data, key), rewrite)
  }

  /** Compacting one log leaves all extents of all files alone exactly when the rewrite is harmless. */
  lemma CompactionKeepsExtentsIff(e: nat, data: DataCf, key: DataKey, rewrite: LogEvent)
    requires !rewrite.Append?
    ensures ExtentsOf(Compacted(e, data, key, rewrite), e) == ExtentsOf(data, e)
       <==> HarmlessCompaction(e, data, key, rewrite)
  {
    hide LogStep, Resolve, ExtentKey, Harmless;
    var log, data' := LogOf(data, key), Compacted(e, data, key, rewrite);
    RewriteKeepsMeaningIff(e, log, rewrite);
    forall k: (nat, nat) | ExtentKey(k.1, k.0) != key
      ensures Extent(data', e, k.0, k.1) == Extent(data, e, k.0, k.1)
    {
      assert LogOf(data', ExtentKey(k.1, k.0)) == LogOf(data, ExtentKey(k.1, k.0));
    }
    if |key| == 16 {
      var index, ino := KeyOfSomeExtent(key);
      SameExtentIff(e, data, data', ino, index);
    } else {
      forall k: (nat, nat) ensures ExtentKey(k.1, k.0) != key {
        assert |ExtentKey(k.1, k.0)| == 16 by { KeyLength(k.1, k.0); }
      }
    }
  }

  lemma KeyLength(index: nat, ino: nat)
    ensures |ExtentKey(index, ino)| == 16
  {}

  lemma SameExtentIff(e: nat, data: DataCf, data': DataCf, ino: nat, index: nat)
    requires ino < TWO64 && index < TWO64
    requires forall k: (nat, nat) :: ExtentKey(k.1, k.0) != ExtentKey(index, ino) ==>
               Extent(data', e, k.0, k.1) == Extent(data, e, k.0, k.1)
    ensures ExtentsOf(data', e) == ExtentsOf(data, e)
       <==> Resolve(e, LogOf(data', ExtentKey(index, ino))) == Resolve(e, LogOf(data, ExtentKey(index, ino)))
  {
    hide Resolve, ExtentKey;
    var x, x' := ExtentsOf(data, e), ExtentsOf(data', e);
    if x == x' {
      assert (ino, index) in x <==> (ino, index) in x';
      if (ino, index) in x {
        assert x[(ino, index)] == x'[(ino, index)];
      }
    }
    if Extent(data', e, ino, index) == Extent(data, e, ino, index) {
      forall k: (nat, nat) ensures Extent(data', e, k.0, k.1) == Extent(data, e, k.0, k.1) {}
    }
  }

  /* ---- Cutting a range into segments ---- */

  datatype Segment = Segment(index: nat, startOff: nat, data: seq<byte>) {
    function Pos(e: nat): nat { index * e + startOff }
  }

  function SegmentLen(e: nat, off: nat, remain: nat): (k: nat)
    requires e > 0
    ensures OffsetIn(off, e) + k <= e && k <= remain
    ensures remain > 0 ==> k > 0
  {
    Min(remain, e - OffsetIn(off, e))
  }

  function Tile(e: nat, off: nat, buf: seq<byte>): seq<Segment>
    requires e > 0
    decreases |buf|
  {
    if buf == [] then []
    else
      var k := SegmentLen(e, off, |buf|);
      [Segment(ExtentOf(off, e), OffsetIn(off, e), buf[..k])] + Tile(e, off + k, buf[k..])
  }

  // The loop of vn_write runs once, with an empty segment, for an empty write inside an extent.
  function WriteSegments(e: nat, off: nat, buf: seq<byte>): seq<Segment>
    requires e > 0
  {
    if buf == [] && OffsetIn(off, e) != 0 then [Segment(ExtentOf(off, e), OffsetIn(off, e), [])] else Tile(e, off, buf)
  }

  function SegmentOp(e: nat, s: Segment): Op {
    if |s.data| != e then Merge(Delta(s.startOff % 65536, s.data)) else Put(s.data)
  }

  // Staging a segment may fail; the writer only logs it, so the rest still commits.
  function StageSegments(e: nat, ino: nat, segs: seq<Segment>, failed: set<nat>): seq<DataOp> {
    if segs == [] then []
    else StageSegment(e, ino, segs[0], failed) + StageSegments(e, ino, segs[1..], failed)
  }

  function StageSegment(e: nat, ino: nat, s: Segment, failed: set<nat>): seq<DataOp> {
    if s.index in failed then [] else [DataOp(ExtentKey(s.index, ino), SegmentOp(e, s))]
  }

  /* ---- The segments tile the range ---- */

  function Gathered(segs: seq<Segment>): seq<byte> {
    if segs == [] then [] else segs[0].data + Gathered(segs[1..])
  }

  ghost predicate InsideExtent(e: nat, s: Segment) {
    0 < |s.data| && s.startOff + |s.data| <= e
  }

  // No gap, no overlap: the first segment starts at off, each next one where the previous ended.
  ghost predicate Abut(e: nat, off: nat, segs: seq<Segment>) {
    && (segs != [] ==> segs[0].Pos(e) == off)
    && forall i :: 0 < i < |segs| ==> segs[i].Pos(e) == segs[i - 1].Pos(e) + |segs[i - 1].data|
  }

  lemma {:induction false} TileGathers(e: nat, off: nat, buf: seq<byte>)
    requires e > 0
    ensures Gathered(Tile(e, off, buf)) == buf
    decreases |buf|
  {
    if buf != [] {
      var k := SegmentLen(e, off, |buf|);
      var segs, rest := Tile(e, off, buf), Tile(e, off + k, buf[k..]);
      assert segs[0].data == buf[..k] && segs[1..] == rest;
      TileGathers(e, off + k, buf[k..]);
      assert Gathered(segs) == buf[..k] + Gathered(rest);
    }
  }

  // Each segment lies inside the extent it is keyed by, and consecutive segments have consecutive indices.
  lemma {:induction false} TileInside(e: nat, off: nat, buf: seq<byte>, i: nat)
    requires e > 0
    requires i < |Tile(e, off, buf)|
    ensures InsideExtent(e, Tile(e, off, buf)[i]) && Tile(e, off, buf)[i].index == ExtentOf(off, e) + i
    decreases |buf|
  {
    if i > 0 {
      var k := SegmentLen(e, off, |buf|);
      assert Tile(e, off, buf)[i] == Tile(e, off + k, buf[k..])[i - 1];
      TileInside(e, off + k, buf[k..], i - 1);
      assert k < |buf|;
      MoveToNext(off, e);
    }
  }

  // Every segment but the first starts its extent.
  lemma {:induction false} LaterSegmentsAreAligned(e: nat, off: nat, buf: seq<byte>, i: nat)
    requires e > 0 && 0 < i < |Tile(e, off, buf)|
    ensures Tile(e, off, buf)[i].startOff == 0
    decreases |buf|
  {
    hide ExtentOf, OffsetIn;
    var k := SegmentLen(e, off, |buf|);
    assert Tile(e, off, buf)[i] == Tile(e, off + k, buf[k..])[i - 1];
    assert k < |buf|;
    MoveToNext(off, e);
    if i > 1 {
      LaterSegmentsAreAligned(e, off + k, buf[k..], i - 1);
    }
  }

  lemma {:induction false} TileAbuts(e: nat, off: nat, buf: seq<byte>)
    requires e > 0
    ensures Abut(e, off, Tile(e, off, buf))
    decreases |buf|
  {
    if buf != [] {
      var k := SegmentLen(e, off, |buf|);
      var segs, rest := Tile(e, off, buf), Tile(e, off + k, buf[k..]);
      TileAbuts(e, off + k, buf[k..]);
      PositionOf(off, e);
      forall i | 0 < i < |segs|
        ensures segs[i].Pos(e) == segs[i - 1].Pos(e) + |segs[i - 1].data|
      {
        assert segs[i] == rest[i - 1];
        assert i > 1 ==> segs[i - 1] == rest[i - 2];
      }
    }
  }

  // The loop bounds start_ext and end_ext of the source enumerate exactly these segments.
  lemma {:induction false} TileCount(e: nat, off: nat, buf: seq<byte>)
    requires e > 0 && buf != []
    ensures ExtentOf(off, e) + |Tile(e, off, buf)| == ExtentCount(off + |buf|, e)
    decreases |buf|
  {
    var k := SegmentLen(e, off, |buf|);
    if k == |buf| {
      assert Tile(e, off + k, buf[k..]) == [];
      LastExtent(e, off, k);
    } else {
      MoveToNext(off, e);
      TileCount(e, off + k, buf[k..]);
    }
  }

  lemma LastExtent(e: nat, off: nat, k: nat)
    requires e > 0 && 0 < k && OffsetIn(off, e) + k <= e
    ensures ExtentCount(off + k, e) == ExtentOf(off, e) + 1
  {
    MoveWithin(off, e, k - 1);
  }

  // From an extent boundary on, every segment but the last fills its extent.
  lemma {:induction false} AlignedTileIsFull(e: nat, off: nat, buf: seq<byte>, i: nat)
    requires e > 0 && OffsetIn(off, e) == 0
    requires i + 1 < |Tile(e, off, buf)|
    ensures |Tile(e, off, buf)[i].data| == e
    decreases |buf|
  {
    var k := SegmentLen(e, off, |buf|);
    var segs, rest := Tile(e, off, buf), Tile(e, off + k, buf[k..]);
    assert segs[1..] == rest;
    assert buf[k..] != [] && k == e;
    if i > 0 {
      MoveToNext(off, e);
      AlignedTileIsFull(e, off + k, buf[k..], i - 1);
      assert segs[i] == rest[i - 1];
    }
  }

  // Only the first and the last segment can be a Merge.
  lemma TileMergesAtEnds(e: nat, off: nat, buf: seq<byte>, i: nat)
    requires e > 0
    requires 0 < i < |Tile(e, off, buf)| - 1
    ensures SegmentOp(e, Tile(e, off, buf)[i]).Put?
  {
    var k := SegmentLen(e, off, |buf|);
    var segs, rest := Tile(e, off, buf), Tile(e, off + k, buf[k..]);
    assert segs[1..] == rest;
    assert segs[i] == rest[i - 1];
    assert buf[k..] != [] && k == e - OffsetIn(off, e);
    MoveToNext(off, e);
    AlignedTileIsFull(e, off + k, buf[k..], i - 1);
  }

  // A Put starts its extent, the 16-bit cast of the offset is exact, and the operation fits the extent.
  lemma SegmentOpExact(e: nat, s: Segment)
    requires ExtentSize(e) && s.startOff < e && s.startOff + |s.data| <= e
    ensures SegmentOp(e, s).Put? <==> |s.data| == e
    ensures SegmentOp(e, s).Put? ==> s.startOff == 0 && SegmentOp(e, s).base == s.data
    ensures SegmentOp(e, s).Put? || SegmentOp(e, s).Merge?
    ensures SegmentOp(e, s).Merge? ==> SegmentOp(e, s).delta == Delta(s.startOff, s.data)
    ensures Fits(e, SegmentOp(e, s))
  {}

  /* ---- The assertion of _merge ---- */

  // data_bmp and merge_off share two bytes of the head.  Joining two deltas asserts that neither data_bmp is 0xffff.
  predicate AssertionHolds(l: Delta, r: Delta) {
    l.off % 65536 != 0xffff && r.off % 65536 != 0xffff
  }

  // The segment is staged as a delta that no join accepts, whatever its partner.
  ghost predicate BreaksAssertion(e: nat, s: Segment) {
    && SegmentOp(e, s).Merge?
    && forall d :: !AssertionHolds(SegmentOp(e, s).delta, d) && !AssertionHolds(d, SegmentOp(e, s).delta)
  }

  // A write stages such a delta exactly when it starts at the last byte of a 64 KB extent.
  lemma WriteBreaksAssertionIff(e: nat, off: nat, buf: seq<byte>)
    requires ExtentSize(e)
    ensures (exists s :: s in WriteSegments(e, off, buf) && BreaksAssertion(e, s))
       <==> e == VIVEFS_EXTENT_SIZE && OffsetIn(off, e) == 0xffff
  {
    hide ExtentOf, OffsetIn;
    var segs := WriteSegments(e, off, buf);
    forall i | 0 < i < |segs| ensures !BreaksAssertion(e, segs[i]) {
      LaterSegmentsAreAligned(e, off, buf, i);
      TileInside(e, off, buf, i);
      SegmentBreaksAssertionIff(e, segs[i]);
    }
    if segs != [] {
      assert segs[0].startOff == OffsetIn(off, e);
      SegmentBreaksAssertionIff(e, segs[0]);
    }
  }

  lemma SegmentBreaksAssertionIff(e: nat, s: Segment)
    requires ExtentSize(e) && s.startOff + |s.data| <= e && s.startOff < e
    ensures BreaksAssertion(e, s) <==> e == VIVEFS_EXTENT_SIZE && s.startOff == 0xffff
  {
    SegmentOpExact(e, s);
    assert s.startOff != 0xffff && SegmentOp(e, s).Merge? ==> AssertionHolds(SegmentOp(e, s).delta, Delta(0, []));
  }

  /* ---- Committing staged segments, on the extent map ---- */

  ghost predicate Addressable(e: nat, s: Segment) {
    s.index < TWO64 && s.startOff < e && s.startOff + |s.data| <= e
  }

  ghost function ApplySegments(x: ExtentMap, e: nat, ino: nat, segs: seq<Segment>, failed: set<nat>): ExtentMap
    decreases |segs|
  {
    if segs == [] then x
    else
      var s := segs[0];
      var x' := if s.index in failed then x else Apply(x, e, (ino, s.index), SegmentOp(e, s));
      ApplySegments(x', e, ino, segs[1..], failed)
  }

  lemma {:induction false} CommitSegmentsMeaning(data: DataCf, e: nat, ino: nat, segs: seq<Segment>, failed: set<nat>)
    requires ExtentSize(e) && WellFormed(e, data) && ino < TWO64
    requires forall s :: s in segs ==> Addressable(e, s)
    ensures var data' := CommitData(data, StageSegments(e, ino, segs, failed));
            && WellFormed(e, data')
            && ExtentsOf(data', e) == ApplySegments(ExtentsOf(data, e), e, ino, segs, failed)
    decreases |segs|
  {
    if segs != [] {
      var s := segs[0];
      assert Addressable(e, s);
      var rest := StageSegments(e, ino, segs[1..], failed);
      if s.index in failed {
        assert StageSegments(e, ino, segs, failed) == rest;
        CommitSegmentsMeaning(data, e, ino, segs[1..], failed);
      } else {
        var d := DataOp(ExtentKey(s.index, ino), SegmentOp(e, s));
        assert StageSegments(e, ino, segs, failed) == [d] + rest;
        assert ([d] + rest)[1..] == rest;
        CommitOneMeaning(data, e, ino, s.index, d.op);
        CommitOneWellFormed(data, e, d);
        CommitSegmentsMeaning(CommitOne(data, d), e, ino, segs[1..], failed);
      }
    }
  }
}
