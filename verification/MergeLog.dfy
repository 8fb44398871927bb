/**
 The merge log of one extent: the algebra behind `ViveDataMergeOperator`.

 A key of `data_cf` carries a log of operations in commit order.  Put stores a whole extent (the
 base), Merge stores a delta (an offset inside the extent and bytes), Delete removes the extent.
 The store may rewrite the log at any time: it may join two neighbouring deltas with PartialMerge,
 fold a delta into the base below it, and drop entries that a later Put or Delete shadows.

 PartialMerge never declines: it joins any two deltas, and zeros fill the gap between separated ones.
 A log keeps its value under such a join exactly when no byte shows through the gap.
 */
module MergeLog {
  import opened Bytes

  datatype Delta = Delta(off: nat, data: seq<byte>) {
    function End(): nat { off + |data| }

    predicate Covers(i: int) { off <= i < End() }

    function At(i: int): byte
      requires Covers(i)
    {
      data[i - off]
    }
  }

  datatype Op = Put(base: seq<byte>) | Merge(delta: Delta) | Delete

  type Log = seq<Op>

  // An operation that fits an extent of e bytes: a Put is a full extent, a delta stays inside.
  predicate Fits(e: nat, op: Op) {
    match op
    case Put(b) => |b| == e
    case Merge(d) => d.End() <= e
    case Delete => true
  }

  // base + delta => new base
  function Overlay(base: seq<byte>, d: Delta): (r: seq<byte>)
    ensures |r| == |base|
    ensures forall i :: 0 <= i < |r| ==> r[i] == if d.Covers(i) then d.At(i) else base[i]
  {
    seq(|base|, i requires 0 <= i < |base| => if d.Covers(i) then d.At(i) else base[i])
  }

  /* ---- Reference meaning: one operation at a time, in commit order ---- */

  function ApplyOp(e: nat, v: Option<seq<byte>>, op: Op): Option<seq<byte>> {
    match op
    case Put(b) => Some(b)
    case Merge(d) => Some(Overlay(if v.Some? then v.value else Zeros(e), d))
    case Delete => None
  }

  function ApplyAll(e: nat, v: Option<seq<byte>>, log: Log): Option<seq<byte>> {
    if log == [] then v
    else ApplyOp(e, ApplyAll(e, v, log[..|log| - 1]), log[|log| - 1])
  }

  function Resolve(e: nat, log: Log): Option<seq<byte>> {
    ApplyAll(e, None, log)
  }

  lemma {:induction false} ApplyAllConcat(e: nat, v: Option<seq<byte>>, a: Log, b: Log)
    ensures ApplyAll(e, v, a + b) == ApplyAll(e, ApplyAll(e, v, a), b)
    decreases |b|
  {
    if b == [] {
      assert a + b == a;
    } else {
      var b' := b[..|b| - 1];
      assert (a + b)[..|a + b| - 1] == a + b';
      ApplyAllConcat(e, v, a, b');
    }
  }

  lemma ResolveAppend(e: nat, log: Log, op: Op)
    ensures Resolve(e, log + [op]) == ApplyOp(e, Resolve(e, log), op)
  {
    assert (log + [op])[..|log|] == log;
  }

  // Every resolved extent has exactly e bytes, so a reader may copy any part of it.
  lemma {:induction false} ResolveIsFullExtent(e: nat, log: Log)
    requires forall op :: op in log ==> Fits(e, op)
    ensures Resolve(e, log).Some? ==> |Resolve(e, log).value| == e
  {
    if log != [] {
      ResolveIsFullExtent(e, log[..|log| - 1]);
      assert log[|log| - 1] in log;
    }
  }

  /* ---- FullMergeV2, as a point read drives it ---- */

  function FullMerge(e: nat, existing: Option<seq<byte>>, operands: seq<Delta>): seq<byte> {
    if operands == [] then (if existing.Some? then existing.value else Zeros(e))
    else Overlay(FullMerge(e, existing, operands[..|operands| - 1]), operands[|operands| - 1])
  }

  // A point read walks from the newest entry down to the first Put or Delete, collecting deltas.
  function CollectOperands(log: Log): (r: (Option<seq<byte>>, seq<Delta>)) {
    if log == [] then (None, [])
    else match log[|log| - 1]
      case Put(b) => (Some(b), [])
      case Delete => (None, [])
      case Merge(d) =>
        var (base, ds) := CollectOperands(log[..|log| - 1]);
        (base, ds + [d])
  }

  function PointRead(e: nat, log: Log): Option<seq<byte>> {
    var (base, operands) := CollectOperands(log);
    if operands == [] then base else Some(FullMerge(e, base, operands))
  }

  lemma {:induction false} PointReadIsResolve(e: nat, log: Log)
    ensures PointRead(e, log) == Resolve(e, log)
  {
    if log != [] && log[|log| - 1].Merge? {
      var log' := log[..|log| - 1];
      PointReadIsResolve(e, log');
      var (base, ds) := CollectOperands(log');
      var ds' := ds + [log[|log| - 1].delta];
      assert CollectOperands(log) == (base, ds');
      assert ds'[..|ds'| - 1] == ds;
      assert FullMerge(e, base, ds') == Overlay(FullMerge(e, base, ds), log[|log| - 1].delta);
    }
  }

  /* ---- PartialMerge: delta + delta => merged delta ---- */

  // l is the older operand, r the newer one.  The new value spans both ranges; resizing it writes zeros, which
  // the two copies then overwrite where the operands have bytes.
  function PartialMerge(l: Delta, r: Delta): (m: Delta)
    ensures m.off == Min(l.off, r.off) && m.End() == Max(l.End(), r.End())
    ensures forall i :: m.Covers(i) ==>
      m.At(i) == if r.Covers(i) then r.At(i) else if l.Covers(i) then l.At(i) else 0
  {
    var begin, end := Min(l.off, r.off), Max(l.End(), r.End());
    var resized := Zeros(end - begin);
    var copied := Overlay(resized, Delta(l.off - begin, l.data));
    Delta(begin, Overlay(copied, Delta(r.off - begin, r.data)))
  }

  // The ranges overlap or meet end to end.
  predicate Touch(l: Delta, r: Delta) {
    l.off <= r.End() && r.off <= l.End()
  }

  predicate InGap(l: Delta, r: Delta, i: int) {
    l.End() <= i < r.off || r.End() <= i < l.off
  }

  // The joined delta does what the two deltas do one after the other, except that it clears the gap.
  lemma JoinedByte(base: seq<byte>, l: Delta, r: Delta, i: nat)
    requires i < |base|
    ensures Overlay(base, PartialMerge(l, r))[i] == if InGap(l, r, i) then 0 else Overlay(Overlay(base, l), r)[i]
  {
    var m := PartialMerge(l, r);
    assert m.Covers(i) <==> l.Covers(i) || r.Covers(i) || InGap(l, r, i);
    OverlayTwice(base, l, r, i);
  }

  // On a given base the join is right exactly when the base is zero in the gap.
  lemma JoinRightIffGapIsZero(base: seq<byte>, l: Delta, r: Delta)
    ensures Overlay(base, PartialMerge(l, r)) == Overlay(Overlay(base, l), r)
       <==> forall i: nat :: i < |base| && InGap(l, r, i) ==> base[i] == 0
  {
    var joined, twice := Overlay(base, PartialMerge(l, r)), Overlay(Overlay(base, l), r);
    forall i: nat | i < |base| ensures joined[i] == twice[i] <==> (InGap(l, r, i) ==> base[i] == 0) {
      JoinedByte(base, l, r, i);
      OverlayTwice(base, l, r, i);
    }
    if forall i: nat :: i < |base| && InGap(l, r, i) ==> base[i] == 0 {
      assert forall i: nat :: i < |base| ==> joined[i] == twice[i];
    }
  }

  lemma PartialMergeFits(e: nat, l: Delta, r: Delta)
    requires Fits(e, Merge(l)) && Fits(e, Merge(r))
    ensures Fits(e, Merge(PartialMerge(l, r)))
  {}

  ghost predicate SameEffect(e: nat, d: Delta, l: Delta, r: Delta) {
    forall base: seq<byte> {:trigger Overlay(base, d)} :: |base| == e ==>
      Overlay(base, d) == Overlay(Overlay(base, l), r)
  }

  // On every base the join is right exactly when the ranges touch; empty deltas are no exception.
  lemma PartialMergeRightIffTouch(e: nat, l: Delta, r: Delta)
    requires Fits(e, Merge(l)) && Fits(e, Merge(r))
    ensures SameEffect(e, PartialMerge(l, r), l, r) <==> Touch(l, r)
  {
    if Touch(l, r) {
      forall base: seq<byte> | |base| == e ensures Overlay(base, PartialMerge(l, r)) == Overlay(Overlay(base, l), r) {
        JoinRightIffGapIsZero(base, l, r);
      }
    } else {
      var ones := seq(e, _ => 1);
      var i := Min(l.End(), r.End());
      assert InGap(l, r, i) && ones[i] == 1;
      JoinRightIffGapIsZero(ones, l, r);
    }
  }

  // What the operator could do: join what touches, skip what is empty, and decline the rest.
  function JoinOrDecline(l: Delta, r: Delta): Option<Delta> {
    if l.data == [] then Some(r)
    else if r.data == [] then Some(l)
    else if Touch(l, r) then Some(PartialMerge(l, r))
    else None
  }

  // It would decline exactly when no single delta can stand for the pair, and otherwise find one.
  lemma JoinOrDeclineIsExact(e: nat, l: Delta, r: Delta)
    requires Fits(e, Merge(l)) && Fits(e, Merge(r))
    ensures JoinOrDecline(l, r).Some? ==> SameEffect(e, JoinOrDecline(l, r).value, l, r)
    ensures JoinOrDecline(l, r).None? ==> forall d :: !SameEffect(e, d, l, r)
  {
    match JoinOrDecline(l, r)
    case Some(d) =>
      if l.data != [] && r.data != [] {
        PartialMergeRightIffTouch(e, l, r);
      } else {
        forall base: seq<byte> | |base| == e ensures Overlay(base, d) == Overlay(Overlay(base, l), r) {}
      }
    case None =>
      forall d ensures !SameEffect(e, d, l, r) {
        GapIsNotADelta(e, d, l, r);
      }
  }

  // A delta overwrites position i of an extent exactly when the outcome there ignores the base.
  lemma CoverageIsVisible(e: nat, d: Delta, l: Delta, r: Delta, i: nat)
    requires SameEffect(e, d, l, r) && i < e
    ensures d.Covers(i) <==> l.Covers(i) || r.Covers(i)
  {
    var zeros, ones := Zeros(e), seq(e, _ => 1);
    OverlayTwice(zeros, l, r, i);
    OverlayTwice(ones, l, r, i);
    assert Overlay(zeros, d) == Overlay(Overlay(zeros, l), r);
    assert Overlay(ones, d) == Overlay(Overlay(ones, l), r);
    assert zeros[i] == 0 && ones[i] == 1;
  }

  lemma OverlayTwice(base: seq<byte>, l: Delta, r: Delta, i: nat)
    requires i < |base|
    ensures Overlay(Overlay(base, l), r)[i]
         == if r.Covers(i) then r.At(i) else if l.Covers(i) then l.At(i) else base[i]
  {}

  // Two separated ranges leave a byte between them untouched; an interval covering both cannot.
  lemma GapIsNotADelta(e: nat, d: Delta, l: Delta, r: Delta)
    requires Fits(e, Merge(l)) && Fits(e, Merge(r))
    requires l.data != [] && r.data != [] && !Touch(l, r)
    ensures !SameEffect(e, d, l, r)
  {
    if SameEffect(e, d, l, r) {
      CoverageIsVisible(e, d, l, r, l.off);
      CoverageIsVisible(e, d, l, r, r.off);
      CoverageIsVisible(e, d, l, r, Min(l.End(), r.End()));
    }
  }

  /* ---- What the store may do to a log, and when its meaning stays ---- */

  datatype LogEvent =
    | Append(op: Op)          // a transaction appends an operation
    | JoinDeltas(at: nat)     // two neighbouring deltas become one
    | FoldIntoBase(at: nat)   // a delta right above a Put or a Delete becomes a Put
    | FoldBottom              // the oldest entry is a delta with nothing below it
    | DropShadowed(at: nat)   // an entry right below a Put or a Delete disappears
    | DropBottomDelete        // a Delete with nothing below it disappears

  function ReplacePair(log: Log, at: nat, op: Op): Log
    requires at + 1 < |log|
  {
    log[..at] + [op] + log[at + 2..]
  }

  // One event; a rewrite that does not apply at its position leaves the log alone.
  function LogStep(e: nat, log: Log, ev: LogEvent): Log {
    match ev
    case Append(op) => log + [op]
    case JoinDeltas(i) =>
      if i + 1 < |log| && log[i].Merge? && log[i + 1].Merge? then
        ReplacePair(log, i, Merge(PartialMerge(log[i].delta, log[i + 1].delta)))
      else log
    case FoldIntoBase(i) =>
      if i + 1 < |log| && !log[i].Merge? && log[i + 1].Merge? then
        var base := if log[i].Put? then Some(log[i].base) else None;
        ReplacePair(log, i, Put(FullMerge(e, base, [log[i + 1].delta])))
      else log
    case FoldBottom =>
      if log != [] && log[0].Merge? then [Put(FullMerge(e, None, [log[0].delta]))] + log[1..] else log
    case DropShadowed(i) =>
      if i + 1 < |log| && !log[i + 1].Merge? then ReplacePair(log, i, log[i + 1]) else log
    case DropBottomDelete =>
      if log != [] && log[0].Delete? then log[1..] else log
  }

  function RunLog(e: nat, log: Log, evs: seq<LogEvent>): Log
    decreases |evs|
  {
    if evs == [] then log else RunLog(e, LogStep(e, log, evs[0]), evs[1..])
  }

  // The operations committed during a run, in commit order.
  function Committed(evs: seq<LogEvent>): seq<Op> {
    if evs == [] then []
    else (if evs[0].Append? then [evs[0].op] else []) + Committed(evs[1..])
  }

  // Replacing a pair keeps the meaning when the new entry does what the pair did.
  lemma ReplacePairMeaning(e: nat, log: Log, at: nat, op: Op)
    requires at + 1 < |log|
    requires forall v :: ApplyOp(e, v, op) == ApplyOp(e, ApplyOp(e, v, log[at]), log[at + 1])
    ensures Resolve(e, ReplacePair(log, at, op)) == Resolve(e, log)
  {
    var v := ApplyAll(e, None, log[..at]);
    var pair := [log[at], log[at + 1]];
    assert log == log[..at] + (pair + log[at + 2..]);
    assert ReplacePair(log, at, op) == log[..at] + ([op] + log[at + 2..]);
    ApplyAllConcat(e, None, log[..at], pair + log[at + 2..]);
    ApplyAllConcat(e, None, log[..at], [op] + log[at + 2..]);
    ApplyAllConcat(e, v, pair, log[at + 2..]);
    ApplyAllConcat(e, v, [op], log[at + 2..]);
    assert pair[..1] == [log[at]];
    assert ApplyAll(e, v, [log[at]]) == ApplyOp(e, v, log[at]);
    assert ApplyAll(e, v, pair) == ApplyOp(e, ApplyOp(e, v, log[at]), log[at + 1]);
    assert ApplyAll(e, v, [op]) == ApplyOp(e, v, op);
  }

  lemma SingleOperand(e: nat, base: Option<seq<byte>>, d: Delta)
    ensures Some(FullMerge(e, base, [d])) == ApplyOp(e, base, Merge(d))
  {
    assert [d][..0] == [];
  }

  lemma ReplaceBottomMeaning(e: nat, log: Log, below: Log)
    requires log != []
    requires ApplyAll(e, None, below) == ApplyOp(e, None, log[0])
    ensures Resolve(e, below + log[1..]) == Resolve(e, log)
  {
    assert log == [log[0]] + log[1..];
    ApplyAllConcat(e, None, [log[0]], log[1..]);
    ApplyAllConcat(e, None, below, log[1..]);
    assert ApplyAll(e, None, [log[0]]) == ApplyOp(e, None, log[0]);
  }

  // The extent as it was before entry at.
  function Below(e: nat, log: Log, at: nat): seq<byte>
    requires at <= |log|
  {
    var v := Resolve(e, log[..at]);
    if v.Some? then v.value else Zeros(e)
  }

  // Some entry of the log overwrites byte i, whatever lies below.
  predicate Hidden(log: Log, i: nat) {
    log != [] && (var op := log[|log| - 1]; !op.Merge? || op.delta.Covers(i) || Hidden(log[..|log| - 1], i))
  }

  // A rewrite shows no wrong byte: a join clears only bytes that are zero or that later entries overwrite.
  ghost predicate Harmless(e: nat, log: Log, ev: LogEvent) {
    ev.JoinDeltas? && ev.at + 1 < |log| && log[ev.at].Merge? && log[ev.at + 1].Merge? ==>
      forall i: nat :: i < |Below(e, log, ev.at)| && InGap(log[ev.at].delta, log[ev.at + 1].delta, i) ==>
        Below(e, log, ev.at)[i] == 0 || Hidden(log[ev.at + 2..], i)
  }

  // Two extents that differ at i look the same at i under a log exactly when the log hides i.
  lemma {:induction false} HiddenByte(e: nat, a: seq<byte>, b: seq<byte>, log: Log, i: nat)
    requires i < |a| == |b|
    ensures var x, y := ApplyAll(e, Some(a), log), ApplyAll(e, Some(b), log);
            || (x == y && Hidden(log, i))
            || (&& x.Some? && y.Some? && |x.value| == |y.value| == |a|
                && if Hidden(log, i) then x.value[i] == y.value[i] else x.value[i] == a[i] && y.value[i] == b[i])
    decreases |log|
  {
    if log != [] {
      HiddenByte(e, a, b, log[..|log| - 1], i);
    }
  }

  lemma SameUnderLogIff(e: nat, a: seq<byte>, b: seq<byte>, log: Log)
    requires |a| == |b|
    ensures ApplyAll(e, Some(a), log) == ApplyAll(e, Some(b), log)
       <==> forall i: nat :: i < |a| ==> a[i] == b[i] || Hidden(log, i)
  {
    var x, y := ApplyAll(e, Some(a), log), ApplyAll(e, Some(b), log);
    if x == y {
      forall i: nat | i < |a| ensures a[i] == b[i] || Hidden(log, i) {
        HiddenByte(e, a, b, log, i);
      }
    }
    if forall i: nat :: i < |a| ==> a[i] == b[i] || Hidden(log, i) {
      SameWhereHidden(e, a, b, log);
    }
  }

  lemma SameWhereHidden(e: nat, a: seq<byte>, b: seq<byte>, log: Log)
    requires |a| == |b| && forall i: nat :: i < |a| ==> a[i] == b[i] || Hidden(log, i)
    ensures ApplyAll(e, Some(a), log) == ApplyAll(e, Some(b), log)
  {
    var x, y := ApplyAll(e, Some(a), log), ApplyAll(e, Some(b), log);
    if a == [] {
      assert a == b;
    } else {
      HiddenByte(e, a, b, log, 0);
      if x.Some? && y.Some? && |x.value| == |y.value| == |a| {
        forall i: nat | i < |a| ensures x.value[i] == y.value[i] {
          HiddenByte(e, a, b, log, i);
        }
        assert x.value == y.value;
      }
    }
  }

  // Joining two deltas keeps the value of the log exactly when it is harmless.
  lemma JoinKeepsMeaningIff(e: nat, log: Log, at: nat)
    requires at + 1 < |log| && log[at].Merge? && log[at + 1].Merge?
    ensures Resolve(e, LogStep(e, log, JoinDeltas(at))) == Resolve(e, log) <==> Harmless(e, log, JoinDeltas(at))
  {
    var base, l, r, tail := Below(e, log, at), log[at].delta, log[at + 1].delta, log[at + 2..];
    var joined, twice := Overlay(base, PartialMerge(l, r)), Overlay(Overlay(base, l), r);
    JoinedValue(e, log, at);
    SameUnderLogIff(e, joined, twice, tail);
    forall i: nat | i < |base| ensures joined[i] == twice[i] <==> (InGap(l, r, i) ==> base[i] == 0) {
      JoinedByte(base, l, r, i);
      OverlayTwice(base, l, r, i);
    }
  }

  // The value of the log, before and after the join, from the joined pair on.
  lemma JoinedValue(e: nat, log: Log, at: nat)
    requires at + 1 < |log| && log[at].Merge? && log[at + 1].Merge?
    ensures var base, l, r := Below(e, log, at), log[at].delta, log[at + 1].delta;
            && Resolve(e, log) == ApplyAll(e, Some(Overlay(Overlay(base, l), r)), log[at + 2..])
            && Resolve(e, LogStep(e, log, JoinDeltas(at)))
               == ApplyAll(e, Some(Overlay(base, PartialMerge(l, r))), log[at + 2..])
  {
    var l, r, m := log[at], log[at + 1], Merge(PartialMerge(log[at].delta, log[at + 1].delta));
    assert log == log[..at] + ([l, r] + log[at + 2..]);
    assert LogStep(e, log, JoinDeltas(at)) == log[..at] + ([m] + log[at + 2..]);
    ApplyAllConcat(e, None, log[..at], [l, r] + log[at + 2..]);
    ApplyAllConcat(e, None, log[..at], [m] + log[at + 2..]);
    var v := Resolve(e, log[..at]);
    ApplyAllConcat(e, v, [l, r], log[at + 2..]);
    ApplyAllConcat(e, v, [m], log[at + 2..]);
    ApplyTwo(e, v, l, r);
    assert [m][..0] == [];
  }

  lemma ApplyTwo(e: nat, v: Option<seq<byte>>, a: Op, b: Op)
    ensures ApplyAll(e, v, [a, b]) == ApplyOp(e, ApplyOp(e, v, a), b)
  {
    assert [a, b][..1] == [a];
    assert ApplyAll(e, v, [a]) == ApplyOp(e, v, a) by { assert [a][..0] == []; }
  }

  /** A rewrite of the store keeps the value of the log exactly when it is harmless; only joins can fail. */
  lemma RewriteKeepsMeaningIff(e: nat, log: Log, ev: LogEvent)
    requires !ev.Append?
    ensures Resolve(e, LogStep(e, log, ev)) == Resolve(e, log) <==> Harmless(e, log, ev)
  {
    if ev.JoinDeltas? {
      if ev.at + 1 < |log| && log[ev.at].Merge? && log[ev.at + 1].Merge? {
        JoinKeepsMeaningIff(e, log, ev.at);
      }
    } else if LogStep(e, log, ev) != log {
      FoldKeepsMeaning(e, log, ev);
    }
  }

  lemma FoldKeepsMeaning(e: nat, log: Log, ev: LogEvent)
    requires !ev.Append? && !ev.JoinDeltas? && LogStep(e, log, ev) != log
    ensures Resolve(e, LogStep(e, log, ev)) == Resolve(e, log)
  {
    match ev
    case FoldIntoBase(i) =>
      var base := if log[i].Put? then Some(log[i].base) else None;
      SingleOperand(e, base, log[i + 1].delta);
      ReplacePairMeaning(e, log, i, Put(FullMerge(e, base, [log[i + 1].delta])));
    case FoldBottom =>
      SingleOperand(e, None, log[0].delta);
      ReplaceBottomMeaning(e, log, [Put(FullMerge(e, None, [log[0].delta]))]);
    case DropShadowed(i) =>
      ReplacePairMeaning(e, log, i, log[i + 1]);
    case DropBottomDelete =>
      ReplaceBottomMeaning(e, log, []);
      assert [] + log[1..] == log[1..];
  }

  // A rewrite, harmless or not, never makes an extent appear or disappear.
  lemma RewriteKeepsPresence(e: nat, log: Log, ev: LogEvent)
    requires !ev.Append?
    ensures Resolve(e, LogStep(e, log, ev)).Some? == Resolve(e, log).Some?
  {
    if ev.JoinDeltas? && ev.at + 1 < |log| && log[ev.at].Merge? && log[ev.at + 1].Merge? {
      JoinedValue(e, log, ev.at);
      var base, l, r := Below(e, log, ev.at), log[ev.at].delta, log[ev.at + 1].delta;
      SamePresence(e, Overlay(base, PartialMerge(l, r)), Overlay(Overlay(base, l), r), log[ev.at + 2..]);
    } else {
      RewriteKeepsMeaningIff(e, log, ev);
    }
  }

  lemma {:induction false} SamePresence(e: nat, a: seq<byte>, b: seq<byte>, log: Log)
    ensures ApplyAll(e, Some(a), log).Some? == ApplyAll(e, Some(b), log).Some?
    decreases |log|
  {
    if log != [] {
      SamePresence(e, a, b, log[..|log| - 1]);
    }
  }

  /** A rewrite, harmless or not, changes bytes only to zero. */
  lemma RewriteOnlyClears(e: nat, log: Log, ev: LogEvent)
    requires !ev.Append?
    ensures var x, y := Resolve(e, log), Resolve(e, LogStep(e, log, ev));
            && x.Some? == y.Some?
            && (x.Some? ==> && |x.value| == |y.value|
                            && forall i :: 0 <= i < |x.value| ==> y.value[i] == x.value[i] || y.value[i] == 0)
  {
    if ev.JoinDeltas? && ev.at + 1 < |log| && log[ev.at].Merge? && log[ev.at + 1].Merge? {
      JoinOnlyClears(e, log, ev.at);
    } else {
      RewriteKeepsMeaningIff(e, log, ev);
    }
  }

  lemma JoinOnlyClears(e: nat, log: Log, at: nat)
    requires at + 1 < |log| && log[at].Merge? && log[at + 1].Merge?
    ensures var x, y := Resolve(e, log), Resolve(e, LogStep(e, log, JoinDeltas(at)));
            && x.Some? == y.Some?
            && (x.Some? ==> && |x.value| == |y.value|
                            && forall i :: 0 <= i < |x.value| ==> y.value[i] == x.value[i] || y.value[i] == 0)
  {
    hide Resolve, LogStep, Overlay, PartialMerge, ApplyAll, Hidden;
    var base, l, r := Below(e, log, at), log[at].delta, log[at + 1].delta;
    var joined, twice, tail := Overlay(base, PartialMerge(l, r)), Overlay(Overlay(base, l), r), log[at + 2..];
    JoinedValue(e, log, at);
    if joined != twice {
      HiddenByte(e, joined, twice, tail, 0);
      forall i: nat | i < |base|
        ensures var x, y := ApplyAll(e, Some(twice), tail), ApplyAll(e, Some(joined), tail);
                x == y || (x.Some? && y.Some? && |x.value| == |y.value| == |base|
                           && (y.value[i] == x.value[i] || y.value[i] == 0))
      {
        HiddenByte(e, joined, twice, tail, i);
        JoinedByte(base, l, r, i);
      }
    }
  }

  // Deltas that touch can always be joined.
  lemma TouchingJoinIsHarmless(e: nat, log: Log, at: nat)
    requires at + 1 < |log| && log[at].Merge? && log[at + 1].Merge? && Touch(log[at].delta, log[at + 1].delta)
    ensures Harmless(e, log, JoinDeltas(at))
  {}

  // Every join of the run is harmless where it happens.
  ghost predicate HarmlessRun(e: nat, log: Log, evs: seq<LogEvent>)
    decreases |evs|
  {
    evs == [] || (Harmless(e, log, evs[0]) && HarmlessRun(e, LogStep(e, log, evs[0]), evs[1..]))
  }

  /**
   For every interleaving of commits with harmless store rewrites, a point read of the rewritten log returns
   what applying the committed operations one at a time, in commit order, produces.
   */
  lemma {:induction false} GroupingIsInvisible(e: nat, log: Log, evs: seq<LogEvent>)
    requires HarmlessRun(e, log, evs)
    ensures PointRead(e, RunLog(e, log, evs)) == ApplyAll(e, Resolve(e, log), Committed(evs))
    decreases |evs|
  {
    if evs == [] {
      PointReadIsResolve(e, log);
    } else {
      var log' := LogStep(e, log, evs[0]);
      GroupingIsInvisible(e, log', evs[1..]);
      if evs[0].Append? {
        ResolveAppend(e, log, evs[0].op);
        ApplyAllConcat(e, Resolve(e, log), [evs[0].op], Committed(evs[1..]));
        assert ApplyAll(e, Resolve(e, log), [evs[0].op]) == Resolve(e, log');
      } else {
        RewriteKeepsMeaningIff(e, log, evs[0]);
        assert Committed(evs) == Committed(evs[1..]);
      }
    }
  }

  // The condition is needed: joining two separated deltas above a base loses every byte between them.
  lemma SeparatedJoinLosesByte(e: nat, base: seq<byte>, l: Delta, r: Delta, i: nat)
    requires i < |base| && InGap(l, r, i)
    ensures var log := [Put(base), Merge(l), Merge(r)];
            var before, after := PointRead(e, log), PointRead(e, RunLog(e, log, [JoinDeltas(1)]));
            && before.Some? && after.Some? && |before.value| == |after.value| == |base|
            && before.value[i] == base[i] && after.value[i] == 0
  {
    hide PointRead, Overlay, PartialMerge;
    var log := [Put(base), Merge(l), Merge(r)];
    var log' := LogStep(e, log, JoinDeltas(1));
    assert RunLog(e, log, [JoinDeltas(1)]) == RunLog(e, log', []) by { assert [JoinDeltas(1)][1..] == []; }
    PointReadIsResolve(e, log);
    PointReadIsResolve(e, log');
    JoinedValue(e, log, 1);
    assert Below(e, log, 1) == base by {
      assert log[..1] == [Put(base)] && [Put(base)][..0] == [];
    }
    assert log[3..] == [];
    JoinedByte(base, l, r, i);
    OverlayTwice(base, l, r, i);
  }

  // An empty delta is not skipped: joined with a later one it clears the bytes between their offsets.
  lemma EmptyDeltaClearsBytes(base: seq<byte>, off: nat, r: Delta, i: nat)
    requires off <= i < r.off && i < |base|
    ensures Overlay(base, PartialMerge(Delta(off, []), r))[i] == 0
    ensures Overlay(Overlay(base, Delta(off, [])), r)[i] == base[i]
  {
    JoinedByte(base, Delta(off, []), r, i);
  }

  // Rewrites never produce an operation that would not fit the extent.
  lemma RewriteKeepsFits(e: nat, log: Log, ev: LogEvent)
    requires forall op :: op in log ==> Fits(e, op)
    requires ev.Append? ==> Fits(e, ev.op)
    ensures forall op :: op in LogStep(e, log, ev) ==> Fits(e, op)
  {
    if LogStep(e, log, ev) != log {
      match ev
      case Append(op) =>
      case JoinDeltas(i) => PartialMergeFits(e, log[i].delta, log[i + 1].delta);
      case FoldIntoBase(i) =>
        SingleOperand(e, if log[i].Put? then Some(log[i].base) else None, log[i + 1].delta);
        assert log[i] in log;
      case FoldBottom => SingleOperand(e, None, log[0].delta);
      case DropShadowed(i) =>
      case DropBottomDelete =>
    }
  }
}
