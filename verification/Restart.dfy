/**
  Restarting merges after the pending ones were lost (BucketList::restartMerges,
  src/bucket/BucketList.cpp:589-659).
 */
module Restart {
  import opened Wrappers
  import opened Buckets
  import opened Schedule
  import opened ListModel
  import opened Runs
  import opened Versions
  import opened Refinement
  import opened Theorems

  /** A clear future above a snap written before protocol 12. */
  datatype RestartError = ClearFutureOldSnap(level: nat, version: nat)

  /** restartMerges from level i on. A snap of an untouched level has the empty hash and ends the loop. */
  function RestartFrom(n: nat, levels: seq<Level>, ledger: nat, i: nat): (r: Result<seq<Level>, RestartError>)
    requires |levels| == n && i <= n
    ensures r.Success? ==> |r.value| == n
    decreases n - i
  {
    if i == n then Success(levels)
    else if i == 0 || levels[i].next.Pending? then RestartFrom(n, levels, ledger, i + 1)
    else
      var snap := levels[i - 1].snap;
      if snap == EmptyBucket then Success(levels)
      else if Version(snap) < FIRST_PROTOCOL_SHADOWS_REMOVED then Failure(ClearFutureOldSnap(i, Version(snap)))
      else
        var next := Prepare(n, i, Mask(ledger, LevelHalf(i - 1)), Version(snap), levels[i].curr, snap, []);
        RestartFrom(n, levels[i := levels[i].(next := next)], ledger, i + 1)
  }

  function RestartMerges(n: nat, levels: seq<Level>, ledger: nat): Result<seq<Level>, RestartError>
    requires |levels| == n
  {
    RestartFrom(n, levels, ledger, 0)
  }

  /** restartMerges goes on from level j: it has its merge, or one can be started without shadows. */
  predicate GoesOn(levels: seq<Level>, j: nat)
    requires 0 < j < |levels|
  {
    levels[j].next.Pending? || (levels[j - 1].snap != EmptyBucket && Version(levels[j - 1].snap) >= 12)
  }

  /** Level i has no merge although a snap from before protocol 12 is waiting for it. */
  predicate Refused(levels: seq<Level>, i: nat)
    requires 0 < i < |levels|
  {
    levels[i].next.Clear? && levels[i - 1].snap != EmptyBucket && Version(levels[i - 1].snap) < 12
  }

  /** restartMerges fails exactly at the first level it cannot go on from, if a snap from before 12 waits there. */
  lemma {:induction false} RestartRefuses(n: nat, levels: seq<Level>, ledger: nat, from: nat, i: nat)
    requires |levels| == n && 0 < i < n && from <= i
    ensures RestartFrom(n, levels, ledger, from) == Failure(ClearFutureOldSnap(i, Version(levels[i - 1].snap))) <==>
            Refused(levels, i) && forall j | from <= j < i && 0 < j :: GoesOn(levels, j)
    decreases i - from
  {
    hide Mask, LevelHalf, Prepare;
    if from == 0 {
      RestartRefuses(n, levels, ledger, 1, i);
    } else if from < i {
      if levels[from].next.Pending? {
        RestartRefuses(n, levels, ledger, from + 1, i);
      } else if !GoesOn(levels, from) {
        assert !(forall j | from <= j < i && 0 < j :: GoesOn(levels, j));
      } else {
        var snap := levels[from - 1].snap;
        var next := Prepare(n, from, Mask(ledger, LevelHalf(from - 1)), Version(snap), levels[from].curr, snap, []);
        var more := levels[from := levels[from].(next := next)];
        RestartRefuses(n, more, ledger, from + 1, i);
        assert more[i - 1].snap == levels[i - 1].snap;
        assert forall j | from < j < i :: GoesOn(more, j) <==> GoesOn(levels, j);
        assert Refused(more, i) <==> Refused(levels, i);
      }
    } else {
      FailsNoEarlier(n, levels, ledger, i + 1);
      if levels[i].next.Clear? {
        var snap := levels[i - 1].snap;
        var next := Prepare(n, i, Mask(ledger, LevelHalf(i - 1)), Version(snap), levels[i].curr, snap, []);
        FailsNoEarlier(n, levels[i := levels[i].(next := next)], ledger, i + 1);
      }
    }
  }

  lemma {:induction false} FailsNoEarlier(n: nat, levels: seq<Level>, ledger: nat, from: nat)
    requires |levels| == n && from <= n
    ensures var r := RestartFrom(n, levels, ledger, from); r.Failure? ==> from <= r.error.level
    decreases n - from
  {
    hide Mask, LevelHalf, Prepare;
    if from < n {
      FailsNoEarlier(n, levels, ledger, from + 1);
      if 0 < from && levels[from].next.Clear? {
        var snap := levels[from - 1].snap;
        var next := Prepare(n, from, Mask(ledger, LevelHalf(from - 1)), Version(snap), levels[from].curr, snap, []);
        FailsNoEarlier(n, levels[from := levels[from].(next := next)], ledger, from + 1);
      }
    }
  }

  /** A list as it is reloaded: buckets only. */
  function Discarded(levels: seq<Level>): seq<Level> {
    seq(|levels|, i requires 0 <= i < |levels| => levels[i].(next := Clear))
  }

  // ----- the merges addBatch has pending -----

  /** The level's pending merge has as inputs the buckets now in the list; none is pending before the first spill. */
  predicate PendingShape(n: nat, levels: seq<Level>, i: nat, t: nat)
    requires |levels| == n && 0 < i < n
  {
    var f := levels[i].next;
    if t < LevelHalf(i - 1) then f.Clear?
    else
      f.Pending? &&
      f.curr == (if ShouldMergeWithEmptyCurr(n, t, i) then EmptyBucket else levels[i].curr) &&
      f.snap == levels[i - 1].snap &&
      f.keepDead == KeepDeadEntries(n, i) &&
      (Version(f.snap) >= FIRST_PROTOCOL_SHADOWS_REMOVED ==> f.shadows == [])
  }

  lemma {:induction false} ShapeStep(n: nat, levels: seq<Level>, after: seq<Level>, s: nat, t: nat, protocol: nat, batch: Bucket, i: nat)
    requires 0 < i < n && |levels| == n && t == s + 1
    requires AddBatch(n, levels, t, protocol, batch) == Success(after)
    requires PendingShape(n, levels, i, s)
    ensures |after| == n && PendingShape(n, after, i, t)
  {
    hide LevelHalf, LevelShouldSpill, ShouldMergeWithEmptyCurr, Resolve, BucketsBelow;
    var l, younger := NewLevel(n, levels, t, protocol, batch, i), NewLevel(n, levels, t, protocol, batch, i - 1);
    assert l.Success? && after[i - 0] == l.value;
    assert younger.Success? && after[i - 1 - 0] == younger.value;
    if LevelShouldSpill(n, t, i - 1) {
      SpillTops(n, i, s, t);
    } else {
      IdleTops(n, i, s, t);
    }
  }

  lemma {:induction false} RunShape(n: nat, bs: seq<Batch>, t: nat, i: nat)
    requires 0 < i < n && t <= |bs| && Run(n, bs, t).Success?
    ensures PendingShape(n, Run(n, bs, t).value, i, t)
  {
    if t > 0 {
      RunShape(n, bs, t - 1, i);
      ShapeStep(n, Run(n, bs, t - 1).value, Run(n, bs, t).value, t - 1, t, bs[t - 1].protocol, Fresh(bs[t - 1]), i);
    }
  }

  // ----- equivalence of lists -----

  /** The same merge: same inputs and same outcome, whatever maximum version either was started under. */
  predicate SameMerge(f: Future, g: Future) {
    f == g ||
    (f.Pending? && g.Pending? && f.curr == g.curr && f.snap == g.snap && f.shadows == g.shadows &&
     f.keepDead == g.keepDead && Resolve(f) == Resolve(g))
  }

  predicate SameLevel(l: Level, m: Level) {
    l.curr == m.curr && l.snap == m.snap && SameMerge(l.next, m.next)
  }

  predicate SameList(a: seq<Level>, b: seq<Level>) {
    |a| == |b| && forall i | 0 <= i < |a| :: SameLevel(a[i], b[i])
  }

  predicate SameOutcome(a: Result<seq<Level>, MergeError>, b: Result<seq<Level>, MergeError>) {
    match (a, b)
    case (Success(x), Success(y)) => SameList(x, y)
    case (Failure(e), Failure(f)) => e == f
    case _ => false
  }

  predicate SameLevelOutcome(a: Result<Level, MergeError>, b: Result<Level, MergeError>) {
    match (a, b)
    case (Success(x), Success(y)) => SameLevel(x, y)
    case (Failure(e), Failure(f)) => e == f
    case _ => false
  }

  lemma {:induction false} SameBelow(a: seq<Level>, b: seq<Level>, m: nat)
    requires SameList(a, b) && m <= |a|
    ensures BucketsBelow(a, m) == BucketsBelow(b, m)
  {
    if m > 0 {
      SameBelow(a, b, m - 1);
      assert SameLevel(a[m - 1], b[m - 1]);
    }
  }

  lemma SameNewLevel(n: nat, a: seq<Level>, b: seq<Level>, ledger: nat, protocol: nat, batch: Bucket, i: nat)
    requires |a| == n && SameList(a, b) && i < n
    ensures SameLevelOutcome(NewLevel(n, a, ledger, protocol, batch, i), NewLevel(n, b, ledger, protocol, batch, i))
  {
    hide LevelShouldSpill, ShouldMergeWithEmptyCurr, Merge, BucketsBelow;
    assert SameLevel(a[i], b[i]);
    if i > 0 {
      assert SameLevel(a[i - 1], b[i - 1]);
      SameBelow(a, b, i - 1);
    }
  }

  lemma {:induction false} SameNewLevels(n: nat, a: seq<Level>, b: seq<Level>, ledger: nat, protocol: nat, batch: Bucket, i: nat)
    requires |a| == n && SameList(a, b) && i <= n
    ensures SameOutcome(NewLevels(n, a, ledger, protocol, batch, i), NewLevels(n, b, ledger, protocol, batch, i))
    decreases n - i
  {
    hide NewLevel, SameLevel;
    if i < n {
      SameNewLevels(n, a, b, ledger, protocol, batch, i + 1);
      SameNewLevel(n, a, b, ledger, protocol, batch, i);
    }
  }

  /** The list reached from a given list after s batches by adding batches s + 1 to t. */
  function Continue(n: nat, bs: seq<Batch>, s: nat, t: nat, levels: seq<Level>): (r: Result<seq<Level>, MergeError>)
    requires s <= t <= |bs| && |levels| == n
    ensures r.Success? ==> |r.value| == n
    decreases t
  {
    if s == t then Success(levels)
    else
      match Continue(n, bs, s, t - 1, levels)
      case Failure(e) => Failure(e)
      case Success(l) => AddBatch(n, l, t, bs[t - 1].protocol, Fresh(bs[t - 1]))
  }

  lemma {:induction false} SameForever(n: nat, bs: seq<Batch>, s: nat, t: nat, a: seq<Level>)
    requires s <= t <= |bs| && |a| == n && Run(n, bs, s).Success? && SameList(a, Run(n, bs, s).value)
    ensures SameOutcome(Continue(n, bs, s, t, a), Run(n, bs, t))
    decreases t
  {
    hide NewLevels, SameList;
    if s < t {
      SameForever(n, bs, s, t - 1, a);
      var x, y := Continue(n, bs, s, t - 1, a), Run(n, bs, t - 1);
      if x.Success? {
        SameNewLevels(n, x.value, y.value, t, bs[t - 1].protocol, Fresh(bs[t - 1]), 0);
      }
    }
  }

  // ----- restarting -----

  /** Level i is as restartMerges should leave it: its pending merge is the one addBatch had started. */
  predicate RestartedUpTo(levels: seq<Level>, partial: seq<Level>, i: nat) {
    |partial| == |levels| &&
    forall j | 0 <= j < |levels| ::
      if j < i then SameLevel(partial[j], levels[j]) else partial[j] == levels[j].(next := Clear)
  }

  /** The facts restartMerges relies on at level i of a reachable list. */
  lemma LevelForRestart(n: nat, bs: seq<Batch>, t: nat, levels: seq<Level>, i: nat)
    requires 2 <= n && 0 < i < n && t <= |bs| && InEra(ShadowFree, bs) && WellFormed(bs)
    requires Run(n, bs, t) == Success(levels)
    ensures t < LevelHalf(i - 1) ==> levels[i - 1].snap == EmptyBucket && levels[i].next.Clear?
    ensures LevelHalf(i - 1) <= t ==>
              var snap := levels[i - 1].snap;
              && snap != EmptyBucket && Version(snap) >= FIRST_PROTOCOL_SHADOWS_REMOVED
              && SameMerge(Prepare(n, i, Mask(t, LevelHalf(i - 1)), Version(snap), levels[i].curr, snap, []), levels[i].next)
  {
    OneSideIsHarmless(n, bs, t);
    RunInvariant(ShadowFree, n, bs, t);
    RunShape(n, bs, t, i);
    assert LevelOk(ShadowFree, n, bs, levels[i - 1], i - 1, t) && LevelOk(ShadowFree, n, bs, levels[i], i, t);
    SnapMeta(n, bs, levels[i - 1], i, t);
    if LevelHalf(i - 1) <= t {
      RoundedEmptyCurr(n, t, i);
      RestartedResolves(n, bs, levels, i, t);
    }
  }

  lemma SnapMeta(n: nat, bs: seq<Batch>, l: Level, i: nat, t: nat)
    requires 0 < i < n && t <= |bs| && LevelHeld(ShadowFree, n, bs, l, i - 1, t) && InEra(ShadowFree, bs)
    ensures t < LevelHalf(i - 1) ==> l.snap == EmptyBucket
    ensures LevelHalf(i - 1) <= t ==> l.snap.meta.Some? && l.snap.meta.value >= FIRST_PROTOCOL_SHADOWS_REMOVED
  {
    hide HeldKey, LevelHalf;
    var lo, hi := CurrTop(n, i, t), SnapTop(n, i - 1, t);
    TopsDescend(n, i - 1, t);
    SnapRange(n, i, t);
    if t < LevelHalf(i - 1) {
      EmptyHeld(ShadowFree, bs, 0, t);
      HeldUnique(bs, l.snap, EmptyBucket, 0, 0, t);
    } else {
      assert bs[hi - 1].protocol >= TWELVE;
    }
  }

  lemma {:induction false} SnapRange(n: nat, i: nat, t: nat)
    requires 0 < i < n
    ensures if t < LevelHalf(i - 1) then SnapTop(n, i - 1, t) == CurrTop(n, i, t) == 0 else CurrTop(n, i, t) < SnapTop(n, i - 1, t)
  {
    hide LevelHalf;
    HalfFacts(i - 1);
  }

  lemma RoundedEmptyCurr(n: nat, t: nat, i: nat)
    requires 0 < i < n
    ensures ShouldMergeWithEmptyCurr(n, Mask(t, LevelHalf(i - 1)), i) <==> ShouldMergeWithEmptyCurr(n, t, i)
  {
    MaskTwice(t, LevelHalf(i - 1));
  }

  /** The restarted merge runs under the snap's own version, which is the version of the merge. */
  lemma RestartedResolves(n: nat, bs: seq<Batch>, levels: seq<Level>, i: nat, t: nat)
    requires 0 < i < n && t <= |bs| && InEra(ShadowFree, bs) && Invariant(ShadowFree, n, bs, levels, t)
    requires LevelHalf(i - 1) <= t && PendingShape(n, levels, i, t)
    requires levels[i - 1].snap.meta.Some? && levels[i - 1].snap.meta.value >= FIRST_PROTOCOL_SHADOWS_REMOVED
    ensures var f := levels[i].next;
            Resolve(f) == Merge(f.curr, f.snap, [], f.keepDead, Version(f.snap))
  {
    hide LevelHalf, ShouldMergeWithEmptyCurr;
    assert LevelOk(ShadowFree, n, bs, levels[i - 1], i - 1, t) && LevelOk(ShadowFree, n, bs, levels[i], i, t);
    var f := levels[i].next;
    CurrNoNewer(n, bs, levels, i, t);
    MergeVersionBound(f.curr, f.snap, []);
  }

  lemma CurrNoNewer(n: nat, bs: seq<Batch>, levels: seq<Level>, i: nat, t: nat)
    requires 0 < i < n && t <= |bs| && InEra(ShadowFree, bs) && Invariant(ShadowFree, n, bs, levels, t)
    requires LevelHalf(i - 1) <= t
    ensures Version(levels[i].curr) <= Version(levels[i - 1].snap)
  {
    hide LevelHalf, CurrTop, SnapTop, HeldKey, NextHeld;
    assert LevelOk(ShadowFree, n, bs, levels[i - 1], i - 1, t) && LevelOk(ShadowFree, n, bs, levels[i], i, t);
    TopsDescend(n, i, t);
    TopsDescend(n, i - 1, t);
    SnapRange(n, i, t);
    var mid, hi := CurrTop(n, i, t), SnapTop(n, i - 1, t);
    if SnapTop(n, i, t) < mid { assert bs[mid - 1].protocol <= bs[hi - 1].protocol; }
  }

  lemma {:induction false} RestartLoop(n: nat, bs: seq<Batch>, t: nat, levels: seq<Level>, partial: seq<Level>, i: nat)
    requires 2 <= n && i <= n && t <= |bs| && InEra(ShadowFree, bs) && WellFormed(bs)
    requires Run(n, bs, t) == Success(levels) && RestartedUpTo(levels, partial, i)
    ensures var r := RestartFrom(n, partial, t, i);
            r.Success? && SameList(r.value, levels)
    decreases n - i
  {
    hide Prepare, LevelHalf, Run, InEra, WellFormed, Resolve, Version;
    if i == n {
    } else if i == 0 {
      YoungestIsClear(n, bs, t);
      assert SameLevel(partial[0], levels[0]);
      RestartLoop(n, bs, t, levels, partial, 1);
    } else {
      LevelForRestart(n, bs, t, levels, i);
      assert SameLevel(partial[i - 1], levels[i - 1]);
      if t < LevelHalf(i - 1) {
        forall j | i <= j < n ensures SameLevel(partial[j], levels[j]) {
          HalvesGrow(i - 1, j - 1);
          LevelForRestart(n, bs, t, levels, j);
        }
      } else {
        var snap := levels[i - 1].snap;
        var next := Prepare(n, i, Mask(t, LevelHalf(i - 1)), Version(snap), levels[i].curr, snap, []);
        RestartLoop(n, bs, t, levels, partial[i := partial[i].(next := next)], i + 1);
      }
    }
  }

  lemma {:induction false} HalvesGrow(i: nat, j: nat)
    requires i <= j
    ensures LevelHalf(i) <= LevelHalf(j)
    decreases j
  {
    if i < j {
      HalfFacts(j);
      HalvesGrow(i, j - 1);
    }
  }

  /**
    Restart transparency: at any ledger of a well-formed run from protocol 12
    on, dropping every pending merge and calling restartMerges gives back the
    list that was running, with the same merge inputs and the same outcome at
    every level; and from there on every later list is the same.
   */
  lemma RestartIsTransparent(n: nat, bs: seq<Batch>, s: nat, t: nat)
    requires 2 <= n && s <= t <= |bs| && InEra(ShadowFree, bs) && WellFormed(bs)
    ensures Run(n, bs, s).Success?
    ensures var r := RestartMerges(n, Discarded(Run(n, bs, s).value), s);
            && r.Success? && SameList(r.value, Run(n, bs, s).value)
            && SameOutcome(Continue(n, bs, s, t, r.value), Run(n, bs, t))
  {
    OneSideIsHarmless(n, bs, s);
    RunInvariant(ShadowFree, n, bs, s);
    var levels := Run(n, bs, s).value;
    RestartLoop(n, bs, s, levels, Discarded(levels), 0);
    SameForever(n, bs, s, t, RestartMerges(n, Discarded(levels), s).value);
  }
}
