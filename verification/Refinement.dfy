/**
  The bucket list refines the plain ledger map: in every well-formed run whose
  protocol versions never decrease, until it commits a harmful merge, every
  bucket accounts for one contiguous range of ledgers, so no merge throws and a
  newest-first lookup reads the ledger map.
 */
module Refinement {
  import opened Wrappers
  import opened LedgerCmp
  import opened Buckets
  import opened Schedule
  import opened ListModel
  import opened Runs
  import opened Versions

  // ----- one merge -----

  /**
    Every key of a shadow was touched after the merge's range, before protocol 11
    if the shadow's own version is from before; and its version is one the first
    t batches can have given it.
   */
  ghost predicate Shadow(bs: seq<Batch>, s: Bucket, hi: nat, t: nat)
    requires hi <= t <= |bs|
  {
    && (forall k | k in s.entries ::
          Touched(bs, k, hi, t).Any() && (Version(s) < ELEVEN ==> Touched(bs, k, hi, t).early))
    && (Version(s) == 0 || (Version(s) >= ELEVEN && 0 < t && bs[t - 1].protocol >= ELEVEN))
  }

  ghost predicate AllShadows(bs: seq<Batch>, shadows: seq<Bucket>, hi: nat, t: nat)
    requires hi <= t <= |bs|
  {
    forall j | 0 <= j < |shadows| :: Shadow(bs, shadows[j], hi, t)
  }

  /** A merge that does not keep lifecycle entries has no shadow from protocol 11 on. */
  predicate Quiet(oldB: Bucket, newB: Bucket, shadows: seq<Bucket>) {
    MergeVersion(oldB, newB, shadows) < ELEVEN ==> forall j | 0 <= j < |shadows| :: Version(shadows[j]) < ELEVEN
  }

  lemma {:induction false} MergeVersionBound(oldB: Bucket, newB: Bucket, shadows: seq<Bucket>)
    ensures Version(oldB) <= MergeVersion(oldB, newB, shadows) && Version(newB) <= MergeVersion(oldB, newB, shadows)
    ensures forall j | 0 <= j < |shadows| && Version(shadows[j]) < TWELVE :: Version(shadows[j]) <= MergeVersion(oldB, newB, shadows)
    ensures shadows == [] ==> MergeVersion(oldB, newB, shadows) == Max(Version(oldB), Version(newB))
  {
    if shadows != [] {
      var n := |shadows| - 1;
      MergeVersionBound(oldB, newB, shadows[..n]);
      forall j | 0 <= j < |shadows| && Version(shadows[j]) < TWELVE
        ensures Version(shadows[j]) <= MergeVersion(oldB, newB, shadows) {
        if j < n { assert shadows[..n][j] == shadows[j]; }
      }
    }
  }

  /** Below 12 a merge has no version, or 11. */
  lemma {:induction false} MergeVersionCases(bs: seq<Batch>, oldB: Bucket, newB: Bucket, shadows: seq<Bucket>, hi: nat, t: nat)
    requires hi <= t <= |bs| && AllShadows(bs, shadows, hi, t)
    requires Version(oldB) == 0 || (Version(oldB) == ELEVEN && 0 < t && bs[t - 1].protocol >= ELEVEN)
    requires Version(newB) == 0 || (Version(newB) == ELEVEN && 0 < t && bs[t - 1].protocol >= ELEVEN)
    ensures var v := MergeVersion(oldB, newB, shadows);
            v == 0 || (v == ELEVEN && 0 < t && bs[t - 1].protocol >= ELEVEN)
  {
    if shadows != [] {
      var n := |shadows| - 1;
      assert Shadow(bs, shadows[n], hi, t);
      assert forall j | 0 <= j < n :: shadows[..n][j] == shadows[j];
      MergeVersionCases(bs, oldB, newB, shadows[..n], hi, t);
    }
  }

  lemma {:induction false} MergeHeldKey(era: Era, bs: seq<Batch>, b1: Bucket, b2: Bucket, shadows: seq<Bucket>, keepDead: bool,
                     keepLifecycle: bool, lo: nat, mid: nat, hi: nat, t: nat, k: LedgerKey)
    requires lo <= mid <= hi <= t <= |bs| && Upgrading(bs)
    requires HeldKey(era, bs, b1, lo, mid, t, k) && HeldKey(era, bs, b2, mid, hi, t, k)
    requires era.ShadowFree? ==> shadows == []
    requires InAny(shadows, k) ==> Touched(bs, k, hi, t).Any() && (!keepLifecycle && 0 < lo ==> Touched(bs, k, hi, t).early)
    requires !keepLifecycle ==> NotInit(At(b1, k)) && NotInit(At(b2, k))
    requires !keepDead ==> lo == 0
    ensures Mergeable(At(b1, k), At(b2, k))
    ensures var m := MergedAt(b1, b2, shadows, keepDead, keepLifecycle, k);
            HeldAt(era, m, lo == 0, Touched(bs, k, lo, hi), Touched(bs, k, hi, t), Value(bs, k, lo), Value(bs, k, hi))
  {
    hide Touched, HeldAt, InAny, Combine, Mergeable;
    TouchedSplits(bs, k, lo, mid, hi);
    TouchedSplits(bs, k, mid, hi, t);
    TouchOrder(bs, k, lo, mid, hi);
    TouchOrder(bs, k, lo, mid, t);
    TouchOrder(bs, k, mid, hi, t);
    var here1, here2, later := Touched(bs, k, lo, mid), Touched(bs, k, mid, hi), Touched(bs, k, hi, t);
    var x, y, z := Value(bs, k, lo), Value(bs, k, mid), Value(bs, k, hi);
    if !here1.Any() { UntouchedKeepsValue(bs, k, lo, mid); }
    if !here2.Any() { UntouchedKeepsValue(bs, k, mid, hi); }
    if mid == 0 { NothingTouched(bs, k); }
    CombineHeld(era, At(b1, k), At(b2, k), lo == 0, mid == 0, here1, here2, later, x, y, z);
    MergedHeld(era, At(b1, k), At(b2, k), shadows, keepDead, keepLifecycle, k, lo == 0, here1.Or(here2), later, x, z);
  }

  /** What is left of a combined entry after elision keeps the account. */
  lemma MergedHeld(era: Era, o: Option<State>, n: Option<State>, shadows: seq<Bucket>, keepDead: bool, keepLifecycle: bool, k: LedgerKey,
                   bottom: bool, here: Touches, later: Touches, a: Option<Body>, b: Option<Body>)
    requires HeldAt(era, Combine(o, n), bottom, here, later, a, b)
    requires era.ShadowFree? ==> shadows == []
    requires InAny(shadows, k) ==> later.Any() && (!keepLifecycle && !bottom ==> later.early)
    requires !keepLifecycle ==> NotInit(o) && NotInit(n)
    requires !keepDead ==> bottom
    requires bottom ==> a.None?
    ensures HeldAt(era, MergedState(o, n, shadows, keepDead, keepLifecycle, k), bottom, here, later, a, b)
  {
    hide HeldAt, InAny, Combine;
    var c := Combine(o, n);
    if c.Some? {
      var shadowed, dropped := ShadowedOut(c.value, k, shadows, keepLifecycle), !keepDead && c.value.DEAD?;
      if shadowed || dropped {
        NoneInNoShadows(shadows, k);
        if !keepLifecycle { NotInitCombined(o, n); }
        ElideHeld(era, c.value, bottom, here, later, a, b, shadowed, dropped);
      }
    }
  }

  predicate NotInit(c: Option<State>) {
    c.Some? ==> !c.value.INIT?
  }

  lemma NotInitCombined(o: Option<State>, n: Option<State>)
    requires NotInit(o) && NotInit(n)
    ensures NotInit(Combine(o, n))
  {
  }

  lemma NothingTouched(bs: seq<Batch>, k: LedgerKey)
    ensures !Touched(bs, k, 0, 0).Any()
  {
  }

  lemma NoneInNoShadows(shadows: seq<Bucket>, k: LedgerKey)
    ensures shadows == [] ==> !InAny(shadows, k)
  {
  }

  /** A bucket whose newest batch is early holds no INIT. */
  lemma EarlyHasNoInit(era: Era, bs: seq<Batch>, b: Bucket, lo: nat, hi: nat, t: nat)
    requires lo <= hi <= t <= |bs| && Upgrading(bs) && Held(era, bs, b, lo, hi, t)
    requires lo < hi ==> bs[hi - 1].protocol < ELEVEN
    ensures !HasInit(b)
  {
    hide Touched, Exact, Stale;
    forall k | k in b.entries ensures !b.entries[k].INIT? {
      assert HeldKey(era, bs, b, lo, hi, t, k);
      assert At(b, k) == Some(b.entries[k]);
      if lo < hi { EarlyRange(bs, k, lo, hi); } else { NothingBetween(bs, k, lo); }
    }
  }

  lemma NothingBetween(bs: seq<Batch>, k: LedgerKey, x: nat)
    requires x <= |bs|
    ensures !Touched(bs, k, x, x).Any()
  {
  }

  /** The version of a merge of two adjacent ranges, and that it may run. */
  lemma MergeVersionHeld(era: Era, bs: seq<Batch>, b1: Bucket, b2: Bucket, shadows: seq<Bucket>, maxVersion: nat,
                         lo: nat, mid: nat, hi: nat, t: nat)
    requires lo <= mid < hi <= t <= |bs| && InEra(era, bs)
    requires MetaHeld(bs, b1, lo, mid, t) && MetaHeld(bs, b2, mid, hi, t)
    requires AllShadows(bs, shadows, hi, t) && (shadows != [] ==> bs[hi - 1].protocol < TWELVE)
    requires (if era.ShadowFree? then bs[hi - 1].protocol else bs[t - 1].protocol) <= maxVersion
    ensures var v := MergeVersion(b1, b2, shadows);
            && v <= maxVersion && (v >= TWELVE ==> shadows == [])
            && (bs[hi - 1].protocol >= ELEVEN ==> v == bs[hi - 1].protocol)
            && (bs[hi - 1].protocol < ELEVEN ==> v == 0 || (v == ELEVEN && bs[t - 1].protocol >= ELEVEN))
  {
    hide Shadow;
    assert bs[hi - 1].protocol <= bs[t - 1].protocol;
    assert lo < mid ==> bs[mid - 1].protocol <= bs[hi - 1].protocol;
    MergeVersionBound(b1, b2, shadows);
    if bs[hi - 1].protocol < TWELVE { MergeVersionCases(bs, b1, b2, shadows, hi, t); }
  }

  /** Merging the buckets of two adjacent ranges succeeds and gives a bucket of the joined range. */
  lemma MergeHeld(era: Era, bs: seq<Batch>, b1: Bucket, b2: Bucket, shadows: seq<Bucket>, keepDead: bool, maxVersion: nat,
                  lo: nat, mid: nat, hi: nat, t: nat)
    requires lo <= mid < hi <= t <= |bs| && InEra(era, bs)
    requires Held(era, bs, b1, lo, mid, t) && Held(era, bs, b2, mid, hi, t)
    requires era.ShadowFree? ==> shadows == []
    requires AllShadows(bs, shadows, hi, t) && (0 < lo ==> Quiet(b1, b2, shadows)) && (shadows != [] ==> bs[hi - 1].protocol < TWELVE)
    requires !keepDead ==> lo == 0
    requires (if era.ShadowFree? then bs[hi - 1].protocol else bs[t - 1].protocol) <= maxVersion
    ensures var r := Merge(b1, b2, shadows, keepDead, maxVersion);
            r.Success? && Held(era, bs, r.value, lo, hi, t)
  {
    hide MergeVersion, MergedEntries, HeldAt, Touched;
    MergeVersionHeld(era, bs, b1, b2, shadows, maxVersion, lo, mid, hi, t);
    MergeVersionBound(b1, b2, shadows);
    var v := MergeVersion(b1, b2, shadows);
    if v < ELEVEN {
      assert lo < mid ==> bs[mid - 1].protocol <= bs[hi - 1].protocol;
      EarlyHasNoInit(era, bs, b1, lo, mid, t);
      EarlyHasNoInit(era, bs, b2, mid, hi, t);
    }
    var m := Merged(b1, b2, shadows, keepDead);
    forall k ensures Mergeable(At(b1, k), At(b2, k)) && HeldKey(era, bs, m, lo, hi, t, k) {
      assert HeldKey(era, bs, b1, lo, mid, t, k) && HeldKey(era, bs, b2, mid, hi, t, k);
      ShadowTouches(bs, b1, b2, shadows, hi, t, k);
      MergeHeldKey(era, bs, b1, b2, shadows, keepDead, v >= ELEVEN, lo, mid, hi, t, k);
      MergedAtKey(b1, b2, shadows, keepDead, k);
    }
  }

  lemma ShadowTouches(bs: seq<Batch>, b1: Bucket, b2: Bucket, shadows: seq<Bucket>, hi: nat, t: nat, k: LedgerKey)
    requires hi <= t <= |bs| && AllShadows(bs, shadows, hi, t)
    ensures InAny(shadows, k) ==>
              Touched(bs, k, hi, t).Any() &&
              (Quiet(b1, b2, shadows) && MergeVersion(b1, b2, shadows) < ELEVEN ==> Touched(bs, k, hi, t).early)
  {
    hide Touched, MergeVersion;
    if InAny(shadows, k) {
      var j :| 0 <= j < |shadows| && k in shadows[j].entries;
      assert Shadow(bs, shadows[j], hi, t);
    }
  }

  // ----- the invariant of a run -----

  /** Both buckets of level i hold the ranges the schedule assigns them after t ledgers. */
  ghost predicate LevelHeld(era: Era, n: nat, bs: seq<Batch>, l: Level, i: nat, t: nat)
    requires i < n && t <= |bs|
  {
    TopsDescend(n, i, t);
    Held(era, bs, l.curr, SnapTop(n, i, t), CurrTop(n, i, t), t) &&
    Held(era, bs, l.snap, CurrTop(n, i + 1, t), SnapTop(n, i, t), t)
  }

  lemma PendingOrder(n: nat, i: nat, t: nat)
    requires 0 < i < n
    ensures PendingBottom(n, i, t) <= CurrTop(n, i, t) <= SnapTop(n, i - 1, t) <= t
  {
    TopsDescend(n, i, t);
    TopsDescend(n, i - 1, t);
  }

  /**
    Level i has a merge pending once level i - 1 has spilled, and unless it is
    harmful its result holds the range it will replace.
   */
  ghost predicate NextHeld(era: Era, n: nat, bs: seq<Batch>, l: Level, i: nat, t: nat)
    requires 0 < i < n && t <= |bs|
  {
    PendingOrder(n, i, t);
    if t < LevelHalf(i - 1) then l.next.Clear?
    else
      l.next.Pending? &&
      (!Harmful(n, Protocols(bs), Started(i, t), i) ==>
         Resolve(l.next).Success? && Held(era, bs, Resolve(l.next).value, PendingBottom(n, i, t), SnapTop(n, i - 1, t), t))
  }

  ghost predicate LevelOk(era: Era, n: nat, bs: seq<Batch>, l: Level, i: nat, t: nat)
    requires i < n && t <= |bs|
  {
    LevelHeld(era, n, bs, l, i, t) && (0 < i ==> NextHeld(era, n, bs, l, i, t))
  }

  ghost predicate Invariant(era: Era, n: nat, bs: seq<Batch>, levels: seq<Level>, t: nat)
    requires t <= |bs|
  {
    |levels| == n && forall i | 0 <= i < n :: LevelOk(era, n, bs, levels[i], i, t)
  }

  /** Everything in the levels below m was added after ledger CurrTop(m). */
  lemma TopsChain(n: nat, j: nat, m: nat, t: nat)
    requires j <= m <= n
    ensures CurrTop(n, m, t) <= CurrTop(n, j, t)
    decreases m - j
  {
    if j < m {
      TopsDescend(n, j, t);
      TopsChain(n, j + 1, m, t);
    }
  }

  lemma FlatHeld(era: Era, n: nat, bs: seq<Batch>, levels: seq<Level>, t: nat, j: nat)
    requires t <= |bs| && j < 2 * n && Invariant(era, n, bs, levels, t)
    ensures Top(n, j + 1, t) <= Top(n, j, t) <= t
    ensures Held(era, bs, Flat(levels)[j], Top(n, j + 1, t), Top(n, j, t), t)
  {
    hide CurrTop, SnapTop, Held;
    var i := j / 2;
    TopsDescend(n, i, t);
    assert LevelOk(era, n, bs, levels[i], i, t);
    assert j == 2 * i || j == 2 * i + 1;
    assert Flat(levels)[2 * i] == levels[i].curr && Flat(levels)[2 * i + 1] == levels[i].snap;
    assert (2 * i + 1) / 2 == i && (2 * i + 2) / 2 == i + 1;
  }

  lemma HeldIsShadow(era: Era, bs: seq<Batch>, b: Bucket, lo: nat, hi: nat, s: nat, t: nat, below: nat)
    requires below <= lo <= hi <= s <= t <= |bs| && Upgrading(bs) && Held(era, bs, b, lo, hi, s)
    ensures Shadow(bs, b, below, t)
  {
    hide Touched, Exact, Stale;
    forall k | k in b.entries
      ensures Touched(bs, k, below, t).Any() && (Version(b) < ELEVEN ==> Touched(bs, k, below, t).early) {
      assert HeldKey(era, bs, b, lo, hi, s, k);
      assert At(b, k).Some?;
      TouchedSplits(bs, k, below, lo, t);
      TouchedSplits(bs, k, lo, hi, t);
      if lo == hi { NothingBetween(bs, k, lo); }
      if lo < hi && Version(b) < ELEVEN { EarlyRange(bs, k, lo, hi); }
    }
    assert lo < hi ==> bs[hi - 1].protocol <= bs[s - 1].protocol <= bs[t - 1].protocol;
  }

  /** The buckets of levels 0 to m - 1 are shadows of anything that ends where level m does. */
  lemma BelowAreShadows(era: Era, n: nat, bs: seq<Batch>, levels: seq<Level>, s: nat, t: nat, m: nat)
    requires m < n && s < |bs| && t == s + 1 && Invariant(era, n, bs, levels, s) && Upgrading(bs)
    ensures CurrTop(n, m, s) <= s
    ensures AllShadows(bs, BucketsBelow(levels, m), CurrTop(n, m, s), t)
  {
    hide CurrTop, SnapTop, Shadow, LevelOk, Held, Top;
    TopsDescend(n, m, s);
    var below := BucketsBelow(levels, m);
    forall j | 0 <= j < 2 * m ensures Shadow(bs, below[j], CurrTop(n, m, s), t) {
      FlatHeld(era, n, bs, levels, s, j);
      ShadowTops(n, j, m, s);
      FlatBelow(levels, m, j);
      HeldIsShadow(era, bs, below[j], Top(n, j + 1, s), Top(n, j, s), s, t, CurrTop(n, m, s));
    }
  }

  lemma FlatBelow(levels: seq<Level>, m: nat, j: nat)
    requires m <= |levels| && j < 2 * m
    ensures BucketsBelow(levels, m)[j] == Flat(levels)[j]
  {
    assert j == 2 * (j / 2) || j == 2 * (j / 2) + 1;
  }

  /** The ranges of the buckets below level m all lie above where level m ends. */
  lemma ShadowTops(n: nat, j: nat, m: nat, s: nat)
    requires j < 2 * m && m <= n
    ensures CurrTop(n, m, s) <= Top(n, j + 1, s)
  {
    hide CurrTop, SnapTop;
    var i := j / 2;
    TopsChain(n, i + 1, m, s);
    if j % 2 == 0 {
      TopsDescend(n, i, s);
      assert (j + 1) / 2 == i;
    } else {
      assert (j + 1) / 2 == i + 1;
    }
  }

  // ----- one addBatch -----

  /** Snapping and committing put the right ranges into level i. */
  lemma CommitStep(era: Era, n: nat, bs: seq<Batch>, l: Level, i: nat, s: nat, t: nat)
    requires 0 < i < n && s < |bs| && t == s + 1 && Upgrading(bs) && LevelOk(era, n, bs, l, i, s)
    requires LevelShouldSpill(n, t, i - 1) && !Harmful(n, Protocols(bs), Started(i, s), i)
    ensures var c := Committed(if LevelShouldSpill(n, t, i) then Snapped(l) else l);
            c.Success? && LevelHeld(era, n, bs, c.value, i, t)
  {
    hide CurrTop, SnapTop, PendingBottom, LevelHalf, Mask, LevelShouldSpill, ShouldMergeWithEmptyCurr, Harmful;
    TopsDescend(n, i, t);
    TopsDescend(n, i, s);
    PendingOrder(n, i, s);
    SpillTops(n, i, s, t);
    HeldLater(era, bs, l.curr, SnapTop(n, i, s), CurrTop(n, i, s), s);
    HeldLater(era, bs, l.snap, CurrTop(n, i + 1, s), SnapTop(n, i, s), s);
    if LevelHalf(i - 1) <= s {
      HeldLater(era, bs, Resolve(l.next).value, PendingBottom(n, i, s), SnapTop(n, i - 1, s), s);
    }
  }

  /** The merge that addBatch starts at level i is well formed and will give the next curr(i). */
  lemma PrepareStep(era: Era, n: nat, bs: seq<Batch>, levels: seq<Level>, l: Level, i: nat, s: nat, t: nat)
    requires 0 < i < n && s < |bs| && t == s + 1 && InEra(era, bs) && Invariant(era, n, bs, levels, s)
    requires LevelShouldSpill(n, t, i - 1) && LevelHeld(era, n, bs, l, i, t)
    requires LevelVersions(l, VersionsAfter(n, Protocols(bs), t)[i])
    requires l.next == Prepare(n, i, t, bs[s].protocol, l.curr, levels[i - 1].curr, BucketsBelow(levels, i - 1))
    ensures NextHeld(era, n, bs, l, i, t)
  {
    hide CurrTop, SnapTop, PendingBottom, LevelHalf, Mask, LevelShouldSpill, ShouldMergeWithEmptyCurr, Shadow, HeldKey, Merge, BucketsBelow;
    hide Harmful, Quiet, AllShadows, Invariant, VersionsAfter;
    PendingOrder(n, i, t);
    SpillTops(n, i, s, t);
    var lo, mid, hi := PendingBottom(n, i, t), CurrTop(n, i, t), SnapTop(n, i - 1, t);
    LastPending(n, i, t);
    SpilledSnap(era, n, bs, levels, i, s, t);
    EmptyHeld(era, bs, mid, t);
    var f := l.next;
    if f.shadows == [] {
      NoShadows(bs, f.curr, f.snap, hi, t);
    } else if !Harmful(n, Protocols(bs), t, i) {
      HarmlessIsQuiet(era, n, bs, levels, f.curr, i, s, t);
    }
    StartedStep(n, i, s, t);
    if !Harmful(n, Protocols(bs), t, i) {
      MergeHeld(era, bs, f.curr, f.snap, f.shadows, f.keepDead, f.maxVersion, lo, mid, hi, t);
    }
  }

  lemma NoShadows(bs: seq<Batch>, b1: Bucket, b2: Bucket, hi: nat, t: nat)
    requires hi <= t <= |bs|
    ensures AllShadows(bs, [], hi, t) && Quiet(b1, b2, [])
  {
  }

  /** What level i - 1 spills, and the shadows addBatch hands to the merge, suit the merge of level i. */
  lemma SpilledSnap(era: Era, n: nat, bs: seq<Batch>, levels: seq<Level>, i: nat, s: nat, t: nat)
    requires 0 < i < n && s < |bs| && t == s + 1 && InEra(era, bs) && Invariant(era, n, bs, levels, s)
    requires LevelShouldSpill(n, t, i - 1)
    requires CurrTop(n, i, t) < SnapTop(n, i - 1, t) <= t
    ensures var snap, mid, hi := levels[i - 1].curr, CurrTop(n, i, t), SnapTop(n, i - 1, t);
            && Held(era, bs, snap, mid, hi, t)
            && (Version(snap) >= TWELVE <==> bs[hi - 1].protocol >= TWELVE)
            && (era.ShadowFree? ==> Version(snap) >= TWELVE)
            && AllShadows(bs, BucketsBelow(levels, i - 1), hi, t)
  {
    hide CurrTop, SnapTop, LevelShouldSpill, HeldKey, AllShadows, BucketsBelow;
    SpillTops(n, i, s, t);
    TopsDescend(n, i - 1, s);
    var snap, mid, hi := levels[i - 1].curr, CurrTop(n, i, t), SnapTop(n, i - 1, t);
    assert LevelOk(era, n, bs, levels[i - 1], i - 1, s);
    HeldLater(era, bs, snap, mid, hi, s);
    BelowAreShadows(era, n, bs, levels, s, t, i - 1);
  }

  /** A merge below version 11 that is not harmful, and does not reach back to ledger 1, has only shadows below 11. */
  lemma HarmlessIsQuiet(era: Era, n: nat, bs: seq<Batch>, levels: seq<Level>, curr: Bucket, i: nat, s: nat, t: nat)
    requires 0 < i < n && s < |bs| && t == s + 1 && Upgrading(bs) && Invariant(era, n, bs, levels, s)
    requires LevelShouldSpill(n, t, i - 1) && !Harmful(n, Protocols(bs), t, i)
    requires CurrTop(n, i, t) < SnapTop(n, i - 1, t) <= t
    requires Held(era, bs, levels[i - 1].curr, CurrTop(n, i, t), SnapTop(n, i - 1, t), t)
    requires VersionsAfter(n, Protocols(bs), t)[i].next ==
             Some(Shown(MergeVersion(curr, levels[i - 1].curr, BucketsBelow(levels, i - 1))))
    ensures 0 < PendingBottom(n, i, t) ==> Quiet(curr, levels[i - 1].curr, BucketsBelow(levels, i - 1))
  {
    hide CurrTop, SnapTop, PendingBottom, LevelShouldSpill, HeldKey, Top, LevelOk, MergeVersion, VersionsAfter;
    var snap, shadows := levels[i - 1].curr, BucketsBelow(levels, i - 1);
    MergeVersionBound(curr, snap, shadows);
    forall j | 0 <= j < |shadows|
      ensures 0 < PendingBottom(n, i, t) && MergeVersion(curr, snap, shadows) < ELEVEN ==> Version(shadows[j]) < ELEVEN {
      FlatHeld(era, n, bs, levels, s, j);
      FlatBelow(levels, i - 1, j);
      VersionBound(era, bs, shadows[j], Top(n, j + 1, s), Top(n, j, s), s);
    }
  }

  /** No bucket is from a protocol later than the newest batch. */
  lemma VersionBound(era: Era, bs: seq<Batch>, b: Bucket, lo: nat, hi: nat, s: nat)
    requires lo <= hi <= s <= |bs| && Upgrading(bs) && Held(era, bs, b, lo, hi, s)
    ensures Version(b) <= if s == 0 then 0 else bs[s - 1].protocol
  {
    hide HeldKey;
    assert lo < hi ==> bs[hi - 1].protocol <= bs[s - 1].protocol;
  }

  lemma LastPending(n: nat, i: nat, t: nat)
    requires 0 < i < n
    ensures !KeepDeadEntries(n, i) ==> PendingBottom(n, i, t) == 0
    ensures PendingBottom(n, i, t) == if ShouldMergeWithEmptyCurr(n, t, i) then CurrTop(n, i, t) else SnapTop(n, i, t)
  {
  }

  /** Nothing moves at a level whose younger neighbour does not spill. */
  lemma IdleStep(era: Era, n: nat, bs: seq<Batch>, l: Level, i: nat, s: nat, t: nat)
    requires 0 < i < n && s < |bs| && t == s + 1 && Upgrading(bs) && LevelOk(era, n, bs, l, i, s)
    requires !LevelShouldSpill(n, t, i - 1)
    ensures LevelOk(era, n, bs, l, i, t)
  {
    hide CurrTop, SnapTop, LevelHalf, Mask, LevelShouldSpill, ShouldMergeWithEmptyCurr, Harmful, Started;
    TopsDescend(n, i, t);
    TopsDescend(n, i, s);
    PendingOrder(n, i, s);
    PendingOrder(n, i, t);
    IdleTops(n, i, s, t);
    StartedStep(n, i, s, t);
    HeldLater(era, bs, l.curr, SnapTop(n, i, s), CurrTop(n, i, s), s);
    HeldLater(era, bs, l.snap, CurrTop(n, i + 1, s), SnapTop(n, i, s), s);
    if LevelHalf(i - 1) <= s {
      if !Harmful(n, Protocols(bs), Started(i, s), i) {
        HeldLater(era, bs, Resolve(l.next).value, PendingBottom(n, i, s), SnapTop(n, i - 1, s), s);
      }
    }
  }

  /** The fresh bucket is merged into curr(0) in the same call. */
  lemma YoungestStep(era: Era, n: nat, bs: seq<Batch>, levels: seq<Level>, s: nat, t: nat)
    requires 2 <= n && s < |bs| && t == s + 1 && InEra(era, bs) && WellFormed(bs) && Invariant(era, n, bs, levels, s)
    ensures var r := NewLevel(n, levels, t, bs[s].protocol, Fresh(bs[s]), 0);
            r.Success? && LevelOk(era, n, bs, r.value, 0, t)
  {
    hide SnapTop, LevelShouldSpill, Fresh;
    TopsDescend(n, 0, s);
    TopsDescend(n, 0, t);
    TopsStep(n, 0, t);
    var l := levels[0];
    assert LevelOk(era, n, bs, l, 0, s);
    HeldLater(era, bs, l.curr, SnapTop(n, 0, s), s, s);
    HeldLater(era, bs, l.snap, CurrTop(n, 1, s), SnapTop(n, 0, s), s);
    FreshHeld(era, bs, s, t);
    EmptyHeld(era, bs, s, t);
    var curr := if LevelShouldSpill(n, t, 0) then EmptyBucket else l.curr;
    NoShadows(bs, curr, Fresh(bs[s]), t, t);
    MergeHeld(era, bs, curr, Fresh(bs[s]), [], true, bs[s].protocol, SnapTop(n, 0, t), s, t, t);
  }

  lemma OlderStep(era: Era, n: nat, bs: seq<Batch>, levels: seq<Level>, i: nat, s: nat, t: nat)
    requires 0 < i < n && s < |bs| && t == s + 1 && InEra(era, bs) && Invariant(era, n, bs, levels, s)
    requires ListVersions(levels, VersionsAfter(n, Protocols(bs), s))
    requires LevelShouldSpill(n, t, i - 1) ==> !Harmful(n, Protocols(bs), Started(i, s), i)
    ensures var r := OlderLevel(n, levels, t, bs[s].protocol, i);
            r.Success? && LevelOk(era, n, bs, r.value, i, t)
  {
    hide LevelShouldSpill, ShouldMergeWithEmptyCurr, CurrTop, SnapTop, Harmful, LevelVersions, VersionStep, Started;
    assert LevelOk(era, n, bs, levels[i], i, s);
    if LevelShouldSpill(n, t, i - 1) {
      CommitStep(era, n, bs, levels[i], i, s, t);
      OlderVersions(n, levels, VersionsAfter(n, Protocols(bs), s), t, bs[s].protocol, i);
      PrepareStep(era, n, bs, levels, OlderLevel(n, levels, t, bs[s].protocol, i).value, i, s, t);
    } else {
      IdleTops(n, i, s, t);
      IdleStep(era, n, bs, levels[i], i, s, t);
    }
  }

  /** addBatch keeps the invariant, and does not throw, unless it commits a harmful merge. */
  lemma AddBatchStep(era: Era, n: nat, bs: seq<Batch>, levels: seq<Level>, s: nat, t: nat)
    requires 2 <= n && s < |bs| && t == s + 1 && InEra(era, bs) && WellFormed(bs) && Invariant(era, n, bs, levels, s)
    requires ListVersions(levels, VersionsAfter(n, Protocols(bs), s)) && Harmless(n, Protocols(bs), t)
    ensures var r := AddBatch(n, levels, t, bs[s].protocol, Fresh(bs[s]));
            r.Success? && Invariant(era, n, bs, r.value, t)
  {
    hide OlderLevel, YoungestLevel, LevelOk, Fresh, Harmful, ListVersions, LevelShouldSpill, LevelHalf, Started;
    forall i: nat | i < n
      ensures var r := NewLevel(n, levels, t, bs[s].protocol, Fresh(bs[s]), i);
              r.Success? && LevelOk(era, n, bs, r.value, i, t)
    {
      if i == 0 {
        YoungestStep(era, n, bs, levels, s, t);
      } else {
        StartedStep(n, i, s, t);
        OlderStep(era, n, bs, levels, i, s, t);
      }
    }
    var r := AddBatch(n, levels, t, bs[s].protocol, Fresh(bs[s]));
    forall i: nat | i < n ensures LevelOk(era, n, bs, r.value[i], i, t) {
      assert r.value[i - 0] == NewLevel(n, levels, t, bs[s].protocol, Fresh(bs[s]), i).value;
    }
  }

  lemma {:induction false} RunInvariant(era: Era, n: nat, bs: seq<Batch>, t: nat)
    requires 2 <= n && t <= |bs| && InEra(era, bs) && WellFormed(bs) && Harmless(n, Protocols(bs), t)
    ensures var r := Run(n, bs, t);
            r.Success? && Invariant(era, n, bs, r.value, t)
  {
    hide LevelOk, InEra, WellFormed, Harmful, AddBatch, Fresh, LevelHalf, ListVersions;
    if t == 0 {
      forall i | 0 <= i < n ensures LevelOk(era, n, bs, EmptyLevel, i, 0) { NothingHeld(era, n, bs, i); }
    } else {
      RunInvariant(era, n, bs, t - 1);
      VersionsAre(n, bs, t - 1);
      AddBatchStep(era, n, bs, Run(n, bs, t - 1).value, t - 1, t);
    }
  }

  lemma NothingHeld(era: Era, n: nat, bs: seq<Batch>, i: nat)
    requires i < n
    ensures LevelOk(era, n, bs, EmptyLevel, i, 0)
  {
    hide Held, Harmful;
    TopsDescend(n, i, 0);
    EmptyHeld(era, bs, 0, 0);
  }
}
