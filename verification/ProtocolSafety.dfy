/**
  Protocol upgrades: whatever the batches contain, as long as their protocol
  versions never decrease, no merge exceeds its maximum version, meets shadows it
  does not support, or meets an entry its version does not allow
  (src/bucket/Bucket.cpp:200-213 and 362-428, src/bucket/BucketList.cpp:167-173).
 */
module ProtocolSafety {
  import opened Wrappers
  import opened Buckets
  import opened Schedule
  import opened ListModel
  import opened Runs
  import opened Refinement

  /** The newest protocol seen after t batches. */
  function ProtocolAt(bs: seq<Batch>, t: nat): nat
    requires t <= |bs|
  {
    if t == 0 then 0 else bs[t - 1].protocol
  }

  /** A bucket of batches lo + 1 to hi: no version from the future, 12 or later exactly if its newest batch is, INIT only from 11. */
  predicate Versioned(bs: seq<Batch>, b: Bucket, lo: nat, hi: nat, t: nat)
    requires lo <= hi <= t <= |bs|
  {
    Version(b) <= ProtocolAt(bs, t) &&
    (Version(b) >= FIRST_PROTOCOL_SHADOWS_REMOVED <==> lo < hi && bs[hi - 1].protocol >= FIRST_PROTOCOL_SHADOWS_REMOVED) &&
    (HasInit(b) ==> Version(b) >= FIRST_PROTOCOL_SUPPORTING_INITENTRY_AND_METAENTRY)
  }

  /** A merge that can fail only for its lifecycle states. */
  predicate SafeMerge(bs: seq<Batch>, r: Result<Bucket, MergeError>, lo: nat, hi: nat, t: nat)
    requires lo <= hi <= t <= |bs|
  {
    match r
    case Success(b) => Versioned(bs, b, lo, hi, t)
    case Failure(e) => e == MalformedLifecycle
  }

  lemma {:induction false} MergeVersionBounds(oldB: Bucket, newB: Bucket, shadows: seq<Bucket>, v: nat)
    requires Version(oldB) <= v && Version(newB) <= v
    requires forall j | 0 <= j < |shadows| :: Version(shadows[j]) <= v
    ensures Version(oldB) <= MergeVersion(oldB, newB, shadows) <= v
    ensures Version(newB) <= MergeVersion(oldB, newB, shadows)
    ensures MergeVersion(oldB, newB, shadows) >= FIRST_PROTOCOL_SHADOWS_REMOVED <==>
            Version(oldB) >= FIRST_PROTOCOL_SHADOWS_REMOVED || Version(newB) >= FIRST_PROTOCOL_SHADOWS_REMOVED
  {
    if shadows != [] {
      MergeVersionBounds(oldB, newB, shadows[..|shadows| - 1], v);
    }
  }

  lemma NoInitOut(oldB: Bucket, newB: Bucket, shadows: seq<Bucket>, keepDead: bool)
    requires !HasInit(oldB) && !HasInit(newB)
    ensures !HasInit(Merged(oldB, newB, shadows, keepDead))
  {
    var m := Merged(oldB, newB, shadows, keepDead);
    forall k | k in m.entries ensures !m.entries[k].INIT? {
      MergedAtKey(oldB, newB, shadows, keepDead, k);
    }
  }

  lemma MergeSafe(bs: seq<Batch>, b1: Bucket, b2: Bucket, shadows: seq<Bucket>, keepDead: bool, lo: nat, mid: nat, hi: nat, t: nat)
    requires lo <= mid < hi <= t <= |bs| && Upgrading(bs)
    requires Versioned(bs, b1, lo, mid, t) && Versioned(bs, b2, mid, hi, t)
    requires Version(b2) >= FIRST_PROTOCOL_SHADOWS_REMOVED ==> shadows == []
    requires forall j | 0 <= j < |shadows| :: Version(shadows[j]) <= ProtocolAt(bs, t)
    ensures SafeMerge(bs, Merge(b1, b2, shadows, keepDead, ProtocolAt(bs, t)), lo, hi, t)
  {
    MergeVersionBounds(b1, b2, shadows, ProtocolAt(bs, t));
    assert lo < mid ==> bs[mid - 1].protocol <= bs[hi - 1].protocol;
    if MergeVersion(b1, b2, shadows) < FIRST_PROTOCOL_SUPPORTING_INITENTRY_AND_METAENTRY {
      NoInitOut(b1, b2, shadows, keepDead);
    }
  }

  lemma FreshVersioned(bs: seq<Batch>, s: nat, t: nat)
    requires s < |bs| && t == s + 1
    ensures Versioned(bs, Fresh(bs[s]), s, t, t)
  {
  }

  lemma VersionedLater(bs: seq<Batch>, b: Bucket, lo: nat, hi: nat, s: nat, t: nat)
    requires lo <= hi <= s < |bs| && t == s + 1 && Upgrading(bs) && Versioned(bs, b, lo, hi, s)
    ensures Versioned(bs, b, lo, hi, t)
  {
    assert s > 0 ==> bs[s - 1].protocol <= bs[s].protocol;
  }

  // ----- the invariant -----

  predicate BucketsVersioned(n: nat, bs: seq<Batch>, l: Level, i: nat, t: nat)
    requires i < n && t <= |bs|
  {
    TopsDescend(n, i, t);
    Versioned(bs, l.curr, SnapTop(n, i, t), CurrTop(n, i, t), t) &&
    Versioned(bs, l.snap, CurrTop(n, i + 1, t), SnapTop(n, i, t), t)
  }

  predicate NextSafe(n: nat, bs: seq<Batch>, l: Level, i: nat, t: nat)
    requires 0 < i < n && t <= |bs|
  {
    PendingOrder(n, i, t);
    if t < LevelHalf(i - 1) then l.next.Clear?
    else l.next.Pending? && SafeMerge(bs, Resolve(l.next), PendingBottom(n, i, t), SnapTop(n, i - 1, t), t)
  }

  predicate LevelSafe(n: nat, bs: seq<Batch>, l: Level, i: nat, t: nat)
    requires i < n && t <= |bs|
  {
    BucketsVersioned(n, bs, l, i, t) && (0 < i ==> NextSafe(n, bs, l, i, t))
  }

  predicate Safe(n: nat, bs: seq<Batch>, levels: seq<Level>, t: nat)
    requires t <= |bs|
  {
    |levels| == n && forall i | 0 <= i < n :: LevelSafe(n, bs, levels[i], i, t)
  }

  predicate LevelOutcome(n: nat, bs: seq<Batch>, r: Result<Level, MergeError>, i: nat, t: nat)
    requires i < n && t <= |bs|
  {
    match r
    case Success(l) => LevelSafe(n, bs, l, i, t)
    case Failure(e) => e == MalformedLifecycle
  }

  lemma SafeCommit(n: nat, bs: seq<Batch>, l: Level, i: nat, s: nat, t: nat)
    requires 0 < i < n && s < |bs| && t == s + 1 && Upgrading(bs) && LevelSafe(n, bs, l, i, s)
    requires LevelShouldSpill(n, t, i - 1)
    ensures match Committed(if LevelShouldSpill(n, t, i) then Snapped(l) else l)
            case Success(c) => BucketsVersioned(n, bs, c, i, t)
            case Failure(e) => e == MalformedLifecycle
  {
    hide CurrTop, SnapTop, PendingBottom, LevelHalf, LevelShouldSpill, Versioned, Merge;
    TopsDescend(n, i, t);
    TopsDescend(n, i, s);
    PendingOrder(n, i, s);
    SpillTops(n, i, s, t);
    VersionedLater(bs, l.curr, SnapTop(n, i, s), CurrTop(n, i, s), s, t);
    VersionedLater(bs, l.snap, CurrTop(n, i + 1, s), SnapTop(n, i, s), s, t);
    if LevelHalf(i - 1) <= s && Resolve(l.next).Success? {
      VersionedLater(bs, Resolve(l.next).value, PendingBottom(n, i, s), SnapTop(n, i - 1, s), s, t);
    }
  }

  lemma EmptyVersioned(bs: seq<Batch>, x: nat, t: nat)
    requires x <= t <= |bs|
    ensures Versioned(bs, EmptyBucket, x, x, t)
  {
  }

  /** No bucket of the list has a version newer than the batch being added. */
  lemma BelowVersions(n: nat, bs: seq<Batch>, levels: seq<Level>, m: nat, s: nat, t: nat)
    requires m <= n && s < |bs| && t == s + 1 && Upgrading(bs) && Safe(n, bs, levels, s)
    ensures forall j | 0 <= j < |BucketsBelow(levels, m)| :: Version(BucketsBelow(levels, m)[j]) <= ProtocolAt(bs, t)
  {
    hide CurrTop, SnapTop, NextSafe, LevelShouldSpill;
    var below := BucketsBelow(levels, m);
    assert s > 0 ==> bs[s - 1].protocol <= bs[s].protocol;
    forall j | 0 <= j < |below| ensures Version(below[j]) <= ProtocolAt(bs, t) {
      var i := j / 2;
      assert LevelSafe(n, bs, levels[i], i, s);
      assert below[2 * i] == levels[i].curr && below[2 * i + 1] == levels[i].snap;
      assert j == 2 * i || j == 2 * i + 1;
    }
  }

  lemma SafePrepare(n: nat, bs: seq<Batch>, levels: seq<Level>, l: Level, i: nat, s: nat, t: nat)
    requires 0 < i < n && s < |bs| && t == s + 1 && Upgrading(bs) && Safe(n, bs, levels, s)
    requires LevelShouldSpill(n, t, i - 1) && BucketsVersioned(n, bs, l, i, t)
    requires l.next == Prepare(n, i, t, bs[s].protocol, l.curr, levels[i - 1].curr, BucketsBelow(levels, i - 1))
    ensures NextSafe(n, bs, l, i, t)
  {
    hide CurrTop, SnapTop, PendingBottom, LevelHalf, LevelShouldSpill, ShouldMergeWithEmptyCurr, Merge, NextSafe, Upgrading, BucketsBelow, Version;
    PendingOrder(n, i, t);
    SpillTops(n, i, s, t);
    LastPending(n, i, t);
    TopsDescend(n, i - 1, s);
    var lo, mid, hi := PendingBottom(n, i, t), CurrTop(n, i, t), SnapTop(n, i - 1, t);
    var snap := levels[i - 1].curr;
    assert LevelSafe(n, bs, levels[i - 1], i - 1, s);
    VersionedLater(bs, snap, mid, hi, s, t);
    EmptyVersioned(bs, mid, t);
    BelowVersions(n, bs, levels, i - 1, s, t);
    var f := l.next;
    MergeSafe(bs, f.curr, f.snap, f.shadows, f.keepDead, lo, mid, hi, t);
    NextSafeIs(n, bs, l, i, t);
  }

  lemma NextSafeIs(n: nat, bs: seq<Batch>, l: Level, i: nat, t: nat)
    requires 0 < i < n && t <= |bs| && l.next.Pending? && LevelHalf(i - 1) <= t
    requires PendingBottom(n, i, t) <= SnapTop(n, i - 1, t) <= t
    requires SafeMerge(bs, Resolve(l.next), PendingBottom(n, i, t), SnapTop(n, i - 1, t), t)
    ensures NextSafe(n, bs, l, i, t)
  {
  }

  lemma SafeIdle(n: nat, bs: seq<Batch>, l: Level, i: nat, s: nat, t: nat)
    requires 0 < i < n && s < |bs| && t == s + 1 && Upgrading(bs) && LevelSafe(n, bs, l, i, s)
    requires !LevelShouldSpill(n, t, i - 1)
    ensures LevelSafe(n, bs, l, i, t)
  {
    hide CurrTop, SnapTop, LevelHalf, LevelShouldSpill, ShouldMergeWithEmptyCurr, Versioned, Merge, Upgrading;
    TopsDescend(n, i, t);
    TopsDescend(n, i, s);
    PendingOrder(n, i, s);
    PendingOrder(n, i, t);
    IdleTops(n, i, s, t);
    VersionedLater(bs, l.curr, SnapTop(n, i, s), CurrTop(n, i, s), s, t);
    VersionedLater(bs, l.snap, CurrTop(n, i + 1, s), SnapTop(n, i, s), s, t);
    if LevelHalf(i - 1) <= s && Resolve(l.next).Success? {
      VersionedLater(bs, Resolve(l.next).value, PendingBottom(n, i, s), SnapTop(n, i - 1, s), s, t);
    }
  }

  lemma SafeYoungest(n: nat, bs: seq<Batch>, levels: seq<Level>, s: nat, t: nat)
    requires 2 <= n && s < |bs| && t == s + 1 && Upgrading(bs) && Safe(n, bs, levels, s)
    ensures LevelOutcome(n, bs, YoungestLevel(n, levels, t, bs[s].protocol, Fresh(bs[s])), 0, t)
  {
    hide SnapTop, LevelShouldSpill, Fresh, Versioned, Upgrading, Merge;
    TopsDescend(n, 0, s);
    TopsDescend(n, 0, t);
    TopsStep(n, 0, t);
    var l := levels[0];
    assert LevelSafe(n, bs, l, 0, s);
    VersionedLater(bs, l.curr, SnapTop(n, 0, s), s, s, t);
    VersionedLater(bs, l.snap, CurrTop(n, 1, s), SnapTop(n, 0, s), s, t);
    FreshVersioned(bs, s, t);
    EmptyVersioned(bs, s, t);
    var curr := if LevelShouldSpill(n, t, 0) then EmptyBucket else l.curr;
    MergeSafe(bs, curr, Fresh(bs[s]), [], true, SnapTop(n, 0, t), s, t, t);
  }

  lemma SafeOlder(n: nat, bs: seq<Batch>, levels: seq<Level>, i: nat, s: nat, t: nat)
    requires 0 < i < n && s < |bs| && t == s + 1 && Upgrading(bs) && Safe(n, bs, levels, s)
    ensures LevelOutcome(n, bs, OlderLevel(n, levels, t, bs[s].protocol, i), i, t)
  {
    hide LevelShouldSpill, ShouldMergeWithEmptyCurr, CurrTop, SnapTop, Versioned, Upgrading, NextSafe;
    assert LevelSafe(n, bs, levels[i], i, s);
    var r := OlderLevel(n, levels, t, bs[s].protocol, i);
    if LevelShouldSpill(n, t, i - 1) {
      SafeCommit(n, bs, levels[i], i, s, t);
      if r.Success? { SafePrepare(n, bs, levels, r.value, i, s, t); }
    } else {
      IdleTops(n, i, s, t);
      SafeIdle(n, bs, levels[i], i, s, t);
    }
  }

  lemma SafeStep(n: nat, bs: seq<Batch>, levels: seq<Level>, s: nat, t: nat)
    requires 2 <= n && s < |bs| && t == s + 1 && Upgrading(bs) && Safe(n, bs, levels, s)
    ensures match AddBatch(n, levels, t, bs[s].protocol, Fresh(bs[s]))
            case Success(after) => Safe(n, bs, after, t)
            case Failure(e) => e == MalformedLifecycle
  {
    hide OlderLevel, YoungestLevel, LevelSafe, Fresh, Upgrading;
    forall i: nat | i < n ensures LevelOutcome(n, bs, NewLevel(n, levels, t, bs[s].protocol, Fresh(bs[s]), i), i, t) {
      if i == 0 {
        SafeYoungest(n, bs, levels, s, t);
      } else {
        SafeOlder(n, bs, levels, i, s, t);
      }
    }
    var r := AddBatch(n, levels, t, bs[s].protocol, Fresh(bs[s]));
    if r.Success? {
      forall i: nat | i < n ensures LevelSafe(n, bs, r.value[i], i, t) {
        assert r.value[i - 0] == NewLevel(n, levels, t, bs[s].protocol, Fresh(bs[s]), i).value;
      }
    }
  }

  /**
    Protocol safety: a run whose versions never decrease can fail only for a
    malformed lifecycle, never for its protocol versions, at any ledger and
    through any number of upgrades. Nothing is assumed about the batches.
   */
  lemma {:induction false} NeverAProtocolError(n: nat, bs: seq<Batch>, t: nat)
    requires 2 <= n && t <= |bs| && Upgrading(bs)
    ensures match Run(n, bs, t)
            case Success(levels) => Safe(n, bs, levels, t)
            case Failure(e) => e == MalformedLifecycle
  {
    hide LevelSafe, Upgrading, AddBatch, Fresh;
    if t == 0 {
      forall i | 0 <= i < n ensures LevelSafe(n, bs, EmptyLevel, i, 0) {
        InitiallySafe(n, bs, i);
      }
    } else {
      NeverAProtocolError(n, bs, t - 1);
      if Run(n, bs, t - 1).Success? { SafeStep(n, bs, Run(n, bs, t - 1).value, t - 1, t); }
    }
  }

  // ----- versions that fall -----

  /** A merge that runs is within the protocol of the ledger that started it. */
  predicate Bounded(bs: seq<Batch>, l: Level, i: nat, t: nat)
    requires t <= |bs|
  {
    if i == 0 then l.next.Clear? && (0 < t ==> Version(l.curr) <= bs[t - 1].protocol)
    else l.next.Clear? || (0 < Started(i, t) && l.next.maxVersion == bs[Started(i, t) - 1].protocol)
  }

  lemma BoundedYoungest(n: nat, bs: seq<Batch>, levels: seq<Level>, t: nat)
    requires 0 < n == |levels| && 0 < t <= |bs| && YoungestLevel(n, levels, t, bs[t - 1].protocol, Fresh(bs[t - 1])).Success?
    ensures Bounded(bs, YoungestLevel(n, levels, t, bs[t - 1].protocol, Fresh(bs[t - 1])).value, 0, t)
  {
    hide LevelShouldSpill, MergeVersion, MergedEntries, HasInit, AllMergeable, Fresh;
  }

  lemma BoundedOlder(n: nat, bs: seq<Batch>, levels: seq<Level>, t: nat, i: nat)
    requires 0 < i < n == |levels| && 0 < t <= |bs| && OlderLevel(n, levels, t, bs[t - 1].protocol, i).Success?
    requires Bounded(bs, levels[i], i, t - 1)
    ensures Bounded(bs, OlderLevel(n, levels, t, bs[t - 1].protocol, i).value, i, t)
  {
    hide LevelShouldSpill, Merge, BucketsBelow, ShouldMergeWithEmptyCurr, Started;
    StartedStep(n, i, t - 1, t);
  }

  /**
    Whatever the protocol versions do, in a run that has not failed the newest
    bucket is no newer than the ledger's protocol, and every pending merge is held
    to the protocol of the ledger that started it.
   */
  lemma {:induction false} NeverNewerThanTheLedger(n: nat, bs: seq<Batch>, t: nat, i: nat)
    requires i < n && t <= |bs| && Run(n, bs, t).Success?
    ensures Bounded(bs, Run(n, bs, t).value[i], i, t)
  {
    hide OlderLevel, YoungestLevel, Fresh, Bounded;
    if t == 0 {
      assert Bounded(bs, EmptyLevel, i, 0) by { EmptyBounded(bs, i); }
    } else {
      NeverNewerThanTheLedger(n, bs, t - 1, i);
      var levels, b := Run(n, bs, t - 1).value, bs[t - 1];
      assert NewLevel(n, levels, t, b.protocol, Fresh(b), i).Success?;
      assert Run(n, bs, t).value[i - 0] == NewLevel(n, levels, t, b.protocol, Fresh(b), i).value;
      if i == 0 { BoundedYoungest(n, bs, levels, t); } else { BoundedOlder(n, bs, levels, t, i); }
    }
  }

  lemma EmptyBounded(bs: seq<Batch>, i: nat)
    ensures Bounded(bs, EmptyLevel, i, 0)
  {
  }

  lemma InitiallySafe(n: nat, bs: seq<Batch>, i: nat)
    requires i < n
    ensures LevelSafe(n, bs, EmptyLevel, i, 0)
  {
    TopsDescend(n, i, 0);
    EmptyVersioned(bs, 0, 0);
  }
}
