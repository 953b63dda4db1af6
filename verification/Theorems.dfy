/** What every reachable bucket list looks like to a reader, and what each of its buckets is. */
module Theorems {
  import opened Wrappers
  import opened LedgerCmp
  import opened Buckets
  import opened Schedule
  import opened ListModel
  import opened Runs
  import opened Versions
  import opened Refinement

  // ----- reading newest first -----

  /**
    Reading from any position on. What is read is right unless a younger batch
    touched the key again, and without shadows it is always right. A key that is
    absent reads as absent unless a batch before protocol 11 touched it again,
    and in a run from 11 on a key that is present reads as present.
   */
  lemma {:induction false} ReadFrom(era: Era, n: nat, bs: seq<Batch>, levels: seq<Level>, t: nat, j: nat, k: LedgerKey)
    requires 0 < n == |levels| && t <= |bs| && j <= 2 * n && Invariant(era, n, bs, levels, t) && Upgrading(bs)
    ensures Top(n, j, t) <= t
    ensures Reads(era, From(ELEVEN, bs), NewestFrom(Flat(levels), j, k), Touched(bs, k, Top(n, j, t), t),
                  Value(bs, k, Top(n, j, t)), Top(n, j, t) == 0)
    decreases 2 * n - j
  {
    hide Top, Invariant, HeldAt, Flat, Net, Stale, Touched, Reads;
    if j == 2 * n {
      TopsEnd(n, t);
      ReadsNothing(era, From(ELEVEN, bs), Touched(bs, k, 0, t));
    } else {
      FlatHeld(era, n, bs, levels, t, j);
      ReadFrom(era, n, bs, levels, t, j + 1, k);
      var lo, hi := Top(n, j + 1, t), Top(n, j, t);
      assert HeldKey(era, bs, Flat(levels)[j], lo, hi, t, k);
      TouchedSplits(bs, k, lo, hi, t);
      TouchOrder(bs, k, lo, hi, t);
      if From(ELEVEN, bs) {
        NeverEarly(bs, k, lo, hi);
        NeverEarly(bs, k, hi, t);
      }
      if !Touched(bs, k, lo, hi).Any() { UntouchedKeepsValue(bs, k, lo, hi); }
      if hi == 0 { NothingTouched(bs, k); }
      ReadStep(era, From(ELEVEN, bs), At(Flat(levels)[j], k), NewestFrom(Flat(levels), j + 1, k), lo == 0, hi == 0,
               Touched(bs, k, lo, hi), Touched(bs, k, hi, t), Value(bs, k, lo), Value(bs, k, hi));
    }
  }

  /** What reading gives, s, says about the value v at that point. */
  predicate Reads(era: Era, lateOnly: bool, s: Option<State>, later: Touches, v: Option<Body>, none: bool) {
    && (era.ShadowFree? || !later.Any() ==> Reader(s) == v)
    && (v.None? && !later.early ==> Reader(s).None?)
    && (lateOnly && v.Some? ==> Reader(s).Some?)
    && (none ==> s.None?)
  }

  lemma ReadsNothing(era: Era, lateOnly: bool, later: Touches)
    ensures Reads(era, lateOnly, None, later, None, true)
  {
  }

  lemma NeverEarly(bs: seq<Batch>, k: LedgerKey, lo: nat, hi: nat)
    requires hi <= |bs| && From(ELEVEN, bs)
    ensures !Touched(bs, k, lo, hi).early
  {
  }

  /** One step of reading: c is found in front of what reading the older buckets gave. */
  lemma ReadStep(era: Era, lateOnly: bool, c: Option<State>, rest: Option<State>, bottom: bool, none: bool,
                 here: Touches, later: Touches, a: Option<Body>, b: Option<Body>)
    requires HeldAt(era, c, bottom, here, later, a, b) && (!here.Any() ==> a == b) && (none ==> bottom && !here.Any())
    requires here.late ==> !later.early
    requires lateOnly ==> !here.early && !later.early
    requires Reads(era, lateOnly, rest, here.Or(later), a, bottom)
    ensures Reads(era, lateOnly, Newest(rest, c), later, b, none)
  {
  }

  lemma TopsEnd(n: nat, t: nat)
    requires 0 < n
    ensures Top(n, 2 * n, t) == 0
  {
    assert (2 * n) / 2 == n;
    LastTops(n, t);
  }

  /**
    Refinement: after every addBatch of every well-formed run whose protocol
    versions never decrease, until a harmful merge is committed, no merge has
    thrown and a newest-first lookup of any key reads exactly the map that
    applying all batches in order produces. As far as merges before protocol 12
    go this says that eliding shadowed entries is invisible.
   */
  lemma LookupIsLedger(n: nat, bs: seq<Batch>, t: nat)
    requires 2 <= n && t <= |bs| && Upgrading(bs) && WellFormed(bs) && Harmless(n, Protocols(bs), t)
    ensures Run(n, bs, t).Success?
    ensures forall k :: Lookup(Run(n, bs, t).value, k) == Get(LedgerAfter(bs, t), k)
  {
    hide Harmless, WellFormed, Touched;
    RunInvariant(Shadows, n, bs, t);
    var levels := Run(n, bs, t).value;
    forall k ensures Lookup(levels, k) == Get(LedgerAfter(bs, t), k) {
      ReadFrom(Shadows, n, bs, levels, t, 0, k);
      NothingBetween(bs, k, t);
    }
  }

  /**
    The lifecycle invariant, from protocol 11 on: in every reachable list each
    entry may follow the next older entry of its key, INIT after DEAD or nothing,
    LIVE and DEAD after INIT or LIVE; and every pending merge will succeed.
   */
  lemma LifecycleInvariant(n: nat, bs: seq<Batch>, t: nat)
    requires 2 <= n && t <= |bs| && Upgrading(bs) && WellFormed(bs) && From(ELEVEN, bs)
    ensures Run(n, bs, t).Success?
    ensures var flat := Flat(Run(n, bs, t).value);
            forall j, k | 0 <= j < 2 * n && k in flat[j].entries :: Follows(NewestFrom(flat, j + 1, k), flat[j].entries[k])
    ensures forall i | 0 <= i < n && Run(n, bs, t).value[i].next.Pending? :: Resolve(Run(n, bs, t).value[i].next).Success?
  {
    hide WellFormed, Upgrading, From, Flat;
    OneSideIsHarmless(n, bs, t);
    RunInvariant(Shadows, n, bs, t);
    var levels := Run(n, bs, t).value;
    var flat := Flat(levels);
    forall j, k | 0 <= j < 2 * n && k in flat[j].entries ensures Follows(NewestFrom(flat, j + 1, k), flat[j].entries[k]) {
      FollowsAt(Shadows, n, bs, levels, t, j, k);
    }
    forall i | 0 <= i < n && levels[i].next.Pending? ensures Resolve(levels[i].next).Success? {
      assert LevelOk(Shadows, n, bs, levels[i], i, t);
      if i == 0 { YoungestIsClear(n, bs, t); }
    }
  }

  lemma FollowsAt(era: Era, n: nat, bs: seq<Batch>, levels: seq<Level>, t: nat, j: nat, k: LedgerKey)
    requires 0 < n == |levels| && t <= |bs| && j < 2 * n && Invariant(era, n, bs, levels, t) && Upgrading(bs) && From(ELEVEN, bs)
    requires k in Flat(levels)[j].entries
    ensures Follows(NewestFrom(Flat(levels), j + 1, k), Flat(levels)[j].entries[k])
  {
    hide Top, Invariant, Touched, Flat;
    FlatHeld(era, n, bs, levels, t, j);
    ReadFrom(era, n, bs, levels, t, j + 1, k);
    var lo, hi := Top(n, j + 1, t), Top(n, j, t);
    NeverEarly(bs, k, lo, hi);
    NeverEarly(bs, k, lo, t);
    NeverEarly(bs, k, hi, t);
    assert HeldKey(era, bs, Flat(levels)[j], lo, hi, t, k);
  }

  lemma YoungestIsClear(n: nat, bs: seq<Batch>, t: nat)
    requires 0 < n && t <= |bs| && Run(n, bs, t).Success?
    ensures Run(n, bs, t).value[0].next.Clear?
  {
    if t > 0 {
      var levels := Run(n, bs, t - 1).value;
      var b := bs[t - 1];
      assert NewLevel(n, levels, t, b.protocol, Fresh(b), 0).Success?;
      assert Run(n, bs, t).value[0 - 0] == NewLevel(n, levels, t, b.protocol, Fresh(b), 0).value;
    }
  }

  // ----- the oldest level -----

  /** The oldest level has no tombstones and no snap, and no merge that would leave one is pending. */
  predicate OldestClean(l: Level) {
    && l.snap == EmptyBucket
    && (forall k | k in l.curr.entries :: l.curr.entries[k] != DEAD)
    && (l.next.Pending? ==> !l.next.keepDead)
  }

  lemma CleanMerge(oldB: Bucket, newB: Bucket, shadows: seq<Bucket>, maxVersion: nat)
    requires Merge(oldB, newB, shadows, false, maxVersion).Success?
    ensures var m := Merge(oldB, newB, shadows, false, maxVersion).value;
            forall k | k in m.entries :: m.entries[k] != DEAD
  {
    hide MergeVersion, Combine, InAny, HasInit, AllMergeable;
    var m := Merge(oldB, newB, shadows, false, maxVersion).value;
    forall k | k in m.entries ensures m.entries[k] != DEAD { MergedAtKey(oldB, newB, shadows, false, k); }
  }

  lemma OldestStep(n: nat, levels: seq<Level>, ledger: nat, protocol: nat)
    requires 2 <= n == |levels| && OldestClean(levels[n - 1]) && OlderLevel(n, levels, ledger, protocol, n - 1).Success?
    ensures OldestClean(OlderLevel(n, levels, ledger, protocol, n - 1).value)
  {
    hide Merge, ShouldMergeWithEmptyCurr, Mask, LevelHalf, LevelSize, BucketsBelow;
    var f := levels[n - 1].next;
    if LevelShouldSpill(n, ledger, n - 2) && f.Pending? { CleanMerge(f.curr, f.snap, f.shadows, f.maxVersion); }
  }

  /**
    The oldest level drops tombstones: whatever was added, once a list of two or
    more levels is reached, its oldest curr has no DEAD entry and its oldest snap
    is empty.
   */
  lemma {:induction false} OldestHasNoTombstones(n: nat, bs: seq<Batch>, t: nat)
    requires 2 <= n && t <= |bs| && Run(n, bs, t).Success?
    ensures OldestClean(Run(n, bs, t).value[n - 1])
  {
    hide OlderLevel, YoungestLevel, Fresh;
    if t > 0 {
      OldestHasNoTombstones(n, bs, t - 1);
      var levels, b := Run(n, bs, t - 1).value, bs[t - 1];
      assert NewLevel(n, levels, t, b.protocol, Fresh(b), n - 1).Success?;
      assert Run(n, bs, t).value[n - 1 - 0] == NewLevel(n, levels, t, b.protocol, Fresh(b), n - 1).value;
      OldestStep(n, levels, t, b.protocol);
    }
  }

  // ----- every bucket is a fold -----

  /** Batches lo + 1 to hi merged one at a time, oldest first. */
  function Fold(bs: seq<Batch>, lo: nat, hi: nat): Bucket
    requires lo <= hi <= |bs|
    decreases hi
  {
    if lo == hi then EmptyBucket else Merged(Fold(bs, lo, hi - 1), Fresh(bs[hi - 1]), [], true)
  }

  lemma {:induction false} FoldHeld(bs: seq<Batch>, lo: nat, hi: nat, t: nat)
    requires lo <= hi <= t <= |bs| && InEra(ShadowFree, bs) && WellFormed(bs)
    ensures Held(ShadowFree, bs, Fold(bs, lo, hi), lo, hi, t)
    decreases hi
  {
    hide Merged, Fresh, WellFormed, HeldKey;
    if lo == hi {
      EmptyHeld(ShadowFree, bs, lo, t);
    } else {
      FoldHeld(bs, lo, hi - 1, t);
      FreshHeld(ShadowFree, bs, hi - 1, hi);
      HeldUntil(ShadowFree, bs, Fresh(bs[hi - 1]), hi - 1, hi, hi, t);
      NoShadows(bs, Fold(bs, lo, hi - 1), Fresh(bs[hi - 1]), hi, t);
      MergeHeld(ShadowFree, bs, Fold(bs, lo, hi - 1), Fresh(bs[hi - 1]), [], true, bs[hi - 1].protocol, lo, hi - 1, hi, t);
    }
  }

  lemma {:induction false} HeldUntil(era: Era, bs: seq<Batch>, b: Bucket, lo: nat, hi: nat, s: nat, t: nat)
    requires lo <= hi <= s <= t <= |bs| && Upgrading(bs) && Held(era, bs, b, lo, hi, s)
    ensures Held(era, bs, b, lo, hi, t)
    decreases t - s
  {
    if s < t {
      HeldLater(era, bs, b, lo, hi, s);
      HeldUntil(era, bs, b, lo, hi, s + 1, t);
    }
  }

  /** Without shadows a range determines its bucket. */
  lemma HeldUnique(bs: seq<Batch>, b1: Bucket, b2: Bucket, lo: nat, hi: nat, t: nat)
    requires lo <= hi <= t <= |bs| && From(TWELVE, bs)
    requires Held(ShadowFree, bs, b1, lo, hi, t) && Held(ShadowFree, bs, b2, lo, hi, t)
    ensures b1 == b2
  {
    hide Touched;
    forall k ensures At(b1, k) == At(b2, k) {
      NeverEarly(bs, k, lo, hi);
      assert HeldKey(ShadowFree, bs, b1, lo, hi, t, k) && HeldKey(ShadowFree, bs, b2, lo, hi, t, k);
    }
    BucketExtensional(b1, b2);
  }

  /**
    In every reachable list from protocol 12 on, curr(i) is the fold of the
    batches after ledger SnapTop up to CurrTop and snap(i) the fold of those
    after CurrTop(i + 1) up to SnapTop, whatever merges built them.
   */
  lemma BucketsAreFolds(n: nat, bs: seq<Batch>, t: nat, i: nat)
    requires 2 <= n && i < n && t <= |bs| && InEra(ShadowFree, bs) && WellFormed(bs)
    ensures Run(n, bs, t).Success?
    ensures CurrTop(n, i + 1, t) <= SnapTop(n, i, t) <= CurrTop(n, i, t) <= t
    ensures Run(n, bs, t).value[i].curr == Fold(bs, SnapTop(n, i, t), CurrTop(n, i, t))
    ensures Run(n, bs, t).value[i].snap == Fold(bs, CurrTop(n, i + 1, t), SnapTop(n, i, t))
  {
    hide CurrTop, SnapTop, Held;
    OneSideIsHarmless(n, bs, t);
    RunInvariant(ShadowFree, n, bs, t);
    TopsDescend(n, i, t);
    var l := Run(n, bs, t).value[i];
    assert LevelOk(ShadowFree, n, bs, l, i, t);
    FoldHeld(bs, SnapTop(n, i, t), CurrTop(n, i, t), t);
    FoldHeld(bs, CurrTop(n, i + 1, t), SnapTop(n, i, t), t);
    HeldUnique(bs, l.curr, Fold(bs, SnapTop(n, i, t), CurrTop(n, i, t)), SnapTop(n, i, t), CurrTop(n, i, t), t);
    HeldUnique(bs, l.snap, Fold(bs, CurrTop(n, i + 1, t), SnapTop(n, i, t)), CurrTop(n, i + 1, t), SnapTop(n, i, t), t);
  }

  /** A way of bracketing the merges of consecutive batches. */
  datatype Grouping = One(batch: nat) | Join(older: Grouping, newer: Grouping)

  /** The grouping covers exactly batches lo + 1 to hi, in order. */
  predicate Covers(g: Grouping, lo: nat, hi: nat) {
    match g
    case One(s) => lo == s && hi == s + 1
    case Join(x, y) => exists mid | lo < mid < hi :: Covers(x, lo, mid) && Covers(y, mid, hi)
  }

  function Grouped(bs: seq<Batch>, g: Grouping, maxVersion: nat): Result<Bucket, MergeError> {
    match g
    case One(s) => Success(if s < |bs| then Fresh(bs[s]) else EmptyBucket)
    case Join(x, y) =>
      match (Grouped(bs, x, maxVersion), Grouped(bs, y, maxVersion))
      case (Success(a), Success(b)) => Merge(a, b, [], true, maxVersion)
      case (Failure(e), _) => Failure(e)
      case (_, Failure(e)) => Failure(e)
  }

  /** Merging is associative on runs: every bracketing of the same batches succeeds and gives the fold. */
  lemma {:induction false} AnyGrouping(bs: seq<Batch>, g: Grouping, lo: nat, hi: nat, maxVersion: nat)
    requires lo <= hi <= |bs| && InEra(ShadowFree, bs) && WellFormed(bs) && Covers(g, lo, hi)
    requires forall s | 0 <= s < |bs| :: bs[s].protocol <= maxVersion
    ensures Grouped(bs, g, maxVersion) == Success(Fold(bs, lo, hi))
  {
    FoldHeld(bs, lo, hi, hi);
    match g
    case One(s) =>
      FreshHeld(ShadowFree, bs, lo, hi);
      HeldUnique(bs, Fresh(bs[s]), Fold(bs, lo, hi), lo, hi, hi);
    case Join(x, y) =>
      var mid :| lo < mid < hi && Covers(x, lo, mid) && Covers(y, mid, hi);
      AnyGrouping(bs, x, lo, mid, maxVersion);
      AnyGrouping(bs, y, mid, hi, maxVersion);
      FoldHeld(bs, lo, mid, hi);
      FoldHeld(bs, mid, hi, hi);
      var a, b := Fold(bs, lo, mid), Fold(bs, mid, hi);
      MergeHeld(ShadowFree, bs, a, b, [], true, maxVersion, lo, mid, hi, hi);
      HeldUnique(bs, Merge(a, b, [], true, maxVersion).value, Fold(bs, lo, hi), lo, hi, hi);
  }
}
