/**
  Catch-up as it runs: one applicator per bucket, oldest level first and snap
  before curr (src/catchup/ApplyBucketsWork.cpp:165-202 and
  src/bucket/BucketApplicator.cpp:19-183).
 */
module CatchUpRun {
  import opened Wrappers
  import opened LedgerCmp
  import opened Buckets
  import opened Files
  import opened Iterators
  import opened ListModel
  import opened Runs
  import opened Versions
  import opened Refinement
  import opened Theorems
  import opened Schedule
  import opened Sizes
  import opened Applicator
  import BucketListRun

  /** A bucket an applicator of this maximum version takes without complaint. */
  predicate Admissible(f: File, maxVersion: nat) {
    Version(Contents(f)) <= maxVersion && forall i | 0 <= i < |f| :: Legal(f[i], maxVersion)
  }

  /** An applicator at the start of a bucket, refused exactly when the bucket is from a newer protocol. */
  method OpenApplicator(maxVersion: nat, minVersion: nat, last: bool, f: File, accept: nat -> bool)
    returns (r: Option<BucketApplicator>)
    requires GoodFile(f)
    ensures r.None? <==> Version(Contents(f)) > maxVersion
    ensures r.Some? ==>
              var a := r.value;
              && fresh(a) && fresh(a.iter) && a.Valid() && a.count == 0
              && a.iter.file == f && a.iter.Index() == Landing(f, 0)
              && a.maxProtocolVersion == maxVersion && a.minProtocolVersionSeen == minVersion
              && a.lastLevel == last && a.filter == accept
  {
    hide Contents, GoodFile, Version, Accepted;
    var it, _ := Open(f);
    if it.metadata > maxVersion { return None; }
    var a := new BucketApplicator(maxVersion, minVersion, last, it, accept);
    return Some(a);
  }

  /** Some bucket from position j on has records: applying has begun by then. */
  predicate Begun(fs: seq<File>, j: nat)
    requires j <= |fs|
    decreases |fs| - j
  {
    j < |fs| && (fs[j] != [] || Begun(fs, j + 1))
  }

  /** The oldest protocol version seen once bucket j has been dealt with. */
  function MinFrom(fs: seq<File>, j: nat): nat
    requires j <= |fs|
    decreases |fs| - j
  {
    if !Begun(fs, j) then UINT32_MAX
    else
      var v, m := Version(Contents(fs[j])), MinFrom(fs, j + 1);
      if v < m then v else m
  }

  function Mins(fs: seq<File>): (r: seq<nat>)
    ensures |r| == |fs| && forall j | 0 <= j < |r| :: r[j] == MinFrom(fs, j)
  {
    seq(|fs|, j requires 0 <= j < |fs| => MinFrom(fs, j))
  }

  /** Bucket q is dealt with no later than bucket j: it is no younger, and some bucket no younger than it has records. */
  predicate Dealt(fs: seq<File>, j: nat, q: nat) {
    j <= q < |fs| && exists p | q <= p < |fs| :: fs[p] != []
  }

  /** The least of the versions of the buckets dealt with up to bucket j, and of the largest 32-bit number. */
  ghost predicate LeastSeen(fs: seq<File>, j: nat, m: nat) {
    && m <= UINT32_MAX && (forall q: nat | Dealt(fs, j, q) :: m <= Version(Contents(fs[q])))
    && (m == UINT32_MAX || exists q: nat | Dealt(fs, j, q) :: m == Version(Contents(fs[q])))
  }

  lemma BegunIff(fs: seq<File>, j: nat)
    requires j <= |fs|
    ensures Begun(fs, j) <==> exists p | j <= p < |fs| :: fs[p] != []
    decreases |fs| - j
  {
    if j < |fs| {
      BegunIff(fs, j + 1);
      if fs[j] == [] && Begun(fs, j) {
        var p :| j + 1 <= p < |fs| && fs[p] != [];
        assert j <= p < |fs|;
      }
    }
  }

  /** MinFrom is the least version seen, and nothing else is. */
  lemma {:induction false} MinIsLeast(fs: seq<File>, j: nat, m: nat)
    requires j <= |fs|
    ensures LeastSeen(fs, j, m) <==> m == MinFrom(fs, j)
    decreases |fs| - j
  {
    hide Contents, Version;
    BegunIff(fs, j);
    if Begun(fs, j) {
      MinIsLeast(fs, j + 1, MinFrom(fs, j + 1));
      assert Dealt(fs, j, j);
      forall q: nat ensures Dealt(fs, j, q) <==> q == j || Dealt(fs, j + 1, q) { DealtNext(fs, j, q); }
    } else {
      assert forall q: nat :: !Dealt(fs, j, q);
    }
  }

  lemma DealtNext(fs: seq<File>, j: nat, q: nat)
    requires j < |fs| && Begun(fs, j)
    ensures Dealt(fs, j, q) <==> q == j || Dealt(fs, j + 1, q)
  {
    BegunIff(fs, j);
  }

  /**
    All buckets, newest first in fs, are applied from the last to the first, on a
    node that holds nothing: empty buckets are skipped until one is not.
   */
  method ApplyBuckets(n: nat, fs: seq<File>, maxVersion: nat, filter: nat -> bool) returns (root: LedgerRoot, ok: bool)
    requires |fs| == 2 * n && forall j | 0 <= j < |fs| :: GoodFile(fs[j])
    ensures ok ==> root.Value() == ReplayList(n, fs, 0, filter, Mins(fs))
    ensures forall j | 0 <= j < |fs| :: LeastSeen(fs, j, Mins(fs)[j])
    ensures (forall j | 0 <= j < |fs| :: Admissible(fs[j], maxVersion)) ==> ok
  {
    hide GoodFile, Contents, Version, BucketApplicator.Valid, Landing, LeastSeen;
    forall j | 0 <= j < |fs| ensures LeastSeen(fs, j, Mins(fs)[j]) { MinIsLeast(fs, j, Mins(fs)[j]); }
    root := new LedgerRoot(map[]);
    var j: nat, seen: nat, applying := |fs|, UINT32_MAX, false;
    while j > 0
      invariant j <= |fs| && seen == MinFrom(fs, j) && applying == Begun(fs, j) && fresh(root)
      invariant root.Value() == ReplayList(n, fs, j, filter, Mins(fs))
    {
      hide Replay;
      j := j - 1;
      if !applying && fs[j] == [] {
        ReplayNothing(root.Value(), filter, j / 2 == n - 1, MinFrom(fs, j));
        continue;
      }
      applying := true;
      var v := BucketListRun.GetBucketVersion(fs[j]);
      seen := if v < seen then v else seen;
      var a := OpenApplicator(maxVersion, seen, j / 2 == n - 1, fs[j], filter);
      if a.None? { return root, false; }
      NothingBefore(fs[j], filter);
      var illegal := a.value.ApplyAll(root);
      if illegal { return root, false; }
    }
    ok := true;
  }

  lemma ReplayNothing(s: Store, filter: nat -> bool, last: bool, minVersion: nat)
    ensures Replay(s, [], filter, last, minVersion) == s
  {
  }

  lemma NothingBefore(f: File, filter: nat -> bool)
    ensures Landing(f, 0) <= |f| && Accepted(f[..Landing(f, 0)], filter) == 0
  {
    if Landing(f, 0) == 1 { assert f[..1][..0] == []; }
  }

  /** The buckets of a reachable list are admissible at any version no batch exceeded. */
  lemma ReachableIsAdmissible(n: nat, bs: seq<Batch>, t: nat, levels: seq<Level>, f: File, j: nat, maxVersion: nat)
    requires 2 <= n == |levels| && t <= |bs| && j < 2 * n && Invariant(Shadows, n, bs, levels, t) && Upgrading(bs)
    requires forall s | 0 <= s < |bs| :: bs[s].protocol <= maxVersion
    requires GoodFile(f) && Contents(f) == Flat(levels)[j]
    ensures Admissible(f, maxVersion)
    ensures 0 < t && bs[t - 1].protocol < ELEVEN ==> Version(Contents(f)) == 0
  {
    hide Invariant, Flat, HeldAt, EntriesOf, Touched;
    FlatHeld(Shadows, n, bs, levels, t, j);
    var lo, hi := Top(n, j + 1, t), Top(n, j, t);
    assert 0 < hi ==> bs[hi - 1].protocol <= bs[t - 1].protocol;
    forall i | 0 <= i < |f| ensures Legal(f[i], maxVersion) {
      assert i > 0 ==> EntryLess(f[0], f[i]);
      if f[i].Init? {
        EntriesValue(f, i);
        InitNeedsEleven(bs, Contents(f), lo, hi, t, f[i].key);
      }
    }
  }

  lemma InitNeedsEleven(bs: seq<Batch>, b: Bucket, lo: nat, hi: nat, t: nat, k: LedgerKey)
    requires lo <= hi <= t <= |bs| && HeldKey(Shadows, bs, b, lo, hi, t, k)
    requires k in b.entries && b.entries[k].INIT?
    ensures exists s | 0 <= s < |bs| :: bs[s].protocol >= ELEVEN
  {
    assert Touched(bs, k, lo, hi).late;
    var s :| lo <= s < hi && MentionedLate(bs[s], k);
  }

  lemma MinBefore(fs: seq<File>, j: nat)
    requires j < |fs| && fs[j] != [] && Version(Contents(fs[j])) == 0
    ensures MinFrom(fs, j) == 0
  {
  }

  // ----- when the operations are valid -----

  /** By bucket q, applying has met a bucket from before protocol 11, so presence is checked from then on. */
  predicate OldSeen(flat: seq<Bucket>, q: nat) {
    exists p | q <= p < |flat| :: Version(flat[p]) < ELEVEN && exists r | p <= r < |flat| :: flat[r] != EmptyBucket
  }

  /** An entry is of a key the older buckets read as it demands: INIT of an absent one, LIVE and DEAD of a present one. */
  predicate Demands(n: nat, flat: seq<Bucket>, q: nat, k: LedgerKey)
    requires q < |flat| && k in flat[q].entries
  {
    var present := Reader(NewestFrom(flat, q + 1, k)).Some?;
    match flat[q].entries[k]
    case INIT(_) => !present
    case LIVE(_) => q / 2 == n - 1 || present
    case DEAD => present
  }

  /** So is every accepted entry met before any bucket from before protocol 11. */
  predicate ListSuits(n: nat, flat: seq<Bucket>, filter: nat -> bool) {
    forall q, k | 0 <= q < |flat| && k in flat[q].entries && filter(KeyType(k)) :: OldSeen(flat, q) || Demands(n, flat, q, k)
  }

  lemma RecordsIff(f: File)
    requires GoodFile(f)
    ensures f != [] <==> Contents(f) != EmptyBucket
  {
    if f != [] { SomeRecord(f); }
  }

  /** Which of the buckets dealt with are from before 11, read off the list. */
  lemma DealtIff(levels: seq<Level>, fs: seq<File>, q: nat, p: nat)
    requires FilesOf(fs, levels) && q <= p < |fs|
    ensures Contents(fs[p]) == Flat(levels)[p]
    ensures Dealt(fs, q, p) <==> exists r | p <= r < |fs| :: Flat(levels)[r] != EmptyBucket
  {
    hide Flat, GoodFile, Contents;
    forall r | p <= r < |fs| ensures fs[r] != [] <==> Flat(levels)[r] != EmptyBucket { RecordsIff(fs[r]); }
  }

  /** The version an applicator gets is below 11 exactly if a bucket from before 11 has been met. */
  lemma OldIffLow(levels: seq<Level>, fs: seq<File>, q: nat)
    requires FilesOf(fs, levels) && q < |fs|
    ensures Mins(fs)[q] < ELEVEN <==> OldSeen(Flat(levels), q)
  {
    hide Flat, FilesOf, Version, Contents, MinFrom, Dealt;
    var flat := Flat(levels);
    assert |fs| == |flat| by { FilesAre(levels, fs); }
    MinIsLeast(fs, q, Mins(fs)[q]);
    forall p: nat | q <= p < |fs|
      ensures Contents(fs[p]) == flat[p]
      ensures Dealt(fs, q, p) <==> exists r | p <= r < |fs| :: flat[r] != EmptyBucket { DealtIff(levels, fs, q, p); }
    forall p: nat | Dealt(fs, q, p) ensures q <= p < |fs| { DealtRange(fs, q, p); }
  }

  lemma DealtRange(fs: seq<File>, j: nat, q: nat)
    requires Dealt(fs, j, q)
    ensures j <= q < |fs|
  {
  }

  /** Nothing older than the oldest level's buckets has the key. */
  lemma OldestReadsNothing(n: nat, bs: seq<Batch>, t: nat, levels: seq<Level>, j: nat, k: LedgerKey)
    requires 2 <= n == |levels| && t <= |bs| && j < 2 * n && j / 2 == n - 1 && Invariant(Shadows, n, bs, levels, t) && Upgrading(bs)
    ensures NewestFrom(Flat(levels), j + 1, k) == None
  {
    hide Invariant, Flat, Touched;
    LastTops(n, t);
    ReadFrom(Shadows, n, bs, levels, t, 2 * n - 1, k);
    assert Top(n, 2 * n - 1, t) == SnapTop(n, n - 1, t) by { assert (2 * n - 1) / 2 == n - 1; }
    assert j == 2 * n - 2 || j == 2 * n - 1;
  }

  lemma SuitsIff(n: nat, bs: seq<Batch>, t: nat, levels: seq<Level>, fs: seq<File>, filter: nat -> bool)
    requires 2 <= n == |levels| && t <= |bs| && Invariant(Shadows, n, bs, levels, t) && Upgrading(bs) && FilesOf(fs, levels)
    ensures SuitsFrom(n, Flat(levels), Mins(fs), filter, 0) <==> ListSuits(n, Flat(levels), filter)
  {
    hide Invariant, Flat, FilesOf, NewestFrom, OldSeen, Upgrading;
    var flat := Flat(levels);
    assert |fs| == |flat| by { FilesAre(levels, fs); }
    forall q, k | 0 <= q < |flat| && k in flat[q].entries
      ensures SuitsOlder(n, flat, Mins(fs), q, k) <==> OldSeen(flat, q) || Demands(n, flat, q, k) {
      FilesAre(levels, fs);
      NotEmptyFile(fs[q], k);
      OldIffLow(levels, fs, q);
      if q / 2 == n - 1 { OldestReadsNothing(n, bs, t, levels, q, k); }
    }
  }

  lemma FilesAre(levels: seq<Level>, fs: seq<File>)
    requires FilesOf(fs, levels)
    ensures |fs| == |Flat(levels)| == 2 * |levels| && forall j | 0 <= j < |fs| :: Contents(fs[j]) == Flat(levels)[j]
  {
  }

  /**
    End to end: applying the files of a reachable list, chunk by chunk, never
    fails and leaves exactly the part of the ledger the filter accepts. Only
    valid operations are issued exactly if each entry met before any bucket from
    before protocol 11 suits what the older buckets read, and always when the run
    stays on one side of protocol 11.
   */
  method CatchUpList(n: nat, fs: seq<File>, maxVersion: nat, filter: nat -> bool, ghost bs: seq<Batch>, ghost t: nat)
    returns (root: LedgerRoot, ok: bool)
    requires 2 <= n && t <= |bs| && Upgrading(bs) && WellFormed(bs) && Harmless(n, Protocols(bs), t)
    requires Run(n, bs, t).Success? && FilesOf(fs, Run(n, bs, t).value)
    requires forall s | 0 <= s < |bs| :: bs[s].protocol <= maxVersion
    ensures ok
    ensures forall k :: Get(root.entries, k) == if filter(KeyType(k)) then Get(LedgerAfter(bs, t), k) else None
    ensures OpsValid(map[], root.ops) <==> ListSuits(n, Flat(Run(n, bs, t).value), filter)
    ensures From(ELEVEN, bs) || (0 < t && bs[t - 1].protocol < ELEVEN) ==> OpsValid(map[], root.ops)
  {
    hide Invariant, WellFormed, Harmless, Upgrading, From, Admissible, ReplayList, OpsValid, After, LedgerAfter, Contents, MinFrom;
    hide SuitsFrom, ListSuits, LeastSeen;
    ghost var levels := Run(n, bs, t).value;
    RunInvariant(Shadows, n, bs, t);
    forall j | 0 <= j < |fs|
      ensures Admissible(fs[j], maxVersion)
      ensures 0 < t && bs[t - 1].protocol < ELEVEN && fs[j] != [] ==> Mins(fs)[j] == 0 {
      ReachableIsAdmissible(n, bs, t, levels, fs[j], j, maxVersion);
      if 0 < t && bs[t - 1].protocol < ELEVEN && fs[j] != [] { MinBefore(fs, j); }
    }
    CatchUp(n, bs, t, fs, Mins(fs), filter);
    SuitsIff(n, bs, t, levels, fs, filter);
    root, ok := ApplyBuckets(n, fs, maxVersion, filter);
    assert root.entries == root.Value().entries && root.ops == root.Value().ops;
  }

  // ----- an upgrade that makes catch-up update an absent key -----

  /** A key created at ledger 1 under protocol 10, and protocol 11 for the five ledgers after that. */
  function UpgradeRun(k: LedgerKey, x: Body): (bs: seq<Batch>)
    ensures |bs| == 6 && bs[0] == Batch(10, map[k := x], map[], {})
    ensures forall s | 0 < s < 6 :: bs[s] == Batch(11, map[], map[], {})
  {
    [Batch(10, map[k := x], map[], {})] + seq(5, _ => Batch(11, map[], map[], {}))
  }

  lemma {:induction false} UpgradeLedger(k: LedgerKey, x: Body, t: nat)
    requires t <= 6
    ensures LedgerAfter(UpgradeRun(k, x), t) == if t == 0 then map[] else map[k := x]
  {
    if t > 0 { UpgradeLedger(k, x, t - 1); }
  }

  lemma UpgradeRuns(n: nat, k: LedgerKey, x: Body)
    requires n >= 3
    ensures var bs := UpgradeRun(k, x);
            Upgrading(bs) && WellFormed(bs) && Run(n, bs, 6).Success? && Invariant(Shadows, n, bs, Run(n, bs, 6).value, 6)
  {
    hide Run, Invariant, Harmful, LedgerAfter;
    var bs := UpgradeRun(k, x);
    forall t: nat | t < |bs| ensures WellFormedAt(bs, t) { UpgradeLedger(k, x, t); }
    OneSideIsHarmless(n, bs, 6);
    RunInvariant(Shadows, n, bs, 6);
  }

  /** After six ledgers curr(1) holds the first three, and everything older is empty. */
  lemma UpgradeTops(n: nat, j: nat)
    requires n >= 3 && 3 <= j <= 2 * n
    ensures Top(n, 2, 6) == 3 && Top(n, j, 6) == 0
  {
    HalfFacts(0);
    HalfFacts(1);
    assert SnapTop(n, 1, 6) == 0;
    if j > 3 {
      hide CurrTop, SnapTop;
      TopsDescend(n, 1, 6);
      TopsChain(n, 2, j / 2, 6);
      if j / 2 < n { TopsDescend(n, j / 2, 6); }
    }
  }

  lemma UpgradeOlder(n: nat, k: LedgerKey, x: Body, j: nat)
    requires n >= 3 && 3 <= j < 2 * n
    ensures Run(n, UpgradeRun(k, x), 6).Success? && Flat(Run(n, UpgradeRun(k, x), 6).value)[j] == EmptyBucket
  {
    hide Invariant, Run, Top, Touched, Flat, UpgradeRun, HeldAt;
    UpgradeRuns(n, k, x);
    var bs := UpgradeRun(k, x);
    var levels := Run(n, bs, 6).value;
    UpgradeTops(n, j);
    UpgradeTops(n, j + 1);
    FlatHeld(Shadows, n, bs, levels, 6, j);
    NothingInNone(bs, Flat(levels)[j], 0, 6);
  }

  lemma NothingInNone(bs: seq<Batch>, b: Bucket, x: nat, t: nat)
    requires x <= t <= |bs| && Held(Shadows, bs, b, x, x, t)
    ensures b == EmptyBucket
  {
    hide Touched, Exact, Stale;
    forall k ensures At(b, k) == At(EmptyBucket, k) {
      assert HeldKey(Shadows, bs, b, x, x, t, k);
      NothingBetween(bs, k, x);
    }
    BucketExtensional(b, EmptyBucket);
  }

  lemma SomeRecord(f: File)
    requires GoodFile(f) && f != []
    ensures Contents(f) != EmptyBucket
  {
    if !f[0].Meta? { EntriesValue(f, 0); }
  }

  /** curr(1) records the creation as LIVE, under META 11. */
  lemma UpgradeEntry(n: nat, k: LedgerKey, x: Body)
    requires n >= 3
    ensures Run(n, UpgradeRun(k, x), 6).Success?
    ensures var flat := Flat(Run(n, UpgradeRun(k, x), 6).value);
            At(flat[2], k) == Some(LIVE(x)) && Version(flat[2]) == ELEVEN && NewestFrom(flat, 3, k) == None
  {
    hide Invariant, Run, Top, Flat, Touched, LedgerAfter;
    UpgradeRuns(n, k, x);
    var bs := UpgradeRun(k, x);
    var levels := Run(n, bs, 6).value;
    UpgradeTops(n, 3);
    FlatHeld(Shadows, n, bs, levels, 6, 2);
    assert HeldKey(Shadows, bs, Flat(levels)[2], 0, 3, 6, k);
    UpgradeTouches(k, x);
    UpgradeLedger(k, x, 0);
    UpgradeLedger(k, x, 3);
    ReadFrom(Shadows, n, bs, levels, 6, 3, k);
  }

  lemma UpgradeTouches(k: LedgerKey, x: Body)
    ensures Touched(UpgradeRun(k, x), k, 0, 3) == Touches(true, false)
    ensures Touched(UpgradeRun(k, x), k, 3, 6) == Touches(false, false)
  {
    assert MentionedEarly(UpgradeRun(k, x)[0], k);
  }

  /** Across protocol 11 the operations need not be valid: here curr(1) updates a key that is absent. */
  lemma UpgradeUpdatesAbsent(n: nat, k: LedgerKey, x: Body, filter: nat -> bool)
    requires n >= 3 && filter(KeyType(k))
    ensures Run(n, UpgradeRun(k, x), 6).Success? && !ListSuits(n, Flat(Run(n, UpgradeRun(k, x), 6).value), filter)
  {
    hide Run, Flat, UpgradeRun, NewestFrom;
    UpgradeEntry(n, k, x);
    var flat := Flat(Run(n, UpgradeRun(k, x), 6).value);
    forall p | 3 <= p < |flat| ensures flat[p] == EmptyBucket { UpgradeOlder(n, k, x, p); }
    assert !OldSeen(flat, 2) && !Demands(n, flat, 2, k);
  }
}
