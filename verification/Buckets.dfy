/**
  Buckets as values, and what merging two of them means (src/bucket/Bucket.cpp).

  A bucket is a META version, if it has one, and one lifecycle state per key.
  Merging is described key by key; the one-pass merge of sorted files that
  implements this description is in MergeRun.dfy.
 */
module Buckets {
  import opened Wrappers
  import opened LedgerCmp

  const FIRST_PROTOCOL_SUPPORTING_INITENTRY_AND_METAENTRY: nat := 11
  const FIRST_PROTOCOL_SHADOWS_REMOVED: nat := 12

  /** The lifecycle state a bucket records for a key. */
  datatype State = INIT(body: Body) | LIVE(body: Body) | DEAD

  datatype Bucket = Bucket(meta: Option<nat>, entries: map<LedgerKey, State>)

  const EmptyBucket := Bucket(None, map[])

  /** A bucket without META is treated as written under protocol 0. */
  function Version(b: Bucket): nat {
    if b.meta.Some? then b.meta.value else 0
  }

  function At(b: Bucket, k: LedgerKey): Option<State> {
    Get(b.entries, k)
  }

  function MetaFor(version: nat): Option<nat> {
    if version < FIRST_PROTOCOL_SUPPORTING_INITENTRY_AND_METAENTRY then None else Some(version)
  }

  datatype MergeError = VersionExceedsMax | ShadowsUnsupported | IllegalEntry | MalformedLifecycle

  /** A new INIT may only follow an old DEAD. */
  predicate Mergeable(o: Option<State>, n: Option<State>) {
    o.Some? && n.Some? && n.value.INIT? ==> o.value.DEAD?
  }

  /** The old/new table of mergeCasesWithEqualKeys, extended to keys only one side has. */
  function Combine(o: Option<State>, n: Option<State>): Option<State> {
    if n.None? then o
    else if o.None? then n
    else if n.value.INIT? then Some(LIVE(n.value.body))
    else if o.value.INIT? then
      if n.value.LIVE? then Some(INIT(n.value.body)) else None
    else n
  }

  predicate InAny(shadows: seq<Bucket>, k: LedgerKey) {
    exists j | 0 <= j < |shadows| :: k in shadows[j].entries
  }

  /** maybePut's decision: from protocol 11 on, INIT and DEAD entries are never shadowed out. */
  predicate ShadowedOut(s: State, k: LedgerKey, shadows: seq<Bucket>, keepShadowedLifecycleEntries: bool) {
    !(keepShadowedLifecycleEntries && !s.LIVE?) && InAny(shadows, k)
  }

  /** What a merged bucket holds at a key where the inputs hold o and n. */
  function MergedState(o: Option<State>, n: Option<State>, shadows: seq<Bucket>, keepDead: bool, keepLifecycle: bool,
                       k: LedgerKey): Option<State>
  {
    var c := Combine(o, n);
    if c.None? || ShadowedOut(c.value, k, shadows, keepLifecycle) || (!keepDead && c.value.DEAD?) then None
    else c
  }

  function MergedAt(oldB: Bucket, newB: Bucket, shadows: seq<Bucket>, keepDead: bool, keepLifecycle: bool,
                    k: LedgerKey): Option<State>
  {
    MergedState(At(oldB, k), At(newB, k), shadows, keepDead, keepLifecycle, k)
  }

  function MergedEntries(o: map<LedgerKey, State>, n: map<LedgerKey, State>, shadows: seq<Bucket>, keepDead: bool,
                         keepLifecycle: bool): map<LedgerKey, State>
  {
    map k | k in o.Keys + n.Keys && MergedState(Get(o, k), Get(n, k), shadows, keepDead, keepLifecycle, k).Some?
      :: MergedState(Get(o, k), Get(n, k), shadows, keepDead, keepLifecycle, k).value
  }

  function Max(a: nat, b: nat): nat {
    if a < b then b else a
  }

  /** The maximum of both input versions and of every shadow version before 12. */
  function MergeVersion(oldB: Bucket, newB: Bucket, shadows: seq<Bucket>): nat {
    if shadows == [] then Max(Version(oldB), Version(newB))
    else
      var v := MergeVersion(oldB, newB, shadows[..|shadows| - 1]);
      var s := Version(shadows[|shadows| - 1]);
      if s < FIRST_PROTOCOL_SHADOWS_REMOVED then Max(s, v) else v
  }

  predicate HasInit(b: Bucket) {
    exists k | k in b.entries :: b.entries[k].INIT?
  }

  predicate AllMergeable(oldB: Bucket, newB: Bucket) {
    forall k | k in oldB.entries && k in newB.entries :: Mergeable(At(oldB, k), At(newB, k))
  }

  /** The merged bucket, when the merge does not throw. */
  function Merged(oldB: Bucket, newB: Bucket, shadows: seq<Bucket>, keepDead: bool): Bucket {
    var v := MergeVersion(oldB, newB, shadows);
    var keepLifecycle := v >= FIRST_PROTOCOL_SUPPORTING_INITENTRY_AND_METAENTRY;
    Bucket(MetaFor(v), MergedEntries(oldB.entries, newB.entries, shadows, keepDead, keepLifecycle))
  }

  /** Bucket::merge with its four ways to throw. */
  function Merge(oldB: Bucket, newB: Bucket, shadows: seq<Bucket>, keepDead: bool, maxVersion: nat)
    : Result<Bucket, MergeError>
  {
    var v := MergeVersion(oldB, newB, shadows);
    if v > maxVersion then Failure(VersionExceedsMax)
    else if v >= FIRST_PROTOCOL_SHADOWS_REMOVED && shadows != [] then Failure(ShadowsUnsupported)
    else if v < FIRST_PROTOCOL_SUPPORTING_INITENTRY_AND_METAENTRY && (HasInit(oldB) || HasInit(newB)) then
      Failure(IllegalEntry)
    else if !AllMergeable(oldB, newB) then Failure(MalformedLifecycle)
    else Success(Merged(oldB, newB, shadows, keepDead))
  }

  lemma MergedAtKey(oldB: Bucket, newB: Bucket, shadows: seq<Bucket>, keepDead: bool, k: LedgerKey)
    ensures At(Merged(oldB, newB, shadows, keepDead), k) ==
            MergedAt(oldB, newB, shadows, keepDead,
                     MergeVersion(oldB, newB, shadows) >= FIRST_PROTOCOL_SUPPORTING_INITENTRY_AND_METAENTRY, k)
  {
  }

  /** Whether this is the version of an input, or of a shadow from before 12. */
  predicate TakenVersion(oldB: Bucket, newB: Bucket, shadows: seq<Bucket>, v: nat) {
    || v == Version(oldB) || v == Version(newB)
    || exists j | 0 <= j < |shadows| :: v == Version(shadows[j]) && v < 12
  }

  /** The version of a merge is the greatest of these. */
  lemma {:induction false} MergeVersionIsGreatest(oldB: Bucket, newB: Bucket, shadows: seq<Bucket>)
    ensures TakenVersion(oldB, newB, shadows, MergeVersion(oldB, newB, shadows))
    ensures forall v: nat | TakenVersion(oldB, newB, shadows, v) :: v <= MergeVersion(oldB, newB, shadows)
  {
    if shadows != [] {
      var m := |shadows| - 1;
      var before := shadows[..m];
      MergeVersionIsGreatest(oldB, newB, before);
      forall v: nat | TakenVersion(oldB, newB, shadows, v) ensures v <= MergeVersion(oldB, newB, shadows) {
        if v != Version(oldB) && v != Version(newB) {
          var j :| 0 <= j < |shadows| && v == Version(shadows[j]) && v < 12;
          if j < m { assert before[j] == shadows[j] && TakenVersion(oldB, newB, before, v); }
        } else {
          assert TakenVersion(oldB, newB, before, v);
        }
      }
      var w := MergeVersion(oldB, newB, before);
      if w != Version(oldB) && w != Version(newB) {
        var j :| 0 <= j < m && w == Version(before[j]) && w < 12;
        assert shadows[j] == before[j];
      }
    }
  }

  /** A creation recorded over something that is not a deletion. */
  predicate CreatedTwice(oldB: Bucket, newB: Bucket, k: LedgerKey) {
    k in oldB.entries && k in newB.entries && newB.entries[k].INIT? && !oldB.entries[k].DEAD?
  }

  /** Exactly when a merge throws, and why. */
  lemma MergeErrors(oldB: Bucket, newB: Bucket, shadows: seq<Bucket>, keepDead: bool, maxVersion: nat)
    ensures var r, v := Merge(oldB, newB, shadows, keepDead, maxVersion), MergeVersion(oldB, newB, shadows);
            && (r == Failure(VersionExceedsMax) <==> v > maxVersion)
            && (r == Failure(ShadowsUnsupported) <==> 12 <= v <= maxVersion && shadows != [])
            && (r == Failure(IllegalEntry) <==> v <= maxVersion && v < 11 && (HasInit(oldB) || HasInit(newB)))
            && (r == Failure(MalformedLifecycle) <==>
                && v <= maxVersion && (v >= 12 ==> shadows == []) && (v < 11 ==> !HasInit(oldB) && !HasInit(newB))
                && exists k :: CreatedTwice(oldB, newB, k))
  {
    hide MergeVersion, Merged, HasInit;
    assert !AllMergeable(oldB, newB) <==> exists k :: CreatedTwice(oldB, newB, k) by {
      if !AllMergeable(oldB, newB) {
        var k :| k in oldB.entries && k in newB.entries && !Mergeable(At(oldB, k), At(newB, k));
        assert CreatedTwice(oldB, newB, k);
      }
      if k :| CreatedTwice(oldB, newB, k) { assert !Mergeable(At(oldB, k), At(newB, k)); }
    }
  }

  /** Two buckets with the same META and the same state at every key are equal. */
  lemma BucketExtensional(a: Bucket, b: Bucket)
    requires a.meta == b.meta
    requires forall k :: At(a, k) == At(b, k)
    ensures a == b
  {
    forall k ensures Get(a.entries, k) == Get(b.entries, k) { assert At(a, k) == At(b, k); }
    SameMap(a.entries, b.entries);
  }

  // ----- the lifecycle algebra -----

  /** What may follow what, oldest first, when nothing has been elided: INIT only after DEAD or nothing. */
  predicate Follows(o: Option<State>, n: State) {
    if n.INIT? then o.None? || o.value.DEAD? else o.Some? && !o.value.DEAD?
  }

  /** The state a reader is left with after the old and the new entry, newest first. */
  function Newest(o: Option<State>, n: Option<State>): Option<State> {
    if n.Some? then n else o
  }

  /** A key's entries, oldest first, starting from `before`, respect the lifecycle. */
  predicate Lifecycle(before: Option<State>, s: seq<Option<State>>)
    decreases |s|
  {
    s == [] ||
    ((s[0].Some? ==> Follows(before, s[0].value)) && Lifecycle(Newest(before, s[0]), s[1..]))
  }

  /** What a reader sees of a newest state: a body or nothing. */
  function Reader(s: Option<State>): Option<Body> {
    if s.None? || s.value.DEAD? then None else Some(s.value.body)
  }

  /**
    The first of the two invariants argued in mergeCasesWithEqualKeys: over any
    older state that the lifecycle allows, the merged entry and the pair it
    replaces read the same, and whatever may follow one may follow the other.
   */
  lemma CombineKeepsReaderAndLifecycle(before: Option<State>, o: Option<State>, n: Option<State>, next: State)
    requires Lifecycle(before, [o, n])
    ensures Mergeable(o, n)
    ensures Reader(Newest(before, Combine(o, n))) == Reader(Newest(Newest(before, o), n))
    ensures Lifecycle(before, [Combine(o, n)])
    ensures Follows(Newest(before, Combine(o, n)), next) <==> Follows(Newest(Newest(before, o), n), next)
  {
    assert [o, n][1..] == [n] && [n][1..] == [];
    assert [Combine(o, n)][1..] == [];
  }

  /** Merging is associative on lifecycle-respecting entries, and no grouping of them throws. */
  lemma CombineAssociative(before: Option<State>, a: Option<State>, b: Option<State>, c: Option<State>)
    requires Lifecycle(before, [a, b, c])
    ensures Mergeable(a, b) && Mergeable(b, c) && Mergeable(Combine(a, b), c) && Mergeable(a, Combine(b, c))
    ensures Combine(Combine(a, b), c) == Combine(a, Combine(b, c))
  {
    assert [a, b, c][1..] == [b, c] && [b, c][1..] == [c];
    assert Lifecycle(Newest(before, a), [b, c]);
    assert Lifecycle(Newest(Newest(before, a), b), [c]);
  }
}
