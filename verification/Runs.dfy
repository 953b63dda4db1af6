/**
  Runs of the bucket list: a sequence of batches added to an empty list, one per
  ledger from 1 on, beside the plain ledger map the same batches produce.
 */
module Runs {
  import opened Wrappers
  import opened LedgerCmp
  import opened Buckets
  import opened ListModel

  /** The entries one closed ledger created, updated and deleted, and its protocol version. */
  datatype Batch = Batch(protocol: nat, init: map<LedgerKey, Body>, live: map<LedgerKey, Body>, dead: set<LedgerKey>)

  predicate Mentions(b: Batch, k: LedgerKey) {
    k in b.init || k in b.live || k in b.dead
  }

  /** Bucket::fresh. Before protocol 11 creations are recorded as LIVE. */
  function Fresh(b: Batch): Bucket {
    Bucket(MetaFor(b.protocol),
           map k | k in b.init.Keys + b.live.Keys + b.dead ::
             if k in b.init then
               if b.protocol < FIRST_PROTOCOL_SUPPORTING_INITENTRY_AND_METAENTRY then LIVE(b.init[k]) else INIT(b.init[k])
             else if k in b.live then LIVE(b.live[k])
             else DEAD)
  }

  /** The list after the first t batches, each added at its own ledger number. */
  function Run(n: nat, bs: seq<Batch>, t: nat): (r: Result<seq<Level>, MergeError>)
    requires t <= |bs|
    ensures r.Success? ==> |r.value| == n
  {
    if t == 0 then Success(seq(n, _ => EmptyLevel))
    else
      match Run(n, bs, t - 1)
      case Failure(e) => Failure(e)
      case Success(levels) => AddBatch(n, levels, t, bs[t - 1].protocol, Fresh(bs[t - 1]))
  }

  // ----- the reference: a plain map -----

  function Apply(m: map<LedgerKey, Body>, b: Batch): map<LedgerKey, Body> {
    (m - b.dead) + b.init + b.live
  }

  function LedgerAfter(bs: seq<Batch>, t: nat): map<LedgerKey, Body>
    requires t <= |bs|
  {
    if t == 0 then map[] else Apply(LedgerAfter(bs, t - 1), bs[t - 1])
  }

  /** Creations are of absent keys, updates and deletions of present ones, and no key is in two roles. */
  predicate WellFormedBatch(m: map<LedgerKey, Body>, b: Batch) {
    b.init.Keys !! m.Keys && b.live.Keys <= m.Keys && b.dead <= m.Keys && b.live.Keys !! b.dead
  }

  predicate WellFormedAt(bs: seq<Batch>, t: nat)
    requires t < |bs|
  {
    WellFormedBatch(LedgerAfter(bs, t), bs[t])
  }

  predicate WellFormed(bs: seq<Batch>) {
    forall t: nat | t < |bs| :: WellFormedAt(bs, t)
  }

  /** The ledger map at one key after t batches. */
  function Value(bs: seq<Batch>, k: LedgerKey, t: nat): Option<Body>
    requires t <= |bs|
  {
    Get(LedgerAfter(bs, t), k)
  }

  // ----- protocol versions of a run -----

  const ELEVEN := FIRST_PROTOCOL_SUPPORTING_INITENTRY_AND_METAENTRY
  const TWELVE := FIRST_PROTOCOL_SHADOWS_REMOVED

  /** Protocol versions never decrease. */
  predicate Upgrading(bs: seq<Batch>) {
    forall s, t | 0 <= s <= t < |bs| :: bs[s].protocol <= bs[t].protocol
  }

  /** Every batch has at least this protocol version. */
  predicate From(version: nat, bs: seq<Batch>) {
    forall t | 0 <= t < |bs| :: bs[t].protocol >= version
  }

  /** Whether merges of the run may be given shadows at all. */
  datatype Era = Shadows | ShadowFree

  predicate InEra(era: Era, bs: seq<Batch>) {
    Upgrading(bs) && (era.ShadowFree? ==> From(TWELVE, bs))
  }

  // ----- which batches touch a key -----

  /** Whether a key is touched before protocol 11, and from 11 on. */
  datatype Touches = Touches(early: bool, late: bool) {
    predicate Any() { early || late }

    function Or(other: Touches): Touches { Touches(early || other.early, late || other.late) }
  }

  predicate MentionedEarly(b: Batch, k: LedgerKey) {
    Mentions(b, k) && b.protocol < ELEVEN
  }

  predicate MentionedLate(b: Batch, k: LedgerKey) {
    Mentions(b, k) && b.protocol >= ELEVEN
  }

  /** How batches lo + 1 to hi touch a key. */
  function Touched(bs: seq<Batch>, k: LedgerKey, lo: nat, hi: nat): Touches
    requires hi <= |bs|
  {
    Touches(exists t | lo <= t < hi :: MentionedEarly(bs[t], k), exists t | lo <= t < hi :: MentionedLate(bs[t], k))
  }

  lemma UntouchedKeepsValue(bs: seq<Batch>, k: LedgerKey, lo: nat, hi: nat)
    requires lo <= hi <= |bs| && !Touched(bs, k, lo, hi).Any()
    ensures Value(bs, k, lo) == Value(bs, k, hi)
  {
    if lo < hi {
      assert !MentionedEarly(bs[hi - 1], k) && !MentionedLate(bs[hi - 1], k);
      UntouchedKeepsValue(bs, k, lo, hi - 1);
    }
  }

  lemma TouchedSplits(bs: seq<Batch>, k: LedgerKey, lo: nat, mid: nat, hi: nat)
    requires lo <= mid <= hi <= |bs|
    ensures Touched(bs, k, lo, hi) == Touched(bs, k, lo, mid).Or(Touched(bs, k, mid, hi))
  {
  }

  /** After a late touch there is no early one. */
  lemma TouchOrder(bs: seq<Batch>, k: LedgerKey, lo: nat, mid: nat, hi: nat)
    requires lo <= mid <= hi <= |bs| && Upgrading(bs)
    ensures Touched(bs, k, lo, mid).late ==> !Touched(bs, k, mid, hi).early
  {
  }

  /** A range whose newest batch is early has no late touch. */
  lemma EarlyRange(bs: seq<Batch>, k: LedgerKey, lo: nat, hi: nat)
    requires lo < hi <= |bs| && Upgrading(bs) && bs[hi - 1].protocol < ELEVEN
    ensures !Touched(bs, k, lo, hi).late
  {
  }

  // ----- what a bucket holds of a range of batches -----

  /**
    The net effect on one key of a range of late batches, from the key's value
    before (a) and after (b) the range and whether the range touched it.
   */
  function Net(touched: bool, a: Option<Body>, b: Option<Body>): Option<State> {
    if !touched then None
    else if b.Some? then Some(if a.Some? then LIVE(b.value) else INIT(b.value))
    else if a.Some? then Some(DEAD)
    else None
  }

  /**
    The range's net effect. A key that an early batch of the range touches is
    recorded without INIT: LIVE or DEAD. Only a range that reaches back to the
    first ledger may have dropped the tombstone, and then begin again with INIT.
   */
  predicate Exact(c: Option<State>, bottom: bool, here: Touches, a: Option<Body>, b: Option<Body>) {
    if !here.early then c == Net(here.late, a, b)
    else if b.Some? then c == Some(LIVE(b.value)) || (bottom && c == Some(INIT(b.value)))
    else c == Some(DEAD) || (bottom && c.None?)
  }

  /**
    What elision may leave of a range once younger batches touched the key again.
    Merges before protocol 11 elide anything an early batch touches again; later
    ones elide only LIVE entries, so only of keys the range leaves present.
   */
  predicate Stale(c: Option<State>, bottom: bool, here: Touches, later: Touches, a: Option<Body>, b: Option<Body>) {
    || later.early
    || (later.late && b.Some? &&
        if here.early then c.Some? && c.value.INIT? ==> bottom
        else if a.Some? then c.Some? ==> c.value.LIVE?
        else c.Some? && c.value.INIT?)
  }

  /** An entry c accounts for a range of batches, as seen when `later` has happened since. */
  predicate HeldAt(era: Era, c: Option<State>, bottom: bool, here: Touches, later: Touches, a: Option<Body>, b: Option<Body>) {
    && (c.Some? ==> here.Any())
    && (c.Some? && c.value.INIT? ==> here.late)
    && (Exact(c, bottom, here, a, b) || (era.Shadows? && Stale(c, bottom, here, later, a, b)))
  }

  predicate HeldKey(era: Era, bs: seq<Batch>, b: Bucket, lo: nat, hi: nat, t: nat, k: LedgerKey)
    requires lo <= hi <= t <= |bs|
  {
    HeldAt(era, At(b, k), lo == 0, Touched(bs, k, lo, hi), Touched(bs, k, hi, t), Value(bs, k, lo), Value(bs, k, hi))
  }

  /**
    The META a bucket of batches lo + 1 to hi carries: the version of its newest
    batch. Before 11 there is none, unless a merge took version 11 from a shadow.
   */
  predicate MetaHeld(bs: seq<Batch>, b: Bucket, lo: nat, hi: nat, t: nat)
    requires lo <= hi <= t <= |bs|
  {
    if lo == hi then b.meta.None?
    else if bs[hi - 1].protocol >= ELEVEN then b.meta == Some(bs[hi - 1].protocol)
    else b.meta.None? || (b.meta == Some(ELEVEN) && bs[t - 1].protocol >= ELEVEN)
  }

  /** A bucket holds batches lo + 1 to hi, as seen when t batches have been added. */
  ghost predicate Held(era: Era, bs: seq<Batch>, b: Bucket, lo: nat, hi: nat, t: nat)
    requires lo <= hi <= t <= |bs|
  {
    MetaHeld(bs, b, lo, hi, t) && forall k :: HeldKey(era, bs, b, lo, hi, t, k)
  }

  lemma EmptyHeld(era: Era, bs: seq<Batch>, x: nat, t: nat)
    requires x <= t <= |bs|
    ensures Held(era, bs, EmptyBucket, x, x, t)
  {
  }

  lemma HeldLater(era: Era, bs: seq<Batch>, b: Bucket, lo: nat, hi: nat, t: nat)
    requires lo <= hi <= t < |bs| && Upgrading(bs) && Held(era, bs, b, lo, hi, t)
    ensures Held(era, bs, b, lo, hi, t + 1)
  {
    hide Touched, Exact;
    var t' := t + 1;
    forall k ensures HeldKey(era, bs, b, lo, hi, t', k) {
      assert HeldKey(era, bs, b, lo, hi, t, k);
      TouchedSplits(bs, k, hi, t, t');
    }
  }

  /** What one well-formed batch does to one key is what its fresh bucket records for it. */
  lemma FreshAt(era: Era, b: Batch, m: map<LedgerKey, Body>, k: LedgerKey, bottom: bool)
    requires WellFormedBatch(m, b)
    ensures HeldAt(era, At(Fresh(b), k), bottom, Touches(MentionedEarly(b, k), MentionedLate(b, k)), Touches(false, false),
                   Get(m, k), Get(Apply(m, b), k))
  {
    if k in b.init {
      assert k !in b.live && k !in m;
    } else if k in b.live {
      assert k in m;
    } else if k in b.dead {
      assert k in m;
    }
  }

  lemma {:induction false} FreshHeldKey(era: Era, bs: seq<Batch>, s: nat, k: LedgerKey)
    requires s < |bs| && WellFormed(bs)
    ensures HeldKey(era, bs, Fresh(bs[s]), s, s + 1, s + 1, k)
  {
    hide HeldAt, Fresh;
    var m, b := LedgerAfter(bs, s), bs[s];
    assert WellFormedAt(bs, s);
    FreshAt(era, b, m, k, s == 0);
    assert LedgerAfter(bs, s + 1) == Apply(m, b);
    assert Touched(bs, k, s, s + 1) == Touches(MentionedEarly(b, k), MentionedLate(b, k));
    assert Touched(bs, k, s + 1, s + 1) == Touches(false, false);
  }

  /** A fresh bucket holds its own batch. */
  lemma FreshHeld(era: Era, bs: seq<Batch>, s: nat, t: nat)
    requires s < |bs| && t == s + 1 && WellFormed(bs)
    ensures Held(era, bs, Fresh(bs[s]), s, t, t)
  {
    hide HeldKey, WellFormed;
    forall k ensures HeldKey(era, bs, Fresh(bs[s]), s, t, t, k) {
      FreshHeldKey(era, bs, s, k);
    }
  }

  /**
    The heart of the merge argument, for one key: merging what accounts for two
    adjacent ranges neither throws nor loses the account of the joined range.
   */
  lemma CombineHeld(era: Era, c1: Option<State>, c2: Option<State>, bottom1: bool, bottom2: bool,
                    here1: Touches, here2: Touches, later: Touches,
                    a: Option<Body>, m: Option<Body>, b: Option<Body>)
    requires HeldAt(era, c1, bottom1, here1, here2.Or(later), a, m)
    requires HeldAt(era, c2, bottom2, here2, later, m, b)
    requires !here1.Any() ==> a == m
    requires !here2.Any() ==> m == b
    requires here1.late ==> !here2.early && !later.early
    requires here2.late ==> !later.early
    requires bottom2 ==> bottom1 && !here1.Any()
    requires bottom1 ==> a.None?
    ensures Mergeable(c1, c2)
    ensures HeldAt(era, Combine(c1, c2), bottom1, here1.Or(here2), later, a, b)
  {
  }

  /** Leaving out a shadowed entry, or a tombstone at the oldest level, keeps the account. */
  lemma ElideHeld(era: Era, c: State, bottom: bool, here: Touches, later: Touches, a: Option<Body>, b: Option<Body>,
                  shadowed: bool, dropped: bool)
    requires HeldAt(era, Some(c), bottom, here, later, a, b)
    requires shadowed || dropped
    requires shadowed ==> era.Shadows? && (later.early || (later.late && (c.LIVE? || (bottom && c.DEAD?))))
    requires dropped ==> bottom && c.DEAD?
    requires bottom ==> a.None?
    ensures HeldAt(era, None, bottom, here, later, a, b)
  {
  }
}
