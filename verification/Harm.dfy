/**
  A harmful merge does harm: for every rising sequence of protocol versions, the
  first harmful merge to be committed brings a deleted entry back in some
  well-formed run with these versions.

  The run touches one key four times: it creates it just below the range of the
  merge, deletes it at the end of that range, creates it again in the last ledger
  before the merge is started, and deletes it again in the ledger that starts it.
 */
module Harm {
  import opened Wrappers
  import opened LedgerCmp
  import opened Buckets
  import opened Schedule
  import opened ListModel
  import opened Runs
  import opened Versions
  import opened Refinement
  import opened Theorems

  // ----- the run -----

  /** The ledgers that touch the key: created at c, deleted at d, created again at u - 1, deleted again at u. */
  datatype Script = Script(c: nat, d: nat, u: nat, k: LedgerKey, x: Body) {
    predicate Ordered() { 0 < c < d < u - 1 }

    function BatchAt(protocol: nat, ledger: nat): Batch {
      Batch(protocol, if ledger == c || ledger == u - 1 then map[k := x] else map[], map[],
            if ledger == d || ledger == u then {k} else {})
    }

    predicate Present(ledger: nat) { c <= ledger < d || ledger == u - 1 }

    /** Some ledger of lo + 1 to hi touches the key before protocol 11, and from 11 on. */
    function TouchesIn(lo: nat, hi: nat): Touches {
      Touches(lo < c <= hi || lo < d <= hi, lo < u - 1 <= hi || lo < u <= hi)
    }
  }

  predicate Rising(ps: seq<nat>) {
    forall s, t | 0 <= s <= t < |ps| :: ps[s] <= ps[t]
  }

  function ScriptRun(ps: seq<nat>, sc: Script): (bs: seq<Batch>)
    ensures |bs| == |ps| && forall s | 0 <= s < |bs| :: bs[s] == sc.BatchAt(ps[s], s + 1)
    ensures Protocols(bs) == ps && (Rising(ps) ==> Upgrading(bs))
  {
    seq(|ps|, s requires 0 <= s < |ps| => sc.BatchAt(ps[s], s + 1))
  }

  lemma {:induction false} ScriptLedger(ps: seq<nat>, sc: Script, t: nat)
    requires t <= |ps| && sc.Ordered()
    ensures LedgerAfter(ScriptRun(ps, sc), t) == if sc.Present(t) then map[sc.k := sc.x] else map[]
  {
    hide Script.BatchAt;
    if t > 0 {
      ScriptLedger(ps, sc, t - 1);
      assert ScriptRun(ps, sc)[t - 1] == sc.BatchAt(ps[t - 1], t);
      ScriptApplied(sc, ps[t - 1], t);
    }
  }

  lemma ScriptApplied(sc: Script, protocol: nat, ledger: nat)
    requires ledger > 0 && sc.Ordered()
    ensures var m := if sc.Present(ledger - 1) then map[sc.k := sc.x] else map[];
            && WellFormedBatch(m, sc.BatchAt(protocol, ledger))
            && Apply(m, sc.BatchAt(protocol, ledger)) == if sc.Present(ledger) then map[sc.k := sc.x] else map[]
  {
  }

  lemma ScriptWellFormed(ps: seq<nat>, sc: Script)
    requires sc.Ordered()
    ensures WellFormed(ScriptRun(ps, sc))
  {
    hide Script.BatchAt, Script.Present, Apply, WellFormedBatch;
    var bs := ScriptRun(ps, sc);
    forall t: nat | t < |bs| ensures WellFormedAt(bs, t) {
      ScriptLedger(ps, sc, t);
      ScriptApplied(sc, ps[t], t + 1);
    }
  }

  /** The script is played across the step from before 11 to 12. */
  predicate Fits(ps: seq<nat>, sc: Script) {
    sc.Ordered() && sc.u <= |ps| && Rising(ps) && ps[sc.d - 1] < ELEVEN && ps[sc.u - 2] >= TWELVE
  }

  lemma ScriptTouches(ps: seq<nat>, sc: Script, lo: nat, hi: nat)
    requires Fits(ps, sc) && hi <= |ps|
    ensures Touched(ScriptRun(ps, sc), sc.k, lo, hi) == sc.TouchesIn(lo, hi)
  {
    var bs, k := ScriptRun(ps, sc), sc.k;
    assert ps[sc.c - 1] <= ps[sc.d - 1] && ps[sc.u - 2] <= ps[sc.u - 1];
    assert MentionedEarly(bs[sc.c - 1], k) && MentionedEarly(bs[sc.d - 1], k);
    assert MentionedLate(bs[sc.u - 2], k) && MentionedLate(bs[sc.u - 1], k);
    assert forall s | 0 <= s < |bs| && Mentions(bs[s], k) :: s + 1 == sc.c || s + 1 == sc.d || s + 1 == sc.u - 1 || s + 1 == sc.u;
  }

  /** What a bucket of ledgers lo + 1 to hi holds of the key, as of a ledger when it had not been touched since. */
  lemma ScriptHeld(ps: seq<nat>, sc: Script, b: Bucket, lo: nat, hi: nat, t: nat)
    requires Fits(ps, sc) && lo <= hi <= t <= |ps| && Held(Shadows, ScriptRun(ps, sc), b, lo, hi, t)
    ensures !sc.TouchesIn(lo, hi).Any() ==> sc.k !in b.entries
    ensures !sc.TouchesIn(hi, t).Any() && sc.TouchesIn(lo, hi).Any() && sc.Present(hi) ==> Reader(At(b, sc.k)) == Some(sc.x)
    ensures !sc.TouchesIn(hi, t).Any() && !sc.TouchesIn(lo, hi).early && !sc.Present(lo) && !sc.Present(hi) ==> sc.k !in b.entries
  {
    hide Touched;
    var bs := ScriptRun(ps, sc);
    ScriptTouches(ps, sc, lo, hi);
    ScriptTouches(ps, sc, hi, t);
    ScriptLedger(ps, sc, lo);
    ScriptLedger(ps, sc, hi);
    assert HeldKey(Shadows, bs, b, lo, hi, t, sc.k);
  }

  // ----- levels at rest -----

  /** Between two spills of the next younger level, the merge pending at level i is the one started at the first. */
  lemma {:induction false} BetweenSpills(n: nat, i: nat, v: nat, r: nat)
    requires 0 < i < n && LevelShouldSpill(n, v, i - 1) && v <= r < v + LevelHalf(i - 1)
    ensures Started(i, r) == v && (v < r ==> !LevelShouldSpill(n, r, i - 1))
    ensures LevelShouldSpill(n, v + LevelHalf(i - 1), i - 1)
    decreases r
  {
    hide LevelHalf;
    var m := LevelHalf(i - 1);
    SpillIff(n, v, i - 1);
    SpillIff(n, v + m, i - 1);
    if v < r {
      BetweenSpills(n, i, v, r - 1);
      SpillIff(n, r, i - 1);
      MaskStep(r, m);
    }
  }

  /** While the next younger level does not spill, level i and its tops stay as they are. */
  lemma {:induction false} AtRest(n: nat, bs: seq<Batch>, i: nat, v: nat, s: nat, t: nat)
    requires 0 < i < n && LevelShouldSpill(n, v, i - 1) && v <= s <= t < v + LevelHalf(i - 1)
    requires t <= |bs| && Run(n, bs, t).Success?
    ensures Run(n, bs, s).Success? && Run(n, bs, t).value[i] == Run(n, bs, s).value[i]
    ensures CurrTop(n, i, t) == CurrTop(n, i, s) && SnapTop(n, i, t) == SnapTop(n, i, s)
    ensures CurrTop(n, i + 1, t) == CurrTop(n, i + 1, s) && SnapTop(n, i - 1, t) == SnapTop(n, i - 1, s)
    ensures PendingBottom(n, i, t) == PendingBottom(n, i, s)
    decreases t
  {
    hide LevelShouldSpill, ShouldMergeWithEmptyCurr, CurrTop, SnapTop, LevelHalf, AddBatch;
    if s < t {
      BetweenSpills(n, i, v, t);
      IdleTops(n, i, t - 1, t);
      AtRest(n, bs, i, v, s, t - 1);
      NewLevelIs(n, bs, i, t);
    }
  }

  /** Level i after ledger t, from the levels before. */
  lemma NewLevelIs(n: nat, bs: seq<Batch>, i: nat, t: nat)
    requires i < n && 0 < t <= |bs| && Run(n, bs, t).Success?
    ensures Run(n, bs, t - 1).Success?
    ensures NewLevel(n, Run(n, bs, t - 1).value, t, bs[t - 1].protocol, Fresh(bs[t - 1]), i) == Success(Run(n, bs, t).value[i])
  {
    hide NewLevel, Fresh;
    var levels, b := Run(n, bs, t - 1).value, bs[t - 1];
    assert NewLevel(n, levels, t, b.protocol, Fresh(b), i).Success?;
    assert Run(n, bs, t).value[i - 0] == NewLevel(n, levels, t, b.protocol, Fresh(b), i).value;
  }

  // ----- the first harmful merge -----

  /** The merge started at ledger u for level i is the first harmful one to be committed. */
  predicate First(n: nat, ps: seq<nat>, u: nat, i: nat) {
    && 2 <= i < n && Rising(ps) && u + LevelHalf(i - 1) <= |ps|
    && Harmful(n, ps, u, i) && Harmless(n, ps, u + LevelHalf(i - 1) - 1)
  }

  lemma {:induction false} FindFirst(n: nat, ps: seq<nat>, t: nat) returns (u: nat, i: nat)
    requires t <= |ps| && Rising(ps) && !Harmless(n, ps, t)
    ensures First(n, ps, u, i) && u + LevelHalf(i - 1) <= t
  {
    hide Harmful, LevelHalf;
    if !Harmless(n, ps, t - 1) {
      u, i := FindFirst(n, ps, t - 1);
    } else {
      u, i :| 0 < i < n && u + LevelHalf(i - 1) <= t && Harmful(n, ps, u, i);
      assert 2 <= i by { HarmLevel(n, ps, u, i); }
    }
  }

  lemma HarmLevel(n: nat, ps: seq<nat>, u: nat, i: nat)
    requires u <= |ps| && Harmful(n, ps, u, i)
    ensures 2 <= i < n && 2 <= u && LevelShouldSpill(n, u, i - 1)
  {
  }

  /** The script for a merge: the key is created below its range and deleted at the end of it. */
  function ScriptFor(n: nat, u: nat, i: nat, k: LedgerKey, x: Body): Script
    requires 0 < i
  {
    Script(PendingBottom(n, i, u), SnapTop(n, i - 1, u), u, k, x)
  }

  /** Where the ledgers of the script lie. */
  lemma HarmNumbers(n: nat, ps: seq<nat>, u: nat, i: nat)
    requires u <= |ps| && Harmful(n, ps, u, i)
    ensures var c, d, h := PendingBottom(n, i, u), SnapTop(n, i - 1, u), LevelHalf(i - 1);
            && 0 < c <= CurrTop(n, i, u) < d < u - 1 && u < d + h
            && h <= u - h && LevelShouldSpill(n, u - h, i - 1) && i < n - 1
  {
    hide PendingBottom, LevelHalf, VersionsAfter;
    var h := LevelHalf(i - 1);
    PendingOrder(n, i, u);
    SpillMoves(n, i, u);
    SpillIff(n, u, i - 1);
    HalfFacts(i - 1);
    assert Skew(i - 1) >= 5;
    assert Mask(u, h) == h + Mask(u - h, h);
    SpillIff(n, u - h, i - 1);
    LastPending(n, i, u);
  }

  /** With up to three levels every merge above the youngest two levels reaches back to the first ledger. */
  lemma FewLevelsAreHarmless(n: nat, ps: seq<nat>, t: nat)
    requires n <= 3 && t <= |ps|
    ensures Harmless(n, ps, t)
  {
    hide Harmful, LevelHalf;
    forall u: nat, i: nat | 0 < i < n && u + LevelHalf(i - 1) <= t ensures !Harmful(n, ps, u, i) {
      if Harmful(n, ps, u, i) {
        HarmLevel(n, ps, u, i);
        HarmNumbers(n, ps, u, i);
      }
    }
  }

  lemma {:induction false} HalvesGrow(j: nat, i: nat)
    requires j < i
    ensures 4 * LevelHalf(j) <= LevelHalf(i)
    decreases i
  {
    hide LevelHalf;
    HalfFacts(i);
    if j < i - 1 { HalvesGrow(j, i - 1); }
  }

  /** No other harmful merge is committed at the same ledger. */
  lemma OthersHarmless(n: nat, ps: seq<nat>, u: nat, i: nat, j: nat)
    requires First(n, ps, u, i) && 0 < j < n && j != i
    requires LevelHalf(j - 1) <= u + LevelHalf(i - 1)
    ensures !Harmful(n, ps, u + LevelHalf(i - 1) - LevelHalf(j - 1), j)
  {
    hide Harmful, LevelHalf;
    var v := u + LevelHalf(i - 1) - LevelHalf(j - 1);
    HarmLevel(n, ps, u, i);
    HarmNumbers(n, ps, u, i);
    HarmProtocols(n, ps, u, i);
    if Harmful(n, ps, v, j) {
      HarmLevel(n, ps, v, j);
      HarmProtocols(n, ps, v, j);
      SpillTop(n, v, j - 1);
      if j < i { HalvesGrow(j - 1, i - 1); } else { HalvesGrow(i - 1, j - 1); }
    }
  }

  lemma HarmProtocols(n: nat, ps: seq<nat>, u: nat, i: nat)
    requires u <= |ps| && Harmful(n, ps, u, i)
    ensures 2 <= i < n && 2 <= u && 0 < SnapTop(n, i - 1, u) <= u && ps[SnapTop(n, i - 1, u) - 1] < ELEVEN && TWELVE <= ps[u - 2]
  {
    hide VersionsAfter, SnapTop, PendingBottom, LevelShouldSpill;
    TopsDescend(n, i - 1, u);
  }

  /** A spilled level's snap ends less than half a level before. */
  lemma SpillTop(n: nat, v: nat, j: nat)
    requires j < n && LevelShouldSpill(n, v, j)
    ensures v <= SnapTop(n, j, v) + LevelHalf(j)
  {
    hide LevelHalf;
    SpillIff(n, v, j);
    HalfFacts(j);
  }

  // ----- what the merge loses -----

  /** Below version 11 a merge elides whatever its shadows touch. */
  lemma ShadowedAway(oldB: Bucket, newB: Bucket, shadows: seq<Bucket>, keepDead: bool, maxVersion: nat, k: LedgerKey)
    requires MergeVersion(oldB, newB, shadows) < ELEVEN <= maxVersion && !HasInit(oldB) && !HasInit(newB) && InAny(shadows, k)
    ensures var r := Merge(oldB, newB, shadows, keepDead, maxVersion);
            r.Success? && k !in r.value.entries
  {
    hide MergeVersion, InAny, Combine;
    MergedAtKey(oldB, newB, shadows, keepDead, k);
  }

  /** The youngest shadow of a merge started at ledger u holds what ledger u - 1 created. */
  lemma YoungestHolds(n: nat, ps: seq<nat>, sc: Script, levels: seq<Level>, i: nat)
    requires Fits(ps, sc) && 2 <= i < n && Invariant(Shadows, n, ScriptRun(ps, sc), levels, sc.u - 1)
    ensures InAny(BucketsBelow(levels, i - 1), sc.k)
  {
    hide Held, Mask, LevelHalf;
    var s := sc.u - 1;
    TopsDescend(n, 0, s);
    assert LevelOk(Shadows, n, ScriptRun(ps, sc), levels[0], 0, s);
    assert SnapTop(n, 0, s) < s == CurrTop(n, 0, s);
    ScriptHeld(ps, sc, levels[0].curr, SnapTop(n, 0, s), s, s);
    assert BucketsBelow(levels, i - 1)[2 * 0] == levels[0].curr;
  }

  /** The merge that a spill of the next younger level starts for level i. */
  lemma StartedMerge(n: nat, bs: seq<Batch>, i: nat, u: nat)
    requires 0 < i < n && 0 < u <= |bs| && Run(n, bs, u).Success? && LevelShouldSpill(n, u, i - 1)
    ensures Run(n, bs, u - 1).Success?
    ensures var levels, l := Run(n, bs, u - 1).value, Run(n, bs, u).value[i];
            l.next == Prepare(n, i, u, bs[u - 1].protocol, l.curr, levels[i - 1].curr, BucketsBelow(levels, i - 1))
  {
    hide LevelShouldSpill, Prepare, BucketsBelow, Fresh;
    NewLevelIs(n, bs, i, u);
  }

  /** Up to the commit of the first harmful merge, the script's run is in order. */
  lemma ScriptRuns(n: nat, ps: seq<nat>, u: nat, i: nat, k: LedgerKey, x: Body, t: nat)
    requires First(n, ps, u, i) && t < u + LevelHalf(i - 1)
    ensures var sc := ScriptFor(n, u, i, k, x); var bs := ScriptRun(ps, sc);
            && Fits(ps, sc) && WellFormed(bs) && Run(n, bs, t).Success? && Invariant(Shadows, n, bs, Run(n, bs, t).value, t)
  {
    hide WellFormed, Invariant, Script.BatchAt, VersionsAfter, LevelHalf, CurrTop, SnapTop, PendingBottom, LevelShouldSpill;
    HarmNumbers(n, ps, u, i);
    var sc := ScriptFor(n, u, i, k, x);
    ScriptWellFormed(ps, sc);
    HarmlessBefore(n, ps, t, u + LevelHalf(i - 1) - 1);
    RunInvariant(Shadows, n, ScriptRun(ps, sc), t);
  }

  /** The first harmful merge succeeds, and has lost the key. */
  lemma Lost(n: nat, ps: seq<nat>, u: nat, i: nat, k: LedgerKey, x: Body)
    requires First(n, ps, u, i)
    ensures var bs := ScriptRun(ps, ScriptFor(n, u, i, k, x));
            && Run(n, bs, u).Success? && Run(n, bs, u).value[i].next.Pending?
            && var r := Resolve(Run(n, bs, u).value[i].next); r.Success? && k !in r.value.entries
  {
    hide Held, Merge, MergeVersion, Invariant, BucketsBelow, WellFormed, Upgrading, LevelHalf, Fits, Run;
    hide CurrTop, SnapTop, PendingBottom, LevelShouldSpill, ShouldMergeWithEmptyCurr, ScriptRun, Harmful, KeepDeadEntries, InAny, HasInit;
    var sc := ScriptFor(n, u, i, k, x);
    var bs := ScriptRun(ps, sc);
    HarmLevel(n, ps, u, i);
    ScriptRuns(n, ps, u, i, k, x, u - 1);
    ScriptRuns(n, ps, u, i, k, x, u);
    HarmVersion(n, ps, u, i, bs);
    var levels, l := Run(n, bs, u - 1).value, Run(n, bs, u).value[i];
    StartedMerge(n, bs, i, u);
    YoungestHolds(n, ps, sc, levels, i);
    NoInitTaken(n, bs, levels, Run(n, bs, u).value, i, u);
    var f := l.next;
    ShadowedAway(f.curr, f.snap, f.shadows, f.keepDead, f.maxVersion, k);
  }

  lemma HarmVersion(n: nat, ps: seq<nat>, u: nat, i: nat, bs: seq<Batch>)
    requires u <= |ps| && Rising(ps) && Harmful(n, ps, u, i) && Protocols(bs) == ps && Run(n, bs, u).Success?
    ensures LevelShouldSpill(n, u, i - 1) && ELEVEN <= bs[u - 1].protocol
    ensures CurrTop(n, i, u) < SnapTop(n, i - 1, u) <= u && bs[SnapTop(n, i - 1, u) - 1].protocol < ELEVEN
    ensures var f := Run(n, bs, u).value[i].next; f.Pending? && MergeVersion(f.curr, f.snap, f.shadows) < ELEVEN
  {
    hide VersionsAfter, CurrTop, SnapTop, PendingBottom, LevelShouldSpill, MergeVersion, Run;
    VersionsAre(n, bs, u);
    assert LevelVersions(Run(n, bs, u).value[i], VersionsAfter(n, ps, u)[i]);
    HarmNumbers(n, ps, u, i);
    assert ps[u - 2] <= ps[u - 1] == bs[u - 1].protocol;
  }

  /** A merge of level i that takes in only batches from before 11 meets no INIT, and has its shadows. */
  lemma NoInitTaken(n: nat, bs: seq<Batch>, before: seq<Level>, levels: seq<Level>, i: nat, u: nat)
    requires 0 < i < n && 0 < u <= |bs| && Upgrading(bs) && LevelShouldSpill(n, u, i - 1)
    requires Invariant(Shadows, n, bs, before, u - 1) && Invariant(Shadows, n, bs, levels, u)
    requires CurrTop(n, i, u) < SnapTop(n, i - 1, u) <= u && bs[SnapTop(n, i - 1, u) - 1].protocol < ELEVEN
    ensures !HasInit(levels[i].curr) && !HasInit(EmptyBucket) && !HasInit(before[i - 1].curr)
    ensures Version(before[i - 1].curr) < TWELVE
  {
    hide CurrTop, SnapTop, Held, Harmful, AllShadows, LevelShouldSpill;
    TopsDescend(n, i, u);
    assert LevelOk(Shadows, n, bs, levels[i], i, u);
    EarlyHasNoInit(Shadows, bs, levels[i].curr, SnapTop(n, i, u), CurrTop(n, i, u), u);
    SpilledSnap(Shadows, n, bs, before, i, u - 1, u);
    EarlyHasNoInit(Shadows, bs, before[i - 1].curr, CurrTop(n, i, u), SnapTop(n, i - 1, u), u);
  }

  // ----- what stays below it -----

  /** How the tops of level i move at a spill of the next younger level, told from any ledger since the spill before. */
  lemma TopsAsOf(n: nat, bs: seq<Batch>, i: nat, e: nat, u: nat)
    requires 0 < i < n && LevelHalf(i - 1) <= u && u - LevelHalf(i - 1) <= e < u <= |bs| && Run(n, bs, u - 1).Success?
    requires LevelShouldSpill(n, u - LevelHalf(i - 1), i - 1) && LevelShouldSpill(n, u, i - 1)
    ensures CurrTop(n, i + 1, u) <= SnapTop(n, i, u) <= CurrTop(n, i, u) <= e
    ensures SnapTop(n, i, u) == PendingBottom(n, i, e) && CurrTop(n, i, u) == SnapTop(n, i - 1, e)
    ensures SnapTop(n, i, u) == if LevelShouldSpill(n, u, i) then CurrTop(n, i, e) else SnapTop(n, i, e)
    ensures CurrTop(n, i + 1, u) == if LevelShouldSpill(n, u, i) then SnapTop(n, i, e) else CurrTop(n, i + 1, e)
    ensures Run(n, bs, e).Success? && Run(n, bs, u - 1).value[i] == Run(n, bs, e).value[i]
  {
    hide CurrTop, SnapTop, PendingBottom, LevelShouldSpill, LevelHalf, Run;
    AtRest(n, bs, i, u - LevelHalf(i - 1), e, u - 1);
    SpillTops(n, i, u - 1, u);
    TopsDescend(n, i, u);
    TopsDescend(n, i - 1, e);
  }

  /** Level i after a spill of the next younger level, as of a ledger since the spill before. */
  lemma CommittedAsOf(n: nat, bs: seq<Batch>, i: nat, e: nat, u: nat)
    requires 0 < i < n && LevelHalf(i - 1) <= u - LevelHalf(i - 1) <= e < u <= |bs| && Run(n, bs, u).Success?
    requires LevelShouldSpill(n, u - LevelHalf(i - 1), i - 1) && LevelShouldSpill(n, u, i - 1)
    requires Run(n, bs, e).Success? && Invariant(Shadows, n, bs, Run(n, bs, e).value, e)
    requires !Harmful(n, Protocols(bs), u - LevelHalf(i - 1), i)
    ensures CurrTop(n, i + 1, u) <= SnapTop(n, i, u) <= CurrTop(n, i, u) <= e
    ensures var l := Run(n, bs, u).value[i];
            && Held(Shadows, bs, l.curr, SnapTop(n, i, u), CurrTop(n, i, u), e)
            && Held(Shadows, bs, l.snap, CurrTop(n, i + 1, u), SnapTop(n, i, u), e)
  {
    hide CurrTop, SnapTop, PendingBottom, LevelShouldSpill, LevelHalf, Held, Merge, Harmful, Started, BucketsBelow, Run, Prepare, Fresh;
    NewLevelIs(n, bs, i, u);
    TopsAsOf(n, bs, i, e, u);
    BetweenSpills(n, i, u - LevelHalf(i - 1), e);
    assert LevelOk(Shadows, n, bs, Run(n, bs, e).value[i], i, e);
  }

  /** What level i will have as its snap when the merge is committed still holds the key. */
  lemma Kept(n: nat, ps: seq<nat>, u: nat, i: nat, k: LedgerKey, x: Body, w: nat)
    requires First(n, ps, u, i) && w == u + LevelHalf(i - 1)
    ensures var bs := ScriptRun(ps, ScriptFor(n, u, i, k, x));
            && Run(n, bs, w - 1).Success?
            && var l := Run(n, bs, w - 1).value[i];
               Reader(At(if LevelShouldSpill(n, w, i) then l.curr else l.snap, k)) == Some(x)
  {
    hide CurrTop, SnapTop, PendingBottom, LevelShouldSpill, LevelHalf, ShouldMergeWithEmptyCurr, Held, Run, VersionsAfter, Invariant;
    hide WellFormed, Upgrading, ScriptRun;
    HarmNumbers(n, ps, u, i);
    var sc := ScriptFor(n, u, i, k, x);
    var bs, e := ScriptRun(ps, sc), sc.d - 1;
    ScriptRuns(n, ps, u, i, k, x, e);
    ScriptRuns(n, ps, u, i, k, x, u);
    ScriptRuns(n, ps, u, i, k, x, w - 1);
    CommittedAsOf(n, bs, i, e, u);
    AtRest(n, bs, i, u, u, w - 1);
    BetweenSpills(n, i, u, u);
    SpillTops(n, i, w - 1, w);
    SnapNotEmpty(n, i, w);
    var l := Run(n, bs, w - 1).value[i];
    ScriptHeld(ps, sc, if LevelShouldSpill(n, w, i) then l.curr else l.snap, CurrTop(n, i + 1, w), SnapTop(n, i, w), e);
  }

  lemma SnapNotEmpty(n: nat, i: nat, w: nat)
    requires i < n && 0 < SnapTop(n, i, w)
    ensures CurrTop(n, i + 1, w) < SnapTop(n, i, w)
  {
  }

  // ----- what lies above it -----

  /** When the merge is committed, the younger levels hold nothing of the key: creation and deletion have met. */
  lemma Cancelled(n: nat, ps: seq<nat>, u: nat, i: nat, k: LedgerKey, x: Body, w: nat, j: nat, l: Level)
    requires First(n, ps, u, i) && w == u + LevelHalf(i - 1) && j < i
    requires LevelHeld(Shadows, n, ScriptRun(ps, ScriptFor(n, u, i, k, x)), l, j, w)
    ensures k !in l.curr.entries && k !in l.snap.entries
  {
    hide CurrTop, SnapTop, PendingBottom, LevelHalf, Held, Run, VersionsAfter, Invariant, WellFormed, ScriptRun;
    var sc := ScriptFor(n, u, i, k, x);
    ScriptRuns(n, ps, u, i, k, x, u);
    TopsDescend(n, j, w);
    TopsAtCommit(n, ps, u, i, w, j);
    ScriptHeld(ps, sc, l.curr, SnapTop(n, j, w), CurrTop(n, j, w), w);
    ScriptHeld(ps, sc, l.snap, CurrTop(n, j + 1, w), SnapTop(n, j, w), w);
  }

  /** At the commit the younger buckets begin at or after ledger u, except the one that follows the merge. */
  lemma TopsAtCommit(n: nat, ps: seq<nat>, u: nat, i: nat, w: nat, j: nat)
    requires First(n, ps, u, i) && w == u + LevelHalf(i - 1) && j < i
    ensures u <= SnapTop(n, j, w)
    ensures if j == i - 1 then CurrTop(n, j + 1, w) == SnapTop(n, i - 1, u) else u <= CurrTop(n, j + 1, w)
  {
    hide CurrTop, SnapTop, LevelHalf, Harmful;
    FollowingTops(n, ps, u, i, w);
    if j < i - 1 {
      TopsDescend(n, i - 1, w);
      TopsChain(n, j + 1, i - 1, w);
      TopsDescend(n, j, w);
    }
  }

  lemma FollowingTops(n: nat, ps: seq<nat>, u: nat, i: nat, w: nat)
    requires u <= |ps| && Harmful(n, ps, u, i) && w == u + LevelHalf(i - 1)
    ensures u <= SnapTop(n, i - 1, w) && CurrTop(n, i, w) == SnapTop(n, i - 1, u)
  {
    hide PendingBottom, LevelHalf, VersionsAfter, Mask;
    HarmNumbers(n, ps, u, i);
    BetweenSpills(n, i, u, u);
    SpillIff(n, w, i - 1);
    SpillIff(n, u, i - 1);
    HalfFacts(i - 1);
  }

  // ----- reading -----

  lemma {:induction false} ReadPast(flat: seq<Bucket>, a: nat, b: nat, k: LedgerKey)
    requires a <= b <= |flat| && forall q | a <= q < b :: k !in flat[q].entries
    ensures NewestFrom(flat, a, k) == NewestFrom(flat, b, k)
    decreases b - a
  {
    if a < b { ReadPast(flat, a + 1, b, k); }
  }

  lemma ReadAtLevel(levels: seq<Level>, i: nat, k: LedgerKey)
    requires i < |levels| && k !in levels[i].curr.entries && k in levels[i].snap.entries
    requires forall j | 0 <= j < i :: k !in levels[j].curr.entries && k !in levels[j].snap.entries
    ensures Lookup(levels, k) == Reader(At(levels[i].snap, k))
  {
    var flat := Flat(levels);
    forall q | 0 <= q < 2 * i + 1 ensures k !in flat[q].entries {
      var j := q / 2;
      assert q == 2 * j || q == 2 * j + 1;
      assert flat[2 * j] == levels[j].curr && flat[2 * j + 1] == levels[j].snap;
    }
    ReadPast(flat, 0, 2 * i + 1, k);
    assert flat[2 * i + 1] == levels[i].snap;
  }

  /** What committing the merge makes of each level. */
  lemma LevelAtCommit(n: nat, ps: seq<nat>, u: nat, i: nat, k: LedgerKey, x: Body, s: nat, w: nat, j: nat)
    requires First(n, ps, u, i) && w == u + LevelHalf(i - 1) == s + 1 && j < n
    ensures var bs := ScriptRun(ps, ScriptFor(n, u, i, k, x));
            && Run(n, bs, s).Success?
            && var r := NewLevel(n, Run(n, bs, s).value, w, ps[s], Fresh(bs[s]), j);
               && r.Success?
               && (j < i ==> k !in r.value.curr.entries && k !in r.value.snap.entries)
               && (j == i ==> k !in r.value.curr.entries && Reader(At(r.value.snap, k)) == Some(x))
  {
    hide Held, Run, VersionsAfter, Invariant, WellFormed, Harmful, LevelShouldSpill, LevelHalf, Started, Fresh, ScriptRun, ListVersions;
    hide OlderLevel, YoungestLevel, LevelHeld, NextHeld, Upgrading;
    var bs := ScriptRun(ps, ScriptFor(n, u, i, k, x));
    ScriptRuns(n, ps, u, i, k, x, s);
    VersionsAre(n, bs, s);
    var levels := Run(n, bs, s).value;
    if j == 0 {
      YoungestStep(Shadows, n, bs, levels, s, w);
      Cancelled(n, ps, u, i, k, x, w, j, NewLevel(n, levels, w, ps[s], Fresh(bs[s]), j).value);
    } else if j == i {
      LevelAtHarm(n, ps, u, i, k, x, s, w);
    } else {
      StartedStep(n, j, s, w);
      if LevelShouldSpill(n, w, j - 1) { OthersHarmless(n, ps, u, i, j); }
      OlderStep(Shadows, n, bs, levels, j, s, w);
      if j < i { Cancelled(n, ps, u, i, k, x, w, j, NewLevel(n, levels, w, ps[s], Fresh(bs[s]), j).value); }
    }
  }

  lemma LevelAtHarm(n: nat, ps: seq<nat>, u: nat, i: nat, k: LedgerKey, x: Body, s: nat, w: nat)
    requires First(n, ps, u, i) && w == u + LevelHalf(i - 1) == s + 1
    ensures var bs := ScriptRun(ps, ScriptFor(n, u, i, k, x));
            && Run(n, bs, s).Success?
            && var r := OlderLevel(n, Run(n, bs, s).value, w, ps[s], i);
               r.Success? && k !in r.value.curr.entries && Reader(At(r.value.snap, k)) == Some(x)
  {
    hide Run, VersionsAfter, Harmful, LevelShouldSpill, LevelHalf, ScriptRun, Merge, Prepare, BucketsBelow, CurrTop, SnapTop, PendingBottom;
    var bs := ScriptRun(ps, ScriptFor(n, u, i, k, x));
    HarmLevel(n, ps, u, i);
    BetweenSpills(n, i, u, u);
    Lost(n, ps, u, i, k, x);
    Kept(n, ps, u, i, k, x, w);
    AtRest(n, bs, i, u, u, s);
  }

  /** After ledger w a reader finds x at k, which has been deleted. */
  predicate ComesBack(n: nat, bs: seq<Batch>, w: nat, k: LedgerKey, x: Body) {
    && w <= |bs| && Run(n, bs, w).Success?
    && Lookup(Run(n, bs, w).value, k) == Some(x) && Get(LedgerAfter(bs, w), k) == None
  }

  /**
    The first harmful merge to be committed makes a reader find an entry that has
    been deleted, in a well-formed run with the same protocol versions.
   */
  lemma DeletedComesBack(n: nat, ps: seq<nat>, u: nat, i: nat, k: LedgerKey, x: Body)
    requires First(n, ps, u, i)
    ensures var bs := ScriptRun(ps, ScriptFor(n, u, i, k, x));
            Protocols(bs) == ps && WellFormed(bs) && ComesBack(n, bs, u + LevelHalf(i - 1), k, x)
  {
    hide VersionsAfter, Harmful, LevelHalf, NewLevel, Fresh, Lookup, CurrTop, SnapTop, PendingBottom, WellFormed, Invariant;
    var sc := ScriptFor(n, u, i, k, x);
    var bs, w := ScriptRun(ps, sc), u + LevelHalf(i - 1);
    var s := w - 1;
    ScriptRuns(n, ps, u, i, k, x, s);
    ScriptLedger(ps, sc, w);
    var levels := Run(n, bs, s).value;
    forall j: nat | j < n ensures NewLevel(n, levels, w, ps[s], Fresh(bs[s]), j).Success? {
      LevelAtCommit(n, ps, u, i, k, x, s, w, j);
    }
    var after := Run(n, bs, w).value;
    forall j: nat | j <= i
      ensures j < i ==> k !in after[j].curr.entries && k !in after[j].snap.entries
      ensures j == i ==> k !in after[j].curr.entries && Reader(At(after[j].snap, k)) == Some(x) {
      LevelAtCommit(n, ps, u, i, k, x, s, w, j);
      NewLevelIs(n, bs, j, w);
    }
    ReadAtLevel(after, i, k);
  }

  // ----- exactly when every run reads right -----

  ghost predicate ReadsRight(n: nat, bs: seq<Batch>, t: nat)
    requires t <= |bs|
  {
    Run(n, bs, t).Success? && forall k :: Lookup(Run(n, bs, t).value, k) == Get(LedgerAfter(bs, t), k)
  }

  /** Every well-formed run with these protocol versions reads right after each of its ledgers. */
  ghost predicate AlwaysRight(n: nat, ps: seq<nat>) {
    forall bs: seq<Batch>, t: nat | Protocols(bs) == ps && WellFormed(bs) && t <= |bs| :: ReadsRight(n, bs, t)
  }

  /**
    Refinement through upgrades, exactly: whatever the batches, every well-formed
    run with the given never decreasing protocol versions reads as the ledger
    throughout, if and only if the versions let no harmful merge be committed.
   */
  lemma RightIffHarmless(n: nat, ps: seq<nat>, x: Body)
    requires 2 <= n && Rising(ps)
    ensures AlwaysRight(n, ps) <==> Harmless(n, ps, |ps|)
  {
    hide ReadsRight, Harmless, WellFormed;
    if Harmless(n, ps, |ps|) {
      forall bs: seq<Batch>, t: nat | Protocols(bs) == ps && WellFormed(bs) && t <= |bs| ensures ReadsRight(n, bs, t) {
        HarmlessReads(n, bs, t);
      }
    } else {
      var u, i := FindFirst(n, ps, |ps|);
      HarmReads(n, ps, u, i, x);
    }
  }

  lemma HarmlessReads(n: nat, bs: seq<Batch>, t: nat)
    requires 2 <= n && t <= |bs| && WellFormed(bs) && Rising(Protocols(bs)) && Harmless(n, Protocols(bs), |bs|)
    ensures ReadsRight(n, bs, t)
  {
    hide Harmless, WellFormed;
    var ps := Protocols(bs);
    forall a, b | 0 <= a <= b < |bs| ensures bs[a].protocol <= bs[b].protocol { assert ps[a] <= ps[b]; }
    HarmlessBefore(n, ps, t, |bs|);
    LookupIsLedger(n, bs, t);
  }

  lemma HarmReads(n: nat, ps: seq<nat>, u: nat, i: nat, x: Body)
    requires First(n, ps, u, i)
    ensures !AlwaysRight(n, ps)
  {
    hide Harmful, Harmless, WellFormed, Run, Lookup, LedgerAfter, LevelHalf, ScriptRun;
    var k, w := Account(0), u + LevelHalf(i - 1);
    DeletedComesBack(n, ps, u, i, k, x);
    var bs := ScriptRun(ps, ScriptFor(n, u, i, k, x));
    assert !ReadsRight(n, bs, w);
  }
}
