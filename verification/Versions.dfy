/**
  The META versions of all buckets, by running addBatch's snap, commit and
  prepare steps on protocol versions alone (src/bucket/Bucket.cpp:362-428 and
  src/bucket/BucketList.cpp:109-183), and the merges whose version makes them
  lose deletions.
 */
module Versions {
  import opened Wrappers
  import opened Buckets
  import opened Schedule
  import opened ListModel
  import opened Runs

  /** The versions of curr and snap, and of the pending merge if there is one. */
  datatype VersionLevel = VersionLevel(curr: nat, snap: nat, next: Option<nat>)

  /** The version a META shows: none below 11. */
  function Shown(version: nat): nat {
    if version < ELEVEN then 0 else version
  }

  /** The version of a merge: the maximum of both inputs and of every shadow below 12. */
  function JoinedVersion(o: nat, n: nat, shadows: seq<nat>): nat {
    if shadows == [] then Max(o, n)
    else
      var v, s := JoinedVersion(o, n, shadows[..|shadows| - 1]), shadows[|shadows| - 1];
      if s < TWELVE then Max(s, v) else v
  }

  /** Versions of curr and snap of the levels below m, youngest first. */
  function VersionsBelow(levels: seq<VersionLevel>, m: nat): (r: seq<nat>)
    requires m <= |levels|
    ensures |r| == 2 * m
  {
    seq(2 * m, j requires 0 <= j < 2 * m => if j % 2 == 0 then levels[j / 2].curr else levels[j / 2].snap)
  }

  /** What addBatch at `ledger` makes of the versions of level i. */
  function VersionStep(n: nat, levels: seq<VersionLevel>, ledger: nat, protocol: nat, i: nat): VersionLevel
    requires |levels| == n && i < n
  {
    var l := if LevelShouldSpill(n, ledger, i) then VersionLevel(0, levels[i].curr, levels[i].next) else levels[i];
    if i == 0 then l.(curr := Shown(Max(l.curr, Shown(protocol))))
    else if LevelShouldSpill(n, ledger, i - 1) then
      var curr, snap := if l.next.Some? then l.next.value else l.curr, levels[i - 1].curr;
      VersionLevel(curr, l.snap,
                   Some(Shown(JoinedVersion(if ShouldMergeWithEmptyCurr(n, ledger, i) then 0 else curr, snap,
                                            if snap >= TWELVE then [] else VersionsBelow(levels, i - 1)))))
    else l
  }

  /** The versions after t ledgers whose protocols are ps. */
  function VersionsAfter(n: nat, ps: seq<nat>, t: nat): (r: seq<VersionLevel>)
    requires t <= |ps|
    ensures |r| == n
  {
    if t == 0 then seq(n, _ => VersionLevel(0, 0, None))
    else
      var before := VersionsAfter(n, ps, t - 1);
      seq(n, i requires 0 <= i < n => VersionStep(n, before, t, ps[t - 1], i))
  }

  function Protocols(bs: seq<Batch>): (ps: seq<nat>)
    ensures |ps| == |bs| && forall i | 0 <= i < |bs| :: ps[i] == bs[i].protocol
  {
    seq(|bs|, i requires 0 <= i < |bs| => bs[i].protocol)
  }

  // ----- harmful merges -----

  /**
    The merge started at ledger u for level i does harm: the newest ledger it
    takes in is from before protocol 11 and it runs at a version below 11, so it
    elides deletions its shadows touch; but ledger u - 1, which its youngest
    shadow holds, is from 12 on, where a creation and a deletion cancel out. Only
    a merge that reaches back to the first ledger may lose a deletion.
   */
  predicate Harmful(n: nat, ps: seq<nat>, u: nat, i: nat)
    requires u <= |ps|
  {
    && 2 <= i < n && 2 <= u && LevelShouldSpill(n, u, i - 1)
    && 0 < PendingBottom(n, i, u)
    && (TopsDescend(n, i - 1, u);
        0 < SnapTop(n, i - 1, u) && ps[SnapTop(n, i - 1, u) - 1] < ELEVEN)
    && ps[u - 2] >= TWELVE
    && VersionsAfter(n, ps, u)[i].next.Some? && VersionsAfter(n, ps, u)[i].next.value < ELEVEN
  }

  /** No harmful merge has been committed by ledger t. */
  predicate Harmless(n: nat, ps: seq<nat>, t: nat)
    requires t <= |ps|
  {
    forall u: nat, i: nat | 0 < i < n && u + LevelHalf(i - 1) <= t :: !Harmful(n, ps, u, i)
  }

  lemma HarmlessBefore(n: nat, ps: seq<nat>, s: nat, t: nat)
    requires s <= t <= |ps| && Harmless(n, ps, t)
    ensures Harmless(n, ps, s)
  {
    hide Harmful;
  }

  /** A run that stays on one side of the step from before 11 to 12 does no harm. */
  lemma OneSideIsHarmless(n: nat, bs: seq<Batch>, t: nat)
    requires t <= |bs|
    requires From(ELEVEN, bs) || forall s | 0 <= s < |bs| :: bs[s].protocol < TWELVE
    ensures Harmless(n, Protocols(bs), t)
    ensures forall u: nat, i: nat | u <= |bs| :: !Harmful(n, Protocols(bs), u, i)
  {
    hide VersionsAfter, PendingBottom, LevelShouldSpill;
    forall u: nat, i: nat | u <= |bs| ensures !Harmful(n, Protocols(bs), u, i) {
      if 2 <= i < n { TopsDescend(n, i - 1, u); }
    }
  }

  // ----- the versions of a run's buckets -----

  predicate LevelVersions(l: Level, v: VersionLevel) {
    && Version(l.curr) == v.curr && Version(l.snap) == v.snap
    && v.next == if l.next.Clear? then None else Some(Shown(MergeVersion(l.next.curr, l.next.snap, l.next.shadows)))
  }

  predicate ListVersions(levels: seq<Level>, vs: seq<VersionLevel>) {
    |levels| == |vs| && forall i | 0 <= i < |levels| :: LevelVersions(levels[i], vs[i])
  }

  lemma {:induction false} JoinedIs(oldB: Bucket, newB: Bucket, shadows: seq<Bucket>, vs: seq<nat>)
    requires |vs| == |shadows| && forall j | 0 <= j < |vs| :: vs[j] == Version(shadows[j])
    ensures JoinedVersion(Version(oldB), Version(newB), vs) == MergeVersion(oldB, newB, shadows)
  {
    if shadows != [] {
      var m := |shadows| - 1;
      assert forall j | 0 <= j < m :: vs[..m][j] == Version(shadows[..m][j]);
      JoinedIs(oldB, newB, shadows[..m], vs[..m]);
    }
  }

  lemma BelowVersion(levels: seq<Level>, vs: seq<VersionLevel>, m: nat, i: nat)
    requires ListVersions(levels, vs) && i < m <= |levels|
    ensures VersionsBelow(vs, m)[2 * i] == Version(BucketsBelow(levels, m)[2 * i])
    ensures VersionsBelow(vs, m)[2 * i + 1] == Version(BucketsBelow(levels, m)[2 * i + 1])
  {
    hide Version, LevelVersions;
    assert LevelVersions(levels[i], vs[i]);
    LevelVersion(levels[i], vs[i]);
    assert (2 * i) / 2 == i && (2 * i + 1) / 2 == i && (2 * i) % 2 == 0 && (2 * i + 1) % 2 == 1;
  }

  lemma LevelVersion(l: Level, v: VersionLevel)
    requires LevelVersions(l, v)
    ensures Version(l.curr) == v.curr && Version(l.snap) == v.snap
  {
  }

  lemma BelowVersions(levels: seq<Level>, vs: seq<VersionLevel>, m: nat)
    requires ListVersions(levels, vs) && m <= |levels|
    ensures forall j | 0 <= j < 2 * m :: VersionsBelow(vs, m)[j] == Version(BucketsBelow(levels, m)[j])
  {
    hide Version, VersionsBelow, BucketsBelow, ListVersions;
    ListSizes(levels, vs);
    forall j | 0 <= j < 2 * m ensures VersionsBelow(vs, m)[j] == Version(BucketsBelow(levels, m)[j]) {
      BelowVersion(levels, vs, m, j / 2);
      assert j == 2 * (j / 2) || j == 2 * (j / 2) + 1;
    }
  }

  lemma ListSizes(levels: seq<Level>, vs: seq<VersionLevel>)
    requires ListVersions(levels, vs)
    ensures |levels| == |vs|
  {
  }

  lemma MergedVersion(oldB: Bucket, newB: Bucket, shadows: seq<Bucket>, keepDead: bool, maxVersion: nat)
    requires Merge(oldB, newB, shadows, keepDead, maxVersion).Success?
    ensures Version(Merge(oldB, newB, shadows, keepDead, maxVersion).value) == Shown(MergeVersion(oldB, newB, shadows))
  {
    hide MergeVersion, MergedEntries, HasInit, AllMergeable;
  }

  lemma CommittedVersion(l: Level, v: VersionLevel)
    requires LevelVersions(l, v) && Committed(l).Success?
    ensures Version(Committed(l).value.curr) == (if v.next.Some? then v.next.value else v.curr)
    ensures Version(Committed(l).value.snap) == v.snap
  {
    hide Merge, Version;
    if l.next.Pending? { MergedVersion(l.next.curr, l.next.snap, l.next.shadows, l.next.keepDead, l.next.maxVersion); }
  }

  lemma OlderVersions(n: nat, levels: seq<Level>, vs: seq<VersionLevel>, ledger: nat, protocol: nat, i: nat)
    requires |levels| == n && 0 < i < n && ListVersions(levels, vs) && OlderLevel(n, levels, ledger, protocol, i).Success?
    ensures LevelVersions(OlderLevel(n, levels, ledger, protocol, i).value, VersionStep(n, vs, ledger, protocol, i))
  {
    hide LevelShouldSpill, ShouldMergeWithEmptyCurr, Committed, MergeVersion, JoinedVersion, BucketsBelow, VersionsBelow, KeepDeadEntries;
    assert LevelVersions(levels[i], vs[i]) && LevelVersions(levels[i - 1], vs[i - 1]);
    var l := if LevelShouldSpill(n, ledger, i) then Snapped(levels[i]) else levels[i];
    var v := if LevelShouldSpill(n, ledger, i) then VersionLevel(0, vs[i].curr, vs[i].next) else vs[i];
    assert LevelVersions(l, v);
    if LevelShouldSpill(n, ledger, i - 1) {
      CommittedVersion(l, v);
      BelowVersions(levels, vs, i - 1);
      var f := Prepare(n, i, ledger, protocol, Committed(l).value.curr, levels[i - 1].curr, BucketsBelow(levels, i - 1));
      JoinedIs(f.curr, f.snap, f.shadows, if Version(f.snap) >= TWELVE then [] else VersionsBelow(vs, i - 1));
    }
  }

  lemma YoungestVersions(n: nat, levels: seq<Level>, vs: seq<VersionLevel>, ledger: nat, b: Batch)
    requires 0 < |levels| == n && ListVersions(levels, vs) && YoungestLevel(n, levels, ledger, b.protocol, Fresh(b)).Success?
    requires vs[0].next.None?
    ensures LevelVersions(YoungestLevel(n, levels, ledger, b.protocol, Fresh(b)).value, VersionStep(n, vs, ledger, b.protocol, 0))
    ensures VersionStep(n, vs, ledger, b.protocol, 0).next.None?
  {
    hide LevelShouldSpill, Merge, MergeVersion;
    assert LevelVersions(levels[0], vs[0]);
    var l := if LevelShouldSpill(n, ledger, 0) then Snapped(levels[0]) else levels[0];
    var f := Prepare(n, 0, ledger, b.protocol, l.curr, Fresh(b), []);
    MergedVersion(f.curr, f.snap, f.shadows, f.keepDead, f.maxVersion);
    JoinedIs(f.curr, f.snap, f.shadows, []);
  }

  /** Whatever the batches touch, the versions of the buckets are those the protocols alone give. */
  lemma {:induction false} VersionsAre(n: nat, bs: seq<Batch>, t: nat)
    requires 0 < n && t <= |bs| && Run(n, bs, t).Success?
    ensures ListVersions(Run(n, bs, t).value, VersionsAfter(n, Protocols(bs), t))
    ensures VersionsAfter(n, Protocols(bs), t)[0].next.None?
  {
    hide LevelVersions, OlderLevel, YoungestLevel, VersionStep, Fresh;
    var ps := Protocols(bs);
    if t == 0 {
      assert LevelVersions(EmptyLevel, VersionLevel(0, 0, None)) by { EmptyVersions(); }
    } else {
      VersionsAre(n, bs, t - 1);
      var levels, vs, b := Run(n, bs, t - 1).value, VersionsAfter(n, ps, t - 1), bs[t - 1];
      forall i: nat | i < n ensures LevelVersions(Run(n, bs, t).value[i], VersionsAfter(n, ps, t)[i]) {
        assert Run(n, bs, t).value[i - 0] == NewLevel(n, levels, t, b.protocol, Fresh(b), i).value;
        if i == 0 { YoungestVersions(n, levels, vs, t, b); } else { OlderVersions(n, levels, vs, t, b.protocol, i); }
      }
      YoungestVersions(n, levels, vs, t, b);
    }
  }

  lemma EmptyVersions()
    ensures LevelVersions(EmptyLevel, VersionLevel(0, 0, None))
  {
  }
}
