/**
  The bucket list as it runs: levels updated in place, oldest first
  (src/bucket/BucketList.cpp:24-183 and 467-659).
 */
module BucketListRun {
  import opened Wrappers
  import opened LedgerCmp
  import opened Buckets
  import opened Files
  import opened Iterators
  import opened MergeRun
  import opened Schedule
  import opened ListModel
  import opened Runs
  import opened FreshBucket
  import opened Restart

  /** A FutureBucket over files. */
  datatype FileFuture = NoMerge | Merging(curr: File, snap: File, shadows: seq<File>, keepDead: bool, maxVersion: nat)

  predicate GoodFiles(fs: seq<File>) {
    forall i | 0 <= i < |fs| :: GoodFile(fs[i])
  }

  predicate GoodFuture(f: FileFuture) {
    f.Merging? ==> GoodFile(f.curr) && GoodFile(f.snap) && GoodFiles(f.shadows)
  }

  function FutureOf(f: FileFuture): Future {
    match f
    case NoMerge => Clear
    case Merging(c, s, sh, keep, max) => Pending(Contents(c), Contents(s), ContentsAll(sh), keep, max)
  }

  lemma EmptyFile()
    ensures GoodFile([]) && Contents([]) == EmptyBucket && GoodFiles([]) && ContentsAll([]) == []
  {
  }

  /** getBucketVersion. */
  method GetBucketVersion(f: File) returns (v: nat)
    requires GoodFile(f)
    ensures v == Version(Contents(f))
  {
    var it, _ := Open(f);
    v := it.metadata;
  }

  class BucketLevel {
    const n: nat
    const level: nat
    var next: FileFuture
    var curr: File
    var snap: File

    ghost predicate Valid()
      reads this
    {
      GoodFile(curr) && GoodFile(snap) && GoodFuture(next)
    }

    ghost function Value(): Level
      reads this
    {
      Level(Contents(curr), Contents(snap), FutureOf(next))
    }

    lemma Parts()
      requires Valid()
      ensures GoodFile(snap) && Value().snap == Contents(snap) && (Value().next.Clear? <==> next.NoMerge?)
    {
      FutureClear(next);
    }

    constructor (numLevels: nat, i: nat)
      ensures n == numLevels && level == i && Valid() && Value() == EmptyLevel && next.NoMerge?
    {
      n, level := numLevels, i;
      next, curr, snap := NoMerge, [], [];
      new;
      EmptyFile();
    }

    /** snap: curr moves out of the way. */
    method Snap() returns (s: File)
      requires Valid()
      modifies this
      ensures Valid() && Value() == Snapped(old(Value())) && next == old(next)
      ensures GoodFile(s) && Contents(s) == old(Value()).curr
    {
      EmptyFile();
      snap := curr;
      curr := [];
      s := snap;
    }

    /** commit: a pending merge is resolved into curr. */
    method Commit() returns (err: Option<MergeError>)
      requires Valid()
      modifies this
      ensures match Committed(old(Value()))
              case Success(l) => err == None && Valid() && Value() == l && next.NoMerge?
              case Failure(e) => err == Some(e)
    {
      hide Merge, Contents, GoodFile;
      if next.Merging? {
        var r := MergeFiles(next.maxVersion, next.curr, next.snap, next.shadows, next.keepDead);
        if r.Failure? {
          return Some(r.error);
        }
        next := NoMerge;
        curr := r.value;
      }
      err := None;
    }

    /** prepare: starts the merge that will become the next curr. No merge may be pending. */
    method Prepare(currLedger: nat, currLedgerProtocol: nat, snapFile: File, shadows: seq<File>)
      requires Valid() && next.NoMerge? && GoodFile(snapFile) && GoodFiles(shadows)
      modifies this
      ensures Valid() && curr == old(curr) && snap == old(snap)
      ensures Value() == old(Value()).(next := ListModel.Prepare(n, level, currLedger, currLedgerProtocol, old(Value()).curr,
                                                                 Contents(snapFile), ContentsAll(shadows)))
    {
      hide GoodFile, ShouldMergeWithEmptyCurr, Contents;
      EmptyFile();
      var inputCurr := if ShouldMergeWithEmptyCurr(n, currLedger, level) then [] else curr;
      var version := GetBucketVersion(snapFile);
      var shadowsBasedOnProtocol := if version >= FIRST_PROTOCOL_SHADOWS_REMOVED then [] else shadows;
      next := Merging(inputCurr, snapFile, shadowsBasedOnProtocol, KeepDeadEntries(n, level), currLedgerProtocol);
    }
  }

  /** What addBatch makes of a level its younger neighbour spills into. */
  lemma OlderIs(n: nat, pre: seq<Level>, ledger: nat, protocol: nat, batch: Bucket, i: nat)
    requires |pre| == n && 0 < i < n && LevelShouldSpill(n, ledger, i - 1)
    ensures NewLevel(n, pre, ledger, protocol, batch, i) ==
            match Committed(if LevelShouldSpill(n, ledger, i) then Snapped(pre[i]) else pre[i])
            case Failure(e) => Failure(e)
            case Success(c) =>
              Success(c.(next := ListModel.Prepare(n, i, ledger, protocol, c.curr, pre[i - 1].curr, BucketsBelow(pre, i - 1))))
  {
  }

  /** Levels from i on are done, level i has been snapped if due, younger levels are untouched. */
  predicate PartlyNew(n: nat, vals: seq<Level>, pre: seq<Level>, ledger: nat, protocol: nat, batch: Bucket, i: nat) {
    |vals| == n == |pre| && i < n &&
    (forall j: nat | j < i :: vals[j] == pre[j]) &&
    vals[i] == (if LevelShouldSpill(n, ledger, i) then Snapped(pre[i]) else pre[i]) &&
    (forall j: nat | i < j < n :: NewLevel(n, pre, ledger, protocol, batch, j) == Success(vals[j]))
  }

  lemma StartPartly(n: nat, pre: seq<Level>, ledger: nat, protocol: nat, batch: Bucket)
    requires 0 < n == |pre|
    ensures PartlyNew(n, pre, pre, ledger, protocol, batch, n - 1)
  {
    LastNeverSpills(n, ledger);
  }

  /** When level i - 1 does not spill, level i is done as it is. */
  lemma NoSpill(n: nat, vals: seq<Level>, pre: seq<Level>, ledger: nat, protocol: nat, batch: Bucket, i: nat)
    requires 0 < i < n && PartlyNew(n, vals, pre, ledger, protocol, batch, i) && !LevelShouldSpill(n, ledger, i - 1)
    ensures PartlyNew(n, vals, pre, ledger, protocol, batch, i - 1)
  {
    hide LevelShouldSpill, Committed;
    if LevelShouldSpill(n, ledger, i) { SpillCascades(n, ledger, i); }
  }

  /** When it does, snapping it, and committing and preparing level i, finishes level i; a failing commit fails the whole. */
  lemma Spilled(n: nat, vals: seq<Level>, pre: seq<Level>, ledger: nat, protocol: nat, batch: Bucket, i: nat)
    requires 0 < i < n && PartlyNew(n, vals, pre, ledger, protocol, batch, i) && LevelShouldSpill(n, ledger, i - 1)
    ensures |vals| == |pre| == n && vals[i - 1] == pre[i - 1]
    ensures match Committed(vals[i])
            case Success(c) =>
              var l := c.(next := ListModel.Prepare(n, i, ledger, protocol, c.curr, pre[i - 1].curr, BucketsBelow(pre, i - 1)));
              PartlyNew(n, vals[i - 1 := Snapped(vals[i - 1])][i := l], pre, ledger, protocol, batch, i - 1)
            case Failure(e) => ListModel.AddBatch(n, pre, ledger, protocol, batch) == Failure(e)
  {
    hide LevelShouldSpill, Committed, NewLevel, ListModel.Prepare, BucketsBelow;
    OlderIs(n, pre, ledger, protocol, batch, i);
    if Committed(vals[i]).Failure? {
      OldestFailureDecides(n, pre, ledger, protocol, batch, 0, i, Committed(vals[i]).error);
    }
  }

  lemma NothingBelow(vals: seq<Level>)
    ensures BucketsBelow(vals, 0) == []
  {
  }

  lemma PushShadows(vals: seq<Level>, shadows: seq<File>, curr: File, snap: File, i: nat)
    requires i < |vals| && GoodFiles(shadows) && ContentsAll(shadows) == BucketsBelow(vals, i)
    requires GoodFile(curr) && GoodFile(snap) && Contents(curr) == vals[i].curr && Contents(snap) == vals[i].snap
    ensures GoodFiles(shadows + [curr, snap]) && ContentsAll(shadows + [curr, snap]) == BucketsBelow(vals, i + 1)
  {
    hide GoodFile, Contents;
    assert ContentsAll(shadows + [curr, snap]) == ContentsAll(shadows) + [Contents(curr), Contents(snap)];
  }

  datatype AddError = DuplicateKeys | MergeFailed(error: MergeError)

  class BucketList {
    const n: nat
    var levels: seq<BucketLevel>

    /** The levels are distinct objects in order, and nothing is pending at level 0. */
    ghost predicate Valid()
      reads this, levels
    {
      2 <= n == |levels| &&
      (forall i, j | 0 <= i < j < n :: levels[i] != levels[j]) &&
      (forall i | 0 <= i < n :: levels[i].n == n && levels[i].level == i && levels[i].Valid()) &&
      levels[0].next.NoMerge?
    }

    ghost function Values(): (r: seq<Level>)
      reads this, levels
      ensures |r| == |levels|
      ensures forall i | 0 <= i < |r| :: r[i] == levels[i].Value()
    {
      seq(|levels|, i requires 0 <= i < |levels| reads this, levels => levels[i].Value())
    }

    constructor (numLevels: nat)
      requires 2 <= numLevels
      ensures n == numLevels && Valid() && fresh(levels)
      ensures Values() == seq(n, _ => EmptyLevel)
    {
      n := numLevels;
      levels := [];
      new;
      for i := 0 to numLevels
        invariant |levels| == i && fresh(levels)
        invariant forall x, y | 0 <= x < y < i :: levels[x] != levels[y]
        invariant forall x | 0 <= x < i :: levels[x].n == n && levels[x].level == x && levels[x].Valid()
        invariant forall x | 0 <= x < i :: levels[x].Value() == EmptyLevel && levels[x].next.NoMerge?
      {
        var l := new BucketLevel(numLevels, i);
        levels := levels + [l];
      }
    }

    /** curr and snap of every level, youngest first. */
    method CollectShadows() returns (shadows: seq<File>)
      requires Valid()
      ensures |shadows| == 2 * n && GoodFiles(shadows) && ContentsAll(shadows) == BucketsBelow(Values(), n)
    {
      hide GoodFile, GoodFiles, Contents, ContentsAll, BucketsBelow;
      ghost var vals := Values();
      shadows := [];
      EmptyFile();
      NothingBelow(vals);
      for i := 0 to n
        invariant |shadows| == 2 * i && GoodFiles(shadows)
        invariant ContentsAll(shadows) == BucketsBelow(vals, i)
      {
        PushShadows(vals, shadows, levels[i].curr, levels[i].snap, i);
        shadows := shadows + [levels[i].curr, levels[i].snap];
      }
    }

    /** addBatch has dealt with the levels from i on. */
    ghost predicate Partway(pre: seq<Level>, ledger: nat, protocol: nat, batch: Bucket, i: nat)
      reads this, levels
    {
      Valid() && PartlyNew(n, Values(), pre, ledger, protocol, batch, i)
    }

    /** The three calls of one turn: snap level i - 1, commit level i, prepare level i. */
    method Exchange(i: nat, currLedger: nat, currLedgerProtocol: nat, shadows: seq<File>) returns (err: Option<MergeError>)
      requires Valid() && 0 < i < n && GoodFiles(shadows)
      modifies levels[i - 1], levels[i]
      ensures var vals := old(Values());
              match Committed(vals[i])
              case Failure(e) => err == Some(e)
              case Success(c) =>
                var next := ListModel.Prepare(n, i, currLedger, currLedgerProtocol, c.curr, vals[i - 1].curr, ContentsAll(shadows));
                err == None && Valid() && Values() == vals[i - 1 := Snapped(vals[i - 1])][i := c.(next := next)]
    {
      hide BucketLevel.Value, BucketLevel.Valid, Committed, ListModel.Prepare, GoodFile, GoodFiles, Contents, ContentsAll, Snapped;
      var snap := levels[i - 1].Snap();
      err := levels[i].Commit();
      if err.Some? {
        return;
      }
      levels[i].Prepare(currLedger, currLedgerProtocol, snap, shadows);
    }

    /** One turn of addBatch's loop: level i - 1 spills into level i. */
    method Spill(i: nat, currLedger: nat, currLedgerProtocol: nat, shadows: seq<File>, ghost pre: seq<Level>, ghost batch: Bucket)
      returns (err: Option<MergeError>)
      requires |pre| == n && 0 < i < n && Partway(pre, currLedger, currLedgerProtocol, batch, i)
      requires GoodFiles(shadows) && ContentsAll(shadows) == BucketsBelow(pre, i - 1)
      requires LevelShouldSpill(n, currLedger, i - 1)
      modifies levels[i - 1], levels[i]
      ensures err == None ==> Partway(pre, currLedger, currLedgerProtocol, batch, i - 1)
      ensures err.Some? ==> ListModel.AddBatch(n, pre, currLedger, currLedgerProtocol, batch) == Failure(err.value)
    {
      hide Valid, Values, LevelShouldSpill, Committed, ListModel.Prepare, GoodFiles, PartlyNew, ContentsAll, BucketsBelow;
      Spilled(n, Values(), pre, currLedger, currLedgerProtocol, batch, i);
      err := Exchange(i, currLedger, currLedgerProtocol, shadows);
    }

    lemma NoSpillHere(i: nat, ledger: nat, protocol: nat, pre: seq<Level>, batch: Bucket)
      requires 0 < i < n && Partway(pre, ledger, protocol, batch, i) && !LevelShouldSpill(n, ledger, i - 1)
      ensures Partway(pre, ledger, protocol, batch, i - 1)
    {
      hide Valid, Values, PartlyNew, LevelShouldSpill;
      NoSpill(n, Values(), pre, ledger, protocol, batch, i);
    }

    /** The loop of addBatch, from the oldest level down. */
    method SpillLevels(currLedger: nat, currLedgerProtocol: nat, ghost batch: Bucket) returns (err: Option<MergeError>)
      requires Valid()
      modifies levels
      ensures err == None ==> Partway(old(Values()), currLedger, currLedgerProtocol, batch, 0)
      ensures err.Some? ==> ListModel.AddBatch(n, old(Values()), currLedger, currLedgerProtocol, batch) == Failure(err.value)
    {
      hide LevelShouldSpill, NewLevel, NewLevels, PartlyNew, GoodFiles, ContentsAll, BucketsBelow, BucketLevel.Valid, BucketLevel.Value;
      hide ListModel.AddBatch;
      ghost var pre := Values();
      var shadows := CollectShadows();
      PopShadows(pre, shadows, n);
      shadows := shadows[..|shadows| - 2];
      StartPartly(n, pre, currLedger, currLedgerProtocol, batch);
      var i := n - 1;
      while i != 0
        invariant 0 <= i < n && Partway(pre, currLedger, currLedgerProtocol, batch, i)
        invariant GoodFiles(shadows) && |shadows| == 2 * i && ContentsAll(shadows) == BucketsBelow(pre, i)
      {
        PopShadows(pre, shadows, i);
        shadows := shadows[..|shadows| - 2];
        if LevelShouldSpill(n, currLedger, i - 1) {
          err := Spill(i, currLedger, currLedgerProtocol, shadows, pre, batch);
          if err.Some? {
            return;
          }
        } else {
          NoSpillHere(i, currLedger, currLedgerProtocol, pre, batch);
        }
        i := i - 1;
      }
      assert shadows == [];
      err := None;
    }

    /**
      addBatch refines ListModel.AddBatch: the in-place run from the oldest level
      to the youngest leaves exactly the levels that function describes, and
      fails exactly when and as it does.
     */
    method AddBatch(currLedger: nat, currLedgerProtocol: nat,
                    initEntries: seq<LedgerEntry>, liveEntries: seq<LedgerEntry>, deadEntries: seq<LedgerKey>)
      returns (err: Option<AddError>)
      requires Valid() && 0 < currLedger
      modifies levels
      ensures var batch := Fresh(BatchOf(currLedgerProtocol, initEntries, liveEntries, deadEntries));
              var spec := ListModel.AddBatch(n, old(Values()), currLedger, currLedgerProtocol, batch);
              match err
              case None =>
                Valid() && spec == Success(Values()) &&
                DistinctKeys(Collected(currLedgerProtocol >= FIRST_PROTOCOL_SUPPORTING_INITENTRY_AND_METAENTRY,
                                       initEntries, liveEntries, deadEntries))
              case Some(MergeFailed(e)) => spec == Failure(e)
              case Some(DuplicateKeys) =>
                !DistinctKeys(Collected(currLedgerProtocol >= FIRST_PROTOCOL_SUPPORTING_INITENTRY_AND_METAENTRY,
                                        initEntries, liveEntries, deadEntries))
    {
      hide LevelShouldSpill, GoodFile, Contents, NewLevel, NewLevels, DistinctKeys, Collected, Fresh, BatchOf;
      ghost var pre := Values();
      ghost var batch := Fresh(BatchOf(currLedgerProtocol, initEntries, liveEntries, deadEntries));
      var failed := SpillLevels(currLedger, currLedgerProtocol, batch);
      if failed.Some? {
        return Some(MergeFailed(failed.value));
      }
      var file := FreshFile(currLedgerProtocol, initEntries, liveEntries, deadEntries);
      if file.None? {
        return Some(DuplicateKeys);
      }
      failed := AddYoungest(currLedger, currLedgerProtocol, file.value, pre, batch);
      if failed.Some? {
        OldestFailureDecides(n, pre, currLedger, currLedgerProtocol, batch, 0, 0, failed.value);
        return Some(MergeFailed(failed.value));
      }
      AllLevelsDone(n, pre, currLedger, currLedgerProtocol, batch, Values());
      err := None;
    }

    /** The fresh bucket goes into level 0 at once. */
    method AddYoungest(currLedger: nat, currLedgerProtocol: nat, file: File, ghost pre: seq<Level>, ghost batch: Bucket)
      returns (err: Option<MergeError>)
      requires |pre| == n && Partway(pre, currLedger, currLedgerProtocol, batch, 0)
      requires GoodFile(file) && Contents(file) == batch
      modifies levels
      ensures err == None ==>
                Valid() && forall j: nat | j < n :: NewLevel(n, pre, currLedger, currLedgerProtocol, batch, j) == Success(levels[j].Value())
      ensures err.Some? ==>
                NewLevel(n, pre, currLedger, currLedgerProtocol, batch, 0) == Failure(err.value) &&
                forall m: nat | 0 < m < n :: NewLevel(n, pre, currLedger, currLedgerProtocol, batch, m).Success?
    {
      hide LevelShouldSpill, Committed, NewLevel, ListModel.Prepare, GoodFile, Contents, FutureOf, GoodFuture;
      EmptyFile();
      YoungestIs(n, pre, currLedger, currLedgerProtocol, batch);
      levels[0].Prepare(currLedger, currLedgerProtocol, file, []);
      err := levels[0].Commit();
    }

    /** prepare on one level of the list, without shadows. */
    method PrepareAt(i: nat, ledger: nat, protocol: nat, snap: File)
      requires Valid() && 0 < i < n && levels[i].next.NoMerge? && GoodFile(snap)
      modifies levels[i]
      ensures Valid()
      ensures var l := old(Values())[i];
              Values() == old(Values())[i := l.(next := ListModel.Prepare(n, i, ledger, protocol, l.curr, Contents(snap), []))]
    {
      hide BucketLevel.Valid, BucketLevel.Value, GoodFile, Contents, ListModel.Prepare;
      EmptyFile();
      levels[i].Prepare(ledger, protocol, snap, []);
    }

    /** restartMerges refines Restart.RestartMerges on a list whose futures are clear or already running. */
    method RestartMerges(ledger: nat) returns (err: Option<RestartError>)
      requires Valid()
      modifies levels
      ensures match Restart.RestartMerges(n, old(Values()), ledger)
              case Success(after) => err == None && Valid() && Values() == after
              case Failure(e) => err == Some(e)
    {
      hide BucketLevel.Valid, BucketLevel.Value, GoodFile, GoodFiles, Contents, ContentsAll, ListModel.Prepare, LevelHalf, Mask, RestartFrom;
      EmptyFile();
      ghost var pre := Values();
      for i := 0 to n
        invariant Valid() && Restart.RestartMerges(n, pre, ledger) == RestartFrom(n, Values(), ledger, i)
      {
        ghost var now := Values();
        RestartTurn(n, now, ledger, i);
        levels[i].Parts();
        if i > 0 && levels[i].next.NoMerge? {
          levels[i - 1].Parts();
          var snap := levels[i - 1].snap;
          EmptyContents(snap);
          if snap == [] {
            return None;
          }
          var version := GetBucketVersion(snap);
          if version < FIRST_PROTOCOL_SHADOWS_REMOVED {
            return Some(ClearFutureOldSnap(i, version));
          }
          var mergeStartLedger := Mask(ledger, LevelHalf(i - 1));
          PrepareAt(i, mergeStartLedger, version, snap);
        }
      }
      RestartEnd(n, Values(), ledger);
      err := None;
    }
  }

  lemma FutureClear(f: FileFuture)
    ensures FutureOf(f).Clear? <==> f.NoMerge?
  {
  }

  lemma EmptyContents(f: File)
    ensures Contents(f) == EmptyBucket <==> f == []
  {
    if f != [] && !f[0].Meta? {
      EntriesKeys(f, f[0].key);
      assert f[0].key in EntriesOf(f);
    }
  }

  /** One turn of the restart loop, on values. */
  lemma RestartTurn(n: nat, levels: seq<Level>, ledger: nat, i: nat)
    requires |levels| == n && i < n
    ensures RestartFrom(n, levels, ledger, i) ==
            if i == 0 || levels[i].next.Pending? then RestartFrom(n, levels, ledger, i + 1)
            else
              var snap := levels[i - 1].snap;
              if snap == EmptyBucket then Success(levels)
              else if Version(snap) < FIRST_PROTOCOL_SHADOWS_REMOVED then Failure(ClearFutureOldSnap(i, Version(snap)))
              else
                var next := ListModel.Prepare(n, i, Mask(ledger, LevelHalf(i - 1)), Version(snap), levels[i].curr, snap, []);
                RestartFrom(n, levels[i := levels[i].(next := next)], ledger, i + 1)
  {
  }

  lemma RestartEnd(n: nat, levels: seq<Level>, ledger: nat)
    requires |levels| == n
    ensures RestartFrom(n, levels, ledger, n) == Success(levels)
  {
  }

  lemma YoungestIs(n: nat, pre: seq<Level>, ledger: nat, protocol: nat, batch: Bucket)
    requires |pre| == n > 0
    ensures NewLevel(n, pre, ledger, protocol, batch, 0) ==
            (var l := if LevelShouldSpill(n, ledger, 0) then Snapped(pre[0]) else pre[0];
             Committed(l.(next := ListModel.Prepare(n, 0, ledger, protocol, l.curr, batch, []))))
  {
  }

  /** Popping the last two shadows leaves the buckets of one level fewer. */
  lemma PopShadows(pre: seq<Level>, shadows: seq<File>, m: nat)
    requires 0 < m <= |pre| && |shadows| == 2 * m
    requires GoodFiles(shadows) && ContentsAll(shadows) == BucketsBelow(pre, m)
    ensures var popped := shadows[..2 * m - 2];
            GoodFiles(popped) && ContentsAll(popped) == BucketsBelow(pre, m - 1)
  {
    var popped := shadows[..2 * m - 2];
    assert ContentsAll(popped) == ContentsAll(shadows)[..2 * m - 2];
    assert BucketsBelow(pre, m - 1) == BucketsBelow(pre, m)[..2 * m - 2];
  }

  lemma {:induction false} OldestFailureDecides(n: nat, pre: seq<Level>, ledger: nat, protocol: nat, batch: Bucket, i: nat, j: nat, e: MergeError)
    requires |pre| == n && i <= j < n && NewLevel(n, pre, ledger, protocol, batch, j) == Failure(e)
    requires forall m: nat | j < m < n :: NewLevel(n, pre, ledger, protocol, batch, m).Success?
    ensures NewLevels(n, pre, ledger, protocol, batch, i) == Failure(e)
    decreases j - i
  {
    hide NewLevel;
    if i < j { OldestFailureDecides(n, pre, ledger, protocol, batch, i + 1, j, e); }
  }

  lemma AllLevelsDone(n: nat, pre: seq<Level>, ledger: nat, protocol: nat, batch: Bucket, after: seq<Level>)
    requires |pre| == n == |after|
    requires forall j: nat | j < n :: NewLevel(n, pre, ledger, protocol, batch, j) == Success(after[j])
    ensures ListModel.AddBatch(n, pre, ledger, protocol, batch) == Success(after)
  {
    hide NewLevel;
    var r := NewLevels(n, pre, ledger, protocol, batch, 0);
    assert forall j: nat | j < n :: r.value[j - 0] == after[j];
    assert r.value == after;
  }
}
