/**
  The bucket list as a value and addBatch as a function on it (src/bucket/BucketList.cpp).

  Each level's new state is given directly from the levels before the call; the
  in-place loop that counts down the levels is in BucketList.dfy.
 */
module ListModel {
  import opened Wrappers
  import opened LedgerCmp
  import opened Buckets
  import opened Schedule

  /** A FutureBucket: no merge, or the inputs of one whose result is a pure function of them. */
  datatype Future = Clear | Pending(curr: Bucket, snap: Bucket, shadows: seq<Bucket>, keepDead: bool, maxVersion: nat)

  datatype Level = Level(curr: Bucket, snap: Bucket, next: Future)

  const EmptyLevel := Level(EmptyBucket, EmptyBucket, Clear)

  function Resolve(f: Future): Result<Bucket, MergeError>
    requires f.Pending?
  {
    Merge(f.curr, f.snap, f.shadows, f.keepDead, f.maxVersion)
  }

  /** BucketLevel::prepare. */
  function Prepare(n: nat, i: nat, ledger: nat, protocol: nat, curr: Bucket, snap: Bucket, shadows: seq<Bucket>): Future {
    Pending(if ShouldMergeWithEmptyCurr(n, ledger, i) then EmptyBucket else curr,
            snap,
            if Version(snap) >= FIRST_PROTOCOL_SHADOWS_REMOVED then [] else shadows,
            KeepDeadEntries(n, i),
            protocol)
  }

  /** curr and snap of the levels below m, youngest first. */
  function BucketsBelow(levels: seq<Level>, m: nat): (r: seq<Bucket>)
    requires m <= |levels|
    ensures |r| == 2 * m
    ensures forall j | 0 <= j < m :: r[2 * j] == levels[j].curr && r[2 * j + 1] == levels[j].snap
  {
    if m == 0 then [] else BucketsBelow(levels, m - 1) + [levels[m - 1].curr, levels[m - 1].snap]
  }

  /** BucketLevel::snap. */
  function Snapped(l: Level): Level {
    Level(EmptyBucket, l.curr, l.next)
  }

  /** BucketLevel::commit. */
  function Committed(l: Level): Result<Level, MergeError> {
    if l.next.Clear? then Success(l)
    else
      match Resolve(l.next)
      case Success(b) => Success(Level(b, l.snap, Clear))
      case Failure(e) => Failure(e)
  }

  /** What addBatch makes of level i >= 1, from the levels as they were before the call. */
  function OlderLevel(n: nat, levels: seq<Level>, ledger: nat, protocol: nat, i: nat): Result<Level, MergeError>
    requires |levels| == n && 0 < i < n
  {
    var l := if LevelShouldSpill(n, ledger, i) then Snapped(levels[i]) else levels[i];
    if LevelShouldSpill(n, ledger, i - 1) then
      match Committed(l)
      case Failure(e) => Failure(e)
      case Success(c) =>
        Success(c.(next := Prepare(n, i, ledger, protocol, c.curr, levels[i - 1].curr, BucketsBelow(levels, i - 1))))
    else Success(l)
  }

  /** What addBatch makes of level 0: snap if due, then merge the fresh bucket in at once. */
  function YoungestLevel(n: nat, levels: seq<Level>, ledger: nat, protocol: nat, batch: Bucket)
    : Result<Level, MergeError>
    requires |levels| == n > 0
  {
    var l := if LevelShouldSpill(n, ledger, 0) then Snapped(levels[0]) else levels[0];
    Committed(l.(next := Prepare(n, 0, ledger, protocol, l.curr, batch, [])))
  }

  function NewLevel(n: nat, levels: seq<Level>, ledger: nat, protocol: nat, batch: Bucket, i: nat)
    : Result<Level, MergeError>
    requires |levels| == n && i < n
  {
    if i == 0 then YoungestLevel(n, levels, ledger, protocol, batch)
    else OlderLevel(n, levels, ledger, protocol, i)
  }

  /** Levels i and older; the oldest failing level decides the error. */
  function NewLevels(n: nat, levels: seq<Level>, ledger: nat, protocol: nat, batch: Bucket, i: nat)
    : (r: Result<seq<Level>, MergeError>)
    requires |levels| == n && i <= n
    ensures r.Success? <==> forall j | i <= j < n :: NewLevel(n, levels, ledger, protocol, batch, j).Success?
    ensures r.Success? ==>
              |r.value| == n - i &&
              forall j | i <= j < n :: r.value[j - i] == NewLevel(n, levels, ledger, protocol, batch, j).value
    ensures r.Failure? ==>
              exists j | i <= j < n ::
                NewLevel(n, levels, ledger, protocol, batch, j) == Failure(r.error)
                && forall m | j < m < n :: NewLevel(n, levels, ledger, protocol, batch, m).Success?
    decreases n - i
  {
    if i == n then Success([])
    else
      match NewLevels(n, levels, ledger, protocol, batch, i + 1)
      case Failure(e) => Failure(e)
      case Success(rest) =>
        match NewLevel(n, levels, ledger, protocol, batch, i)
        case Failure(e) => Failure(e)
        case Success(l) => Success([l] + rest)
  }

  /** BucketList::addBatch. */
  function AddBatch(n: nat, levels: seq<Level>, ledger: nat, protocol: nat, batch: Bucket)
    : Result<seq<Level>, MergeError>
    requires |levels| == n
  {
    NewLevels(n, levels, ledger, protocol, batch, 0)
  }

  // ----- reading the list -----

  /** All buckets, newest first: curr(0), snap(0), curr(1), snap(1), ... */
  function Flat(levels: seq<Level>): (r: seq<Bucket>)
    ensures |r| == 2 * |levels|
    ensures forall j | 0 <= j < |levels| :: r[2 * j] == levels[j].curr && r[2 * j + 1] == levels[j].snap
  {
    BucketsBelow(levels, |levels|)
  }

  /** The newest state recorded for a key in the buckets from position j on. */
  function NewestFrom(flat: seq<Bucket>, j: nat, k: LedgerKey): Option<State>
    requires j <= |flat|
    decreases |flat| - j
  {
    if j == |flat| then None
    else if k in flat[j].entries then Some(flat[j].entries[k])
    else NewestFrom(flat, j + 1, k)
  }

  /** What a reader of the bucket list finds at a key. */
  function Lookup(levels: seq<Level>, k: LedgerKey): Option<Body> {
    Reader(NewestFrom(Flat(levels), 0, k))
  }
}
