/**
  The other thing a harmful merge can do: a key created and deleted before
  protocol 11 and created again at 12 ends in a merge that throws for a
  malformed lifecycle.

  Only this key is ever touched, so each bucket is a cell of one state, and the
  first four levels say everything up to ledger 96.
 */
module ThrowingRun {
  import opened Wrappers
  import opened LedgerCmp
  import opened Buckets
  import opened Schedule
  import opened ListModel
  import opened Runs
  import opened Versions
  import opened Refinement
  import BucketListRun

  // ----- buckets of one key -----

  datatype Tag = Absent | IsInit | IsLive | IsDead

  datatype Cell = Cell(version: nat, tag: Tag)

  function BucketOf(c: Cell, k: LedgerKey, x: Body): Bucket {
    Bucket(MetaFor(c.version),
           match c.tag
           case Absent => map[]
           case IsInit => map[k := INIT(x)]
           case IsLive => map[k := LIVE(x)]
           case IsDead => map[k := DEAD])
  }

  function BucketsOf(cs: seq<Cell>, k: LedgerKey, x: Body): seq<Bucket> {
    seq(|cs|, i requires 0 <= i < |cs| => BucketOf(cs[i], k, x))
  }

  /** What matters of a merge's shadows: whether there are any, whether one has the key, their version below 12. */
  datatype Shade = NoShade | Shade(present: bool, version: nat)

  function ShadeOf(cs: seq<Cell>): Shade {
    if cs == [] then NoShade
    else
      var rest, c := ShadeOf(cs[..|cs| - 1]), cs[|cs| - 1];
      Under(rest, c)
  }

  function Under(s: Shade, c: Cell): Shade {
    var v := if c.version < TWELVE then c.version else 0;
    match s
    case NoShade => Shade(c.tag != Absent, v)
    case Shade(p, w) => Shade(p || c.tag != Absent, Max(v, w))
  }

  function CombineTags(o: Tag, n: Tag): Tag {
    if n == Absent then o
    else if o == Absent then n
    else if n == IsInit then IsLive
    else if o == IsInit then if n == IsLive then IsInit else Absent
    else n
  }

  /** Merge on cells, keeping dead entries. */
  function MergeCells(o: Cell, n: Cell, s: Shade, maxVersion: nat): Result<Cell, MergeError> {
    var w := Max(o.version, n.version);
    var v := if s.Shade? then Max(s.version, w) else w;
    if v > maxVersion then Failure(VersionExceedsMax)
    else if v >= TWELVE && s.Shade? then Failure(ShadowsUnsupported)
    else if v < ELEVEN && (o.tag == IsInit || n.tag == IsInit) then Failure(IllegalEntry)
    else if n.tag == IsInit && o.tag != Absent && o.tag != IsDead then Failure(MalformedLifecycle)
    else
      var c := CombineTags(o.tag, n.tag);
      var kept := !(s.Shade? && s.present && (v < ELEVEN || c == IsLive));
      Success(Cell(if v < ELEVEN then 0 else v, if kept then c else Absent))
  }

  /** Versions a bucket's META can show. */
  predicate Shown(c: Cell) {
    c.version == 0 || c.version >= ELEVEN
  }

  lemma {:induction false} ShadeIs(o: Cell, n: Cell, cs: seq<Cell>, k: LedgerKey, x: Body)
    requires Shown(o) && Shown(n) && forall i | 0 <= i < |cs| :: Shown(cs[i])
    ensures var w := Max(o.version, n.version); var s := ShadeOf(cs);
      && (s.NoShade? <==> cs == [])
      && MergeVersion(BucketOf(o, k, x), BucketOf(n, k, x), BucketsOf(cs, k, x)) == (if s.Shade? then Max(s.version, w) else w)
      && (InAny(BucketsOf(cs, k, x), k) <==> s.Shade? && s.present)
  {
    hide BucketOf, InAny;
    if cs == [] {
      CellVersion(o, k, x);
      CellVersion(n, k, x);
      NoneInNoShadows([], k);
    } else {
      var m := |cs| - 1;
      ShadeIs(o, n, cs[..m], k, x);
      var all := BucketsOf(cs, k, x);
      assert all[..m] == BucketsOf(cs[..m], k, x);
      CellVersion(cs[m], k, x);
      AnyLast(all, k);
    }
  }

  lemma CellVersion(c: Cell, k: LedgerKey, x: Body)
    requires Shown(c)
    ensures Version(BucketOf(c, k, x)) == c.version && (k in BucketOf(c, k, x).entries <==> c.tag != Absent)
  {
  }

  lemma AnyLast(shadows: seq<Bucket>, k: LedgerKey)
    requires shadows != []
    ensures InAny(shadows, k) <==> InAny(shadows[..|shadows| - 1], k) || k in shadows[|shadows| - 1].entries
  {
  }

  /** The cells do what the buckets do. */
  lemma MergeIs(o: Cell, n: Cell, cs: seq<Cell>, maxVersion: nat, k: LedgerKey, x: Body)
    requires Shown(o) && Shown(n) && forall i | 0 <= i < |cs| :: Shown(cs[i])
    ensures Merge(BucketOf(o, k, x), BucketOf(n, k, x), BucketsOf(cs, k, x), true, maxVersion) ==
            Lift(MergeCells(o, n, ShadeOf(cs), maxVersion), k, x)
    ensures var r := MergeCells(o, n, ShadeOf(cs), maxVersion); r.Success? ==> Shown(r.value)
  {
    hide MergeVersion, InAny, Merged, ShadeOf, BucketOf, HasInit, AllMergeable, CombineTags;
    ShadeIs(o, n, cs, k, x);
    InitTag(o, k, x);
    InitTag(n, k, x);
    TagsMerge(o, n, k, x);
    var shadows, s := BucketsOf(cs, k, x), ShadeOf(cs);
    if MergeCells(o, n, s, maxVersion).Success? {
      MergedIs(o, n, shadows, s.Shade? && s.present, MergeVersion(BucketOf(o, k, x), BucketOf(n, k, x), shadows), k, x);
    }
  }

  lemma TagsMerge(o: Cell, n: Cell, k: LedgerKey, x: Body)
    ensures AllMergeable(BucketOf(o, k, x), BucketOf(n, k, x)) <==> (n.tag == IsInit ==> o.tag == Absent || o.tag == IsDead)
  {
    var b1, b2 := BucketOf(o, k, x), BucketOf(n, k, x);
    assert AllMergeable(b1, b2) <==> Mergeable(At(b1, k), At(b2, k));
  }

  lemma MergedIs(o: Cell, n: Cell, shadows: seq<Bucket>, present: bool, v: nat, k: LedgerKey, x: Body)
    requires v == MergeVersion(BucketOf(o, k, x), BucketOf(n, k, x), shadows) && (present <==> InAny(shadows, k))
    ensures var c := CombineTags(o.tag, n.tag);
      Merged(BucketOf(o, k, x), BucketOf(n, k, x), shadows, true) ==
      BucketOf(Cell(if v < ELEVEN then 0 else v, if present && (v < ELEVEN || c == IsLive) then Absent else c), k, x)
  {
    hide MergeVersion, InAny, Merged, BucketOf, CombineTags, StateOf, Combine;
    var b1, b2, c := BucketOf(o, k, x), BucketOf(n, k, x), CombineTags(o.tag, n.tag);
    var m := Merged(b1, b2, shadows, true);
    var rc := Cell(if v < ELEVEN then 0 else v, if present && (v < ELEVEN || c == IsLive) then Absent else c);
    var r := BucketOf(rc, k, x);
    StatesCombine(o.tag, n.tag, x);
    forall j ensures At(m, j) == At(r, j) {
      MergedAtKey(b1, b2, shadows, true, j);
      StateAt(o, j, k, x);
      StateAt(n, j, k, x);
      StateAt(rc, j, k, x);
    }
    assert m.meta == r.meta by { MetaOfMerged(b1, b2, shadows, rc, k, x); }
    BucketExtensional(m, r);
  }

  lemma MetaOfMerged(b1: Bucket, b2: Bucket, shadows: seq<Bucket>, c: Cell, k: LedgerKey, x: Body)
    requires c.version == (if MergeVersion(b1, b2, shadows) < ELEVEN then 0 else MergeVersion(b1, b2, shadows))
    ensures Merged(b1, b2, shadows, true).meta == BucketOf(c, k, x).meta
  {
  }

  function StateOf(tag: Tag, x: Body): Option<State> {
    match tag
    case Absent => None
    case IsInit => Some(INIT(x))
    case IsLive => Some(LIVE(x))
    case IsDead => Some(DEAD)
  }

  lemma StateAt(c: Cell, j: LedgerKey, k: LedgerKey, x: Body)
    ensures At(BucketOf(c, k, x), j) == if j == k then StateOf(c.tag, x) else None
  {
  }

  lemma StatesCombine(o: Tag, n: Tag, x: Body)
    ensures Combine(StateOf(o, x), StateOf(n, x)) == StateOf(CombineTags(o, n), x) && Combine(None, None) == None
    ensures var s := StateOf(CombineTags(o, n), x);
      (s.None? <==> CombineTags(o, n) == Absent) && (s.Some? && s.value.LIVE? <==> CombineTags(o, n) == IsLive)
    ensures StateOf(Absent, x) == None
  {
  }

  lemma InitTag(c: Cell, k: LedgerKey, x: Body)
    ensures HasInit(BucketOf(c, k, x)) <==> c.tag == IsInit
  {
    if c.tag == IsInit { assert k in BucketOf(c, k, x).entries; }
  }

  function Lift(r: Result<Cell, MergeError>, k: LedgerKey, x: Body): Result<Bucket, MergeError> {
    match r
    case Success(c) => Success(BucketOf(c, k, x))
    case Failure(e) => Failure(e)
  }

  // ----- the run -----

  /** Create at ledger 1, delete at 32, create again at 36, where protocol 12 begins. */
  function ThrowBatch(i: nat, k: LedgerKey, x: Body): Batch {
    Batch(if i < 35 then 10 else 12, if i == 0 || i == 35 then map[k := x] else map[], map[], if i == 31 then {k} else {})
  }

  function ThrowRun(k: LedgerKey, x: Body): (bs: seq<Batch>)
    ensures |bs| == 96
  {
    seq(96, i requires 0 <= i < 96 => ThrowBatch(i, k, x))
  }

  lemma {:induction false} LedgerIs(k: LedgerKey, x: Body, t: nat)
    requires t <= 96
    ensures LedgerAfter(ThrowRun(k, x), t) == if 1 <= t < 32 || 36 <= t then map[k := x] else map[]
  {
    hide ThrowBatch;
    if t > 0 {
      LedgerIs(k, x, t - 1);
      BatchApplied(t - 1, k, x);
      assert ThrowRun(k, x)[t - 1] == ThrowBatch(t - 1, k, x);
    }
  }

  lemma BatchApplied(i: nat, k: LedgerKey, x: Body)
    ensures Apply(map[], ThrowBatch(i, k, x)) == if i == 0 || i == 35 then map[k := x] else map[]
    ensures Apply(map[k := x], ThrowBatch(i, k, x)) == if i == 31 then map[] else map[k := x]
  {
  }

  // ----- what each bucket of the run holds -----

  /**
    The state a bucket of level i has for batches lo + 1 to hi: the deletion at 32
    is lost on the way into level 2.
   */
  function TagAt(i: nat, lo: nat, hi: nat): Tag {
    var created, deleted, again := lo < 1 <= hi, i < 2 && lo < 32 <= hi, lo < 36 <= hi;
    if again then if created || deleted then IsLive else IsInit
    else if deleted then IsDead
    else if created then IsLive
    else Absent
  }

  function CellAt(i: nat, lo: nat, hi: nat): Cell {
    Cell(if lo < hi && 36 <= hi then 12 else 0, TagAt(i, lo, hi))
  }

  /** What a pending merge of level i gives: creation on top of creation at level 3 does not merge. */
  function Outcome(i: nat, lo: nat, hi: nat, k: LedgerKey, x: Body): Result<Bucket, MergeError> {
    if i == 3 && lo < 1 && 36 <= hi then Failure(MalformedLifecycle) else Success(BucketOf(CellAt(i, lo, hi), k, x))
  }

  predicate LevelIs(n: nat, l: Level, i: nat, t: nat, k: LedgerKey, x: Body) {
    && l.curr == BucketOf(CellAt(i, SnapTop(n, i, t), CurrTop(n, i, t)), k, x)
    && l.snap == BucketOf(CellAt(i, CurrTop(n, i + 1, t), SnapTop(n, i, t)), k, x)
  }

  predicate NextIs(n: nat, l: Level, i: nat, t: nat, k: LedgerKey, x: Body)
    requires 0 < i
  {
    if t < LevelHalf(i - 1) then l.next.Clear?
    else l.next.Pending? && Resolve(l.next) == Outcome(i, PendingBottom(n, i, t), SnapTop(n, i - 1, t), k, x)
  }

  predicate ListIs(n: nat, levels: seq<Level>, t: nat, k: LedgerKey, x: Body) {
    |levels| == n && forall i | 0 <= i < n :: LevelIs(n, levels[i], i, t, k, x) && (0 < i ==> NextIs(n, levels[i], i, t, k, x))
  }

  // ----- the schedule in numbers -----

  /** Half the sizes of the first four levels, and their skews. */
  function HalfOf(i: nat): (h: nat)
    requires i < 4
    ensures h > 0
  {
    if i == 0 then 2 else if i == 1 then 8 else if i == 2 then 32 else 128
  }

  function SkewOf(i: nat): nat
    requires i < 4
  {
    if i == 0 then 1 else if i == 1 then 5 else if i == 2 then 21 else 85
  }

  /** t rounded down to a multiple of level i's half size. */
  function Rounded(t: nat, i: nat): nat
    requires i < 4
  {
    if i == 0 then t - t % 2 else if i == 1 then t - t % 8 else if i == 2 then t - t % 32 else t - t % 128
  }

  lemma RoundedIs(t: nat, i: nat)
    requires i < 4
    ensures Mask(t, HalfOf(i)) == Rounded(t, i)
  {
    if i == 0 { MaskIsRemainder(t, 2); }
    if i == 1 { MaskIsRemainder(t, 8); }
    if i == 2 { MaskIsRemainder(t, 32); }
    if i == 3 { MaskIsRemainder(t, 128); }
  }

  lemma HalvesAre(i: nat)
    requires i < 4
    ensures LevelHalf(i) == HalfOf(i) && Skew(i) == SkewOf(i)
  {
    HalfFacts(0);
    HalfFacts(1);
    HalfFacts(2);
    HalfFacts(3);
  }

  lemma TopIs(n: nat, t: nat, i: nat)
    requires n >= 5 && i < 4
    ensures SnapTop(n, i, t) == Monus(Rounded(t, i), SkewOf(i))
    ensures CurrTop(n, i + 1, t) == Monus(Rounded(t, i), HalfOf(i) + SkewOf(i))
  {
    hide LevelHalf, Skew, Mask;
    HalvesAre(i);
    RoundedIs(t, i);
  }

  lemma TopsAre(n: nat, t: nat)
    requires n >= 5
    ensures SnapTop(n, 0, t) == Monus(t - t % 2, 1) && CurrTop(n, 1, t) == Monus(t - t % 2, 3)
    ensures SnapTop(n, 1, t) == Monus(t - t % 8, 5) && CurrTop(n, 2, t) == Monus(t - t % 8, 13)
    ensures SnapTop(n, 2, t) == Monus(t - t % 32, 21) && CurrTop(n, 3, t) == Monus(t - t % 32, 53)
    ensures SnapTop(n, 3, t) == Monus(t - t % 128, 85) && CurrTop(n, 0, t) == t
  {
    hide SnapTop;
    TopIs(n, t, 0);
    TopIs(n, t, 1);
    TopIs(n, t, 2);
    TopIs(n, t, 3);
  }

  lemma SpillsIs(n: nat, t: nat, i: nat)
    requires n >= 5 && i < 4
    ensures LevelShouldSpill(n, t, i) <==> Rounded(t, i) == t
  {
    hide LevelHalf, Mask, Rounded;
    SpillIff(n, t, i);
    HalvesAre(i);
    RoundedIs(t, i);
  }

  lemma EmptyCurrIs(n: nat, t: nat, i: nat)
    requires 0 < i < 4 && n >= 5
    ensures ShouldMergeWithEmptyCurr(n, t, i) <==>
            Rounded(Rounded(t, i - 1) + HalfOf(i - 1), i) == Rounded(t, i - 1) + HalfOf(i - 1)
  {
    hide LevelHalf, LevelShouldSpill, Mask, Rounded;
    HalvesAre(i - 1);
    RoundedIs(t, i - 1);
    SpillsIs(n, Rounded(t, i - 1) + HalfOf(i - 1), i);
  }

  /** Levels from 4 on hold nothing yet and take no part. */
  lemma {:induction false} QuietAbove(n: nat, t: nat, i: nat)
    requires 3 <= i && t < 128
    ensures LevelHalf(i) >= 128 && (0 < t ==> !LevelShouldSpill(n, t, i))
  {
    hide LevelHalf;
    SpillIff(n, t, i);
    if i == 3 {
      HalvesAre(3);
    } else {
      QuietAbove(n, t, i - 1);
      HalfFacts(i);
    }
  }

  // ----- merges of the run -----

  function ProtocolAt(t: nat): nat {
    if t < 36 then 10 else 12
  }

  /** On levels 0 and 1 merging joins ranges. */
  lemma JoinYoung(i: nat, j: nat, lo: nat, mid: nat, hi: nat, t: nat)
    requires i < 2 && j < 2 && lo <= mid < hi <= t
    ensures MergeCells(CellAt(i, lo, mid), CellAt(j, mid, hi), NoShade, ProtocolAt(t)) == Success(CellAt(i, lo, hi))
  {
  }

  lemma Numbers(n: nat, t: nat)
    requires n >= 5
    ensures PendingBottom(n, 2, t) == if (t - t % 8 + 8) % 32 == 0 then CurrTop(n, 2, t) else SnapTop(n, 2, t)
    ensures PendingBottom(n, 3, t) == if (t - t % 32 + 32) % 128 == 0 then CurrTop(n, 3, t) else SnapTop(n, 3, t)
  {
    hide ShouldMergeWithEmptyCurr, CurrTop, SnapTop;
    EmptyCurrIs(n, t, 2);
    EmptyCurrIs(n, t, 3);
  }

  /** The merge into level 2: only at ledger 40 is something shadowed, and that is the deletion. */
  lemma JoinTwo(n: nat, t: nat)
    requires n >= 5 && 0 < t < 96 && t % 8 == 0
    ensures var lo, mid, hi := PendingBottom(n, 2, t), CurrTop(n, 2, t), SnapTop(n, 1, t);
      var s := if CellAt(1, mid, hi).version >= TWELVE then NoShade else Shade(t == 40, 0);
      MergeCells(CellAt(2, lo, mid), CellAt(1, mid, hi), s, ProtocolAt(t)) == Success(CellAt(2, lo, hi))
  {
    hide PendingBottom, CurrTop, SnapTop;
    TopsAre(n, t);
    Numbers(n, t);
  }

  /** The merge into level 3: at ledger 64 creation meets creation. */
  lemma JoinThree(n: nat, t: nat, k: LedgerKey, x: Body)
    requires n >= 5 && 0 < t < 96 && t % 32 == 0
    ensures var lo, mid, hi := PendingBottom(n, 3, t), CurrTop(n, 3, t), SnapTop(n, 2, t);
      var s := if CellAt(2, mid, hi).version >= TWELVE then NoShade else Shade(false, 0);
      Lift(MergeCells(CellAt(3, lo, mid), CellAt(2, mid, hi), s, ProtocolAt(t)), k, x) == Outcome(3, lo, hi, k, x)
  {
    hide PendingBottom, CurrTop, SnapTop, BucketOf;
    TopsAre(n, t);
    Numbers(n, t);
    assert t == 32 || t == 64;
  }

  /** The cells of the levels below i, youngest first. */
  function Below(n: nat, i: nat, s: nat): (cs: seq<Cell>)
    ensures |cs| == 2 * i
  {
    seq(2 * i, j requires 0 <= j < 2 * i => CellAt(j / 2, Top(n, j + 1, s), Top(n, j, s)))
  }

  lemma {:induction false} ShadeSum(cs: seq<Cell>)
    requires cs != [] && forall j | 0 <= j < |cs| :: cs[j].version == 0 || cs[j].version >= TWELVE
    ensures ShadeOf(cs) == Shade(exists j | 0 <= j < |cs| :: cs[j].tag != Absent, 0)
  {
    var m := |cs| - 1;
    if m > 0 {
      ShadeSum(cs[..m]);
      assert forall j | 0 <= j < m :: cs[..m][j] == cs[j];
    } else {
      assert cs[..0] == [];
    }
  }

  lemma ShadeTwo(n: nat, t: nat)
    requires n >= 5 && 0 < t <= 40 && t % 8 == 0
    ensures ShadeOf(Below(n, 1, t - 1)) == Shade(t == 40, 0)
  {
    hide TagAt, ShadeOf, Below;
    YoungBelow(n, t);
    YoungTags(t);
    var cs := Below(n, 1, t - 1);
    assert cs[0].tag == Absent && (cs[1].tag == Absent <==> t != 40);
    ShadeSum(cs);
  }

  lemma YoungBelow(n: nat, t: nat)
    requires n >= 5 && 0 < t && t % 8 == 0
    ensures Below(n, 1, t - 1) == [CellAt(0, Monus(t - 2, 1), t - 1), CellAt(0, Monus(t - 2, 3), Monus(t - 2, 1))]
  {
    hide CurrTop, SnapTop, CellAt;
    TopsAre(n, t - 1);
  }

  /** Level 0 holds one of the three batches at the ledgers level 1 spills only at 40. */
  lemma YoungTags(t: nat)
    requires 0 < t <= 40 && t % 8 == 0
    ensures TagAt(0, Monus(t - 2, 1), t - 1) == Absent
    ensures TagAt(0, Monus(t - 2, 3), Monus(t - 2, 1)) == if t == 40 then IsInit else Absent
  {
    assert t == 8 || t == 16 || t == 24 || t == 32 || t == 40;
  }

  lemma ShadeThree(n: nat, s: nat)
    requires n >= 5 && s == 31
    ensures ShadeOf(Below(n, 2, s)) == Shade(false, 0)
  {
    hide ShadeOf, Below;
    OlderBelow(n, s);
    ShadeSum(Below(n, 2, s));
  }

  lemma OlderBelow(n: nat, s: nat)
    requires n >= 5 && s == 31
    ensures Below(n, 2, s) == [CellAt(0, 29, 31), CellAt(0, 27, 29), CellAt(1, 19, 27), CellAt(1, 11, 19)]
  {
    hide CurrTop, SnapTop, CellAt;
    TopsAre(n, s);
    TopAt(n, 0, s);
    TopAt(n, 1, s);
  }

  lemma TopAt(n: nat, i: nat, s: nat)
    ensures Top(n, 2 * i, s) == CurrTop(n, i, s) && Top(n, 2 * i + 1, s) == SnapTop(n, i, s)
    ensures Top(n, 2 * i + 2, s) == CurrTop(n, i + 1, s)
  {
    assert (2 * i) / 2 == i && (2 * i + 1) / 2 == i && (2 * i + 2) / 2 == i + 1;
  }

  lemma BelowAt(n: nat, levels: seq<Level>, i: nat, s: nat, j: nat, k: LedgerKey, x: Body)
    requires j < 2 * i && i <= n && ListIs(n, levels, s, k, x)
    ensures BucketsBelow(levels, i)[j] == BucketOf(CellAt(j / 2, Top(n, j + 1, s), Top(n, j, s)), k, x)
  {
    hide CurrTop, SnapTop, NextIs, BucketOf, CellAt;
    var m := j / 2;
    assert LevelIs(n, levels[m], m, s, k, x);
    assert j == 2 * m || j == 2 * m + 1;
    assert (2 * m + 1) / 2 == m && (2 * m + 2) / 2 == m + 1;
  }

  lemma BelowIs(n: nat, levels: seq<Level>, i: nat, s: nat, k: LedgerKey, x: Body)
    requires i <= n && ListIs(n, levels, s, k, x)
    ensures BucketsBelow(levels, i) == BucketsOf(Below(n, i, s), k, x)
    ensures forall j | 0 <= j < 2 * i :: Shown(Below(n, i, s)[j])
  {
    hide Top, ListIs, BucketOf, BucketsBelow;
    assert |levels| == n by { ListSize(n, levels, s, k, x); }
    forall j | 0 <= j < 2 * i ensures BucketsBelow(levels, i)[j] == BucketsOf(Below(n, i, s), k, x)[j] {
      BelowAt(n, levels, i, s, j, k, x);
    }
  }

  lemma ListSize(n: nat, levels: seq<Level>, s: nat, k: LedgerKey, x: Body)
    requires ListIs(n, levels, s, k, x)
    ensures |levels| == n
  {
  }

  // ----- one ledger of the run -----

  lemma EmptyCell(i: nat, at: nat, k: LedgerKey, x: Body)
    ensures BucketOf(CellAt(i, at, at), k, x) == EmptyBucket
  {
  }

  lemma VersionOf(i: nat, lo: nat, hi: nat, k: LedgerKey, x: Body)
    ensures Version(BucketOf(CellAt(i, lo, hi), k, x)) == CellAt(i, lo, hi).version && Shown(CellAt(i, lo, hi))
  {
  }

  /** The merge started for level i gives what the next predicate says. */
  lemma PreparedIs(n: nat, levels: seq<Level>, i: nat, t: nat, k: LedgerKey, x: Body)
    requires n >= 5 && 0 < i < 4 && 0 < t < 96 && Rounded(t, i - 1) == t && ListIs(n, levels, t - 1, k, x)
    requires CurrTop(n, i, t) < SnapTop(n, i - 1, t) <= t && PendingBottom(n, i, t) <= CurrTop(n, i, t)
    ensures var lo, mid, hi := PendingBottom(n, i, t), CurrTop(n, i, t), SnapTop(n, i - 1, t);
      var snap := BucketOf(CellAt(i - 1, mid, hi), k, x);
      Merge(BucketOf(CellAt(i, lo, mid), k, x), snap, if Version(snap) >= TWELVE then [] else BucketsBelow(levels, i - 1), true,
            ProtocolAt(t)) == Outcome(i, lo, hi, k, x)
  {
    hide CurrTop, SnapTop, PendingBottom, Merge, MergeCells, BucketOf, ListIs, BucketsBelow, ShadeOf, Below, TagAt;
    var lo, mid, hi := PendingBottom(n, i, t), CurrTop(n, i, t), SnapTop(n, i - 1, t);
    var curr, snap := CellAt(i, lo, mid), CellAt(i - 1, mid, hi);
    VersionOf(i, lo, mid, k, x);
    VersionOf(i - 1, mid, hi, k, x);
    ListSize(n, levels, t - 1, k, x);
    BelowIs(n, levels, i - 1, t - 1, k, x);
    var cs := if snap.version >= TWELVE then [] else Below(n, i - 1, t - 1);
    NoneBelow(k, x);
    MergeIs(curr, snap, cs, ProtocolAt(t), k, x);
    if i == 1 {
      JoinYoung(1, 0, lo, mid, hi, t);
      assert Below(n, 0, t - 1) == [];
    } else if i == 2 {
      JoinTwo(n, t);
      EarlySpill(n, t, 2);
      if snap.version < TWELVE { ShadeTwo(n, t); }
    } else {
      JoinThree(n, t, k, x);
      EarlySpill(n, t, 3);
      if snap.version < TWELVE { ShadeThree(n, t - 1); }
    }
  }

  /** What levels 1 and 2 spill is from before protocol 12 up to ledgers 40 and 32. */
  lemma EarlySpill(n: nat, t: nat, i: nat)
    requires n >= 5 && 2 <= i < 4 && 0 < t < 96 && Rounded(t, i - 1) == t
    ensures CellAt(i - 1, CurrTop(n, i, t), SnapTop(n, i - 1, t)).version < TWELVE ==> if i == 2 then t <= 40 else t == 32
  {
    hide CurrTop, SnapTop, TagAt;
    TopsAre(n, t);
  }

  lemma NoneBelow(k: LedgerKey, x: Body)
    ensures BucketsOf([], k, x) == [] && ShadeOf([]) == NoShade
  {
  }

  /** An older level after one more ledger, before 96. */
  lemma OlderIs(n: nat, levels: seq<Level>, i: nat, s: nat, t: nat, k: LedgerKey, x: Body)
    requires n >= 5 && 0 < i < n && t == s + 1 < 96 && ListIs(n, levels, s, k, x)
    ensures var r := OlderLevel(n, levels, t, ProtocolAt(t), i);
      r.Success? && LevelIs(n, r.value, i, t, k, x) && NextIs(n, r.value, i, t, k, x)
  {
    hide CurrTop, SnapTop, LevelHalf, LevelShouldSpill, ShouldMergeWithEmptyCurr, BucketsBelow, Merge, BucketOf, CellAt, Outcome;
    assert LevelIs(n, levels[i], i, s, k, x) && NextIs(n, levels[i], i, s, k, x);
    assert LevelIs(n, levels[i - 1], i - 1, s, k, x);
    if i >= 4 { QuietAbove(n, t, i - 1); }
    if LevelShouldSpill(n, t, i - 1) {
      SpillsIs(n, t, i - 1);
      SpillTops(n, i, s, t);
      PendingOrder(n, i, t);
      CommitsBefore(n, i, s, t, k, x);
      EmptyCell(i, CurrTop(n, i, t), k, x);
      EmptyCell(i, SnapTop(n, i, t), k, x);
      PreparedIs(n, levels, i, t, k, x);
    } else {
      IdleTops(n, i, s, t);
    }
  }

  /** Every merge committed before ledger 96 succeeds. */
  lemma CommitsBefore(n: nat, i: nat, s: nat, t: nat, k: LedgerKey, x: Body)
    requires n >= 5 && 0 < i < 4 && t == s + 1 < 96 && Rounded(t, i - 1) == t
    ensures Outcome(i, PendingBottom(n, i, s), SnapTop(n, i - 1, s), k, x) ==
            Success(BucketOf(CellAt(i, PendingBottom(n, i, s), SnapTop(n, i - 1, s)), k, x))
  {
    hide CurrTop, SnapTop, PendingBottom;
    TopsAre(n, s);
  }

  lemma FreshIs(i: nat, k: LedgerKey, x: Body)
    ensures Fresh(ThrowBatch(i, k, x)) == BucketOf(CellAt(0, i, i + 1), k, x)
    ensures ThrowBatch(i, k, x).protocol == ProtocolAt(i + 1)
  {
  }

  lemma YoungestIs(n: nat, levels: seq<Level>, s: nat, t: nat, k: LedgerKey, x: Body)
    requires n >= 5 && t == s + 1 && ListIs(n, levels, s, k, x)
    ensures var r := YoungestLevel(n, levels, t, ProtocolAt(t), BucketOf(CellAt(0, s, t), k, x));
      r.Success? && LevelIs(n, r.value, 0, t, k, x)
  {
    hide SnapTop, LevelShouldSpill, Merge, BucketOf, CellAt, MergeCells, NextIs;
    assert LevelIs(n, levels[0], 0, s, k, x);
    TopsStep(n, 0, t);
    TopsDescend(n, 0, t);
    TopsDescend(n, 0, s);
    EmptyCell(0, s, k, x);
    var lo := SnapTop(n, 0, t);
    VersionOf(0, lo, s, k, x);
    VersionOf(0, s, t, k, x);
    NoneBelow(k, x);
    MergeIs(CellAt(0, lo, s), CellAt(0, s, t), [], ProtocolAt(t), k, x);
    JoinYoung(0, 0, lo, s, t, t);
  }

  lemma {:induction false} RunIs(n: nat, t: nat, k: LedgerKey, x: Body)
    requires n >= 5 && t < 96
    ensures Run(n, ThrowRun(k, x), t).Success? && ListIs(n, Run(n, ThrowRun(k, x), t).value, t, k, x)
  {
    hide LevelIs, NextIs, NewLevel, BucketOf, Fresh, ThrowBatch;
    var bs := ThrowRun(k, x);
    if t == 0 {
      forall i | 0 <= i < n ensures LevelIs(n, EmptyLevel, i, 0, k, x) && (0 < i ==> NextIs(n, EmptyLevel, i, 0, k, x)) {
        EmptyIs(n, i, k, x);
      }
    } else {
      RunIs(n, t - 1, k, x);
      var levels := Run(n, bs, t - 1).value;
      var p, b := bs[t - 1].protocol, Fresh(bs[t - 1]);
      FreshIs(t - 1, k, x);
      forall i: nat | i < n
        ensures var r := NewLevel(n, levels, t, p, b, i);
          r.Success? && LevelIs(n, r.value, i, t, k, x) && (0 < i ==> NextIs(n, r.value, i, t, k, x))
      {
        NewIs(n, levels, i, t - 1, t, k, x);
      }
      var r := AddBatch(n, levels, t, p, b);
      forall i: nat | i < n
        ensures LevelIs(n, r.value[i], i, t, k, x) && (0 < i ==> NextIs(n, r.value[i], i, t, k, x)) {
        assert r.value[i - 0] == NewLevel(n, levels, t, p, b, i).value;
      }
    }
  }

  lemma EmptyIs(n: nat, i: nat, k: LedgerKey, x: Body)
    ensures LevelIs(n, EmptyLevel, i, 0, k, x) && (0 < i ==> NextIs(n, EmptyLevel, i, 0, k, x))
  {
    TopsAtZero(n, i);
    TopsAtZero(n, i + 1);
  }

  lemma NewIs(n: nat, levels: seq<Level>, i: nat, s: nat, t: nat, k: LedgerKey, x: Body)
    requires n >= 5 && i < n && t == s + 1 < 96 && ListIs(n, levels, s, k, x)
    ensures var r := NewLevel(n, levels, t, ProtocolAt(t), BucketOf(CellAt(0, s, t), k, x), i);
      r.Success? && LevelIs(n, r.value, i, t, k, x) && (0 < i ==> NextIs(n, r.value, i, t, k, x))
  {
    hide LevelIs, NextIs, BucketOf, OlderLevel, YoungestLevel;
    if i == 0 { YoungestIs(n, levels, s, t, k, x); } else { OlderIs(n, levels, i, s, t, k, x); }
  }

  // ----- it fails -----

  /** At ledger 96 the merge of level 3 is committed, and throws. */
  lemma FailsAtNinetySix(n: nat, k: LedgerKey, x: Body)
    requires n >= 5
    ensures Run(n, ThrowRun(k, x), 96) == Failure(MalformedLifecycle)
  {
    hide CurrTop, SnapTop, LevelShouldSpill, LevelHalf, PendingBottom, BucketOf, ListIs, Merge, YoungestLevel, Fresh;
    var bs := ThrowRun(k, x);
    RunIs(n, 95, k, x);
    var levels := Run(n, bs, 95).value;
    var p, b := bs[95].protocol, Fresh(bs[95]);
    OldestThrows(n, levels, 95, 96, p, k, x);
    forall i: nat | 3 < i < n ensures NewLevel(n, levels, 96, p, b, i).Success? {
      QuietAbove(n, 96, i - 1);
    }
    BucketListRun.OldestFailureDecides(n, levels, 96, p, b, 0, 3, MalformedLifecycle);
  }

  lemma OldestThrows(n: nat, levels: seq<Level>, s: nat, t: nat, protocol: nat, k: LedgerKey, x: Body)
    requires n >= 5 && t == s + 1 == 96 && ListIs(n, levels, s, k, x)
    ensures |levels| == n && OlderLevel(n, levels, t, protocol, 3) == Failure(MalformedLifecycle)
  {
    hide CurrTop, SnapTop, LevelShouldSpill, LevelHalf, PendingBottom, BucketOf, LevelIs, Merge;
    TopsAre(n, s);
    Numbers(n, s);
    HalvesAre(2);
    SpillsIs(n, t, 2);
    SpillsIs(n, t, 3);
    assert NextIs(n, levels[3], 3, s, k, x);
  }

  /** From five levels up this well-formed run of rising versions, which commits a harmful merge, ends in a throw. */
  lemma HarmCanThrow(n: nat, k: LedgerKey, x: Body)
    requires n >= 5
    ensures Upgrading(ThrowRun(k, x)) && WellFormed(ThrowRun(k, x)) && !Harmless(n, Protocols(ThrowRun(k, x)), 96)
    ensures Run(n, ThrowRun(k, x), 96) == Failure(MalformedLifecycle)
  {
    hide Harmless, Run;
    var bs := ThrowRun(k, x);
    forall t: nat | t < |bs| ensures WellFormedAt(bs, t) { LedgerIs(k, x, t); }
    FailsAtNinetySix(n, k, x);
    if Harmless(n, Protocols(bs), 96) { RunInvariant(Shadows, n, bs, 96); }
  }
}
