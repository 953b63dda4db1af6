/**
  Which ledgers each bucket holds, by running addBatch's snap, commit and
  prepare steps on sets of ledger numbers, assuming every ledger is present
  (src/bucket/BucketList.cpp:514-573 and src/bucket/BucketList.h:162-196).
 */
module Spans {
  import opened Wrappers
  import opened Schedule
  import opened Sizes

  datatype Span = Span(curr: set<nat>, snap: set<nat>, next: Option<set<nat>>)

  /** What addBatch at `ledger` makes of level i: merging is union. */
  function SpanStep(n: nat, spans: seq<Span>, ledger: nat, i: nat): Span
    requires |spans| == n && i < n
  {
    var l := if LevelShouldSpill(n, ledger, i) then Span({}, spans[i].curr, spans[i].next) else spans[i];
    if i == 0 then l.(curr := l.curr + {ledger})
    else if LevelShouldSpill(n, ledger, i - 1) then
      var curr := if l.next.Some? then l.next.value else l.curr;
      Span(curr, l.snap, Some((if ShouldMergeWithEmptyCurr(n, ledger, i) then {} else curr) + spans[i - 1].curr))
    else l
  }

  /** The levels after ledgers 1 to t. */
  function SpansAfter(n: nat, t: nat): (r: seq<Span>)
    ensures |r| == n
  {
    if t == 0 then seq(n, _ => Span({}, {}, None))
    else
      var before := SpansAfter(n, t - 1);
      seq(n, i requires 0 <= i < n => SpanStep(n, before, t, i))
  }

  /** Ledgers lo + 1 to hi. */
  function Range(lo: nat, hi: nat): (r: set<nat>)
    ensures forall x :: x in r <==> lo < x <= hi
    ensures |r| == Monus(hi, lo)
    decreases hi
  {
    if hi <= lo then {} else Range(lo, hi - 1) + {hi}
  }

  /** The span the schedule's tops assign to level i. */
  function Expected(n: nat, i: nat, t: nat): Span {
    Span(Range(SnapTop(n, i, t), CurrTop(n, i, t)), Range(CurrTop(n, i + 1, t), SnapTop(n, i, t)),
         if i == 0 || t < LevelHalf(i - 1) then None else Some(Range(PendingBottom(n, i, t), SnapTop(n, i - 1, t))))
  }

  lemma {:induction false} StepExpected(n: nat, spans: seq<Span>, s: nat, t: nat, i: nat)
    requires 2 <= n && i < n && |spans| == n && t == s + 1
    requires forall j: nat | j < n :: spans[j] == Expected(n, j, s)
    ensures SpanStep(n, spans, t, i) == Expected(n, i, t)
  {
    hide CurrTop, SnapTop, PendingBottom, LevelHalf, LevelShouldSpill, ShouldMergeWithEmptyCurr, Range;
    if i == 0 {
      StepYoungest(n, spans, s, t);
    } else if LevelShouldSpill(n, t, i - 1) {
      StepSpill(n, spans, s, t, i);
    } else {
      IdleTops(n, i, s, t);
      PendingCases(n, i, s);
      PendingCases(n, i, t);
    }
  }

  lemma {:induction false} StepSpill(n: nat, spans: seq<Span>, s: nat, t: nat, i: nat)
    requires 0 < i < n && |spans| == n && t == s + 1 && LevelShouldSpill(n, t, i - 1)
    requires spans[i] == Expected(n, i, s) && spans[i - 1] == Expected(n, i - 1, s)
    ensures SpanStep(n, spans, t, i) == Expected(n, i, t)
  {
    hide CurrTop, SnapTop, PendingBottom, LevelHalf, LevelShouldSpill, ShouldMergeWithEmptyCurr, Range;
    SpillTops(n, i, s, t);
    TopsDescend(n, i, t);
    var lo, mid, hi := SnapTop(n, i, t), CurrTop(n, i, t), SnapTop(n, i - 1, t);
    PendingCases(n, i, t);
    RangeJoin(lo, mid, hi);
    RangeJoin(mid, mid, hi);
  }

  lemma {:induction false} StepYoungest(n: nat, spans: seq<Span>, s: nat, t: nat)
    requires 2 <= n && |spans| == n && t == s + 1 && spans[0] == Expected(n, 0, s)
    ensures SpanStep(n, spans, t, 0) == Expected(n, 0, t)
  {
    hide CurrTop, SnapTop, LevelShouldSpill, Range;
    TopsStep(n, 0, t);
    TopsDescend(n, 0, s);
    YoungestTop(n, s);
    YoungestTop(n, t);
    RangeJoin(SnapTop(n, 0, s), s, t);
    RangeJoin(s, s, t);
  }

  /** Adjacent ranges join; a range of one ledger is a singleton and an empty one the empty set. */
  lemma {:induction false} RangeJoin(lo: nat, mid: nat, hi: nat)
    requires lo <= mid <= hi
    ensures Range(lo, mid) + Range(mid, hi) == Range(lo, hi)
    ensures lo == mid ==> Range(lo, mid) == {}
    ensures hi == mid + 1 ==> Range(mid, hi) == {hi}
  {
    hide Range;
    if lo == mid { assert forall x :: x !in Range(lo, mid); }
  }

  lemma PendingCases(n: nat, i: nat, t: nat)
    ensures PendingBottom(n, i, t) == if ShouldMergeWithEmptyCurr(n, t, i) then CurrTop(n, i, t) else SnapTop(n, i, t)
  {
  }

  lemma NothingAtZero(n: nat, i: nat)
    ensures Expected(n, i, 0) == Span({}, {}, None)
  {
    TopsAtZero(n, i);
    TopsAtZero(n, i + 1);
  }

  lemma {:induction false} SpansExpected(n: nat, t: nat)
    requires 2 <= n
    ensures forall i: nat | i < n :: SpansAfter(n, t)[i] == Expected(n, i, t)
  {
    hide Expected, SpanStep;
    forall i: nat | i < n ensures SpansAfter(n, t)[i] == Expected(n, i, t) {
      if t == 0 {
        NothingAtZero(n, i);
      } else {
        SpansExpected(n, t - 1);
        StepExpected(n, SpansAfter(n, t - 1), t - 1, t, i);
      }
    }
  }

  /**
    The sizes that sizeOfCurr and sizeOfSnap compute are the numbers of ledgers
    the schedule puts into each bucket, at every ledger and every level,
    including the filling-up period and the last level.
   */
  lemma SizesAreScheduled(n: nat, t: nat, i: nat)
    requires 2 <= n && i < n
    ensures |SpansAfter(n, t)[i].curr| == CurrSize(n, t, i)
    ensures |SpansAfter(n, t)[i].snap| == SnapSize(n, t, i)
  {
    SpansExpected(n, t);
    TopsDescend(n, i, t);
    assert SpansAfter(n, t)[i] == Expected(n, i, t);
  }

  /** Every level but the last reaches its steady state: its snap holds exactly half a level from LevelSize on. */
  lemma SteadyState(n: nat, t: nat, i: nat)
    requires 2 <= n && i < n - 1 && LevelSize(i) <= t
    ensures |SpansAfter(n, t)[i].snap| == LevelHalf(i)
  {
    SizesAreScheduled(n, t, i);
    FullSnap(n, t, i);
  }

  // ----- conservation -----

  /** Ledger x lies in curr(i), respectively snap(i), as the range queries report it. */
  predicate InCurr(n: nat, t: nat, i: nat, x: nat) {
    SnapTop(n, i, t) < x <= CurrTop(n, i, t)
  }

  predicate InSnap(n: nat, t: nat, i: nat, x: nat) {
    CurrTop(n, i + 1, t) < x <= SnapTop(n, i, t)
  }

  lemma {:induction false} TopsApart(n: nat, t: nat, i: nat, j: nat)
    requires i < j <= n
    ensures CurrTop(n, j, t) <= CurrTop(n, i + 1, t)
    decreases j - i
  {
    if i + 1 < j {
      TopsDescend(n, j - 1, t);
      TopsApart(n, t, i, j - 1);
    }
  }

  lemma {:induction false} FindLevel(n: nat, t: nat, x: nat, i: nat) returns (l: nat)
    requires 2 <= n && i <= n && 0 < x && (i < n ==> x <= CurrTop(n, i, t)) && (i == n ==> x <= 0)
    ensures l < n && (InCurr(n, t, l, x) || InSnap(n, t, l, x))
    decreases n - i
  {
    TopsDescend(n, i, t);
    if InCurr(n, t, i, x) || InSnap(n, t, i, x) {
      l := i;
    } else {
      if i == n - 1 { LastTops(n, t); }
      l := FindLevel(n, t, x, i + 1);
    }
  }

  /** Conservation: the ranges partition ledgers 1 to t; each ledger is in exactly one bucket. */
  lemma RangesPartition(n: nat, t: nat, x: nat)
    requires 2 <= n
    ensures 1 <= x <= t <==> exists i: nat | i < n :: InCurr(n, t, i, x) || InSnap(n, t, i, x)
    ensures forall i: nat | i < n :: !(InCurr(n, t, i, x) && InSnap(n, t, i, x))
    ensures forall i: nat, j: nat | i < j < n ::
              !((InCurr(n, t, i, x) || InSnap(n, t, i, x)) && (InCurr(n, t, j, x) || InSnap(n, t, j, x)))
  {
    hide CurrTop, SnapTop;
    forall i: nat, j: nat | i < j < n
      ensures !((InCurr(n, t, i, x) || InSnap(n, t, i, x)) && (InCurr(n, t, j, x) || InSnap(n, t, j, x))) {
      TopsDescend(n, i, t);
      TopsDescend(n, j, t);
      TopsApart(n, t, i, j);
    }
    if 1 <= x <= t {
      YoungestTop(n, t);
      var l := FindLevel(n, t, x, 0);
    }
    forall i: nat | i < n && (InCurr(n, t, i, x) || InSnap(n, t, i, x)) ensures 1 <= x <= t {
      TopsDescend(n, i, t);
    }
  }
}
