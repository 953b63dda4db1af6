/**
  The size and range queries of the bucket list (src/bucket/BucketList.cpp:250-360)
  against the schedule that addBatch follows.
 */
module Sizes {
  import opened Arith
  import opened Schedule

  const UINT32_MAX: nat := 0xFFFF_FFFF

  /** How many ledgers curr(i) holds after `ledger`. */
  function CurrSize(n: nat, ledger: nat, i: nat): nat
    requires i < n
  {
    TopsDescend(n, i, ledger);
    CurrTop(n, i, ledger) - SnapTop(n, i, ledger)
  }

  function SnapSize(n: nat, ledger: nat, i: nat): nat
    requires i < n
  {
    TopsDescend(n, i, ledger);
    SnapTop(n, i, ledger) - CurrTop(n, i + 1, ledger)
  }

  function Max(a: nat, b: nat): nat {
    if a < b then b else a
  }

  // ----- the recursion of sizeOfCurr and sizeOfSnap -----

  /** sizeOfCurr. Every subtraction is between naturals and stays one. */
  method SizeOfCurr(n: nat, ledger: nat, level: nat) returns (r: nat)
    requires 2 <= n && 0 < ledger && level < n
    ensures r == CurrSize(n, ledger, level)
    decreases level, ledger, 0
  {
    hide CurrTop, SnapTop, Mask, LevelSize, LevelHalf;
    if level == 0 {
      r := if ledger == 1 then 1 else 1 + ledger % 2;
      YoungestSize(n, ledger);
      return;
    }
    var size, half := LevelSize(level), LevelHalf(level);
    if level != n - 1 && Mask(ledger, half) != 0 {
      var sizeDelta := Pow2(2 * level - 1);
      SizeDelta(level);
      if Mask(ledger, half) == ledger || Mask(ledger, size) == ledger {
        r := sizeDelta;
        SizeAtSpill(n, ledger, level);
        return;
      }
      var prevSize, prevHalf := LevelSize(level - 1), LevelHalf(level - 1);
      var previousRelevantLedger :=
        Max(Max(Mask(ledger - 1, prevHalf), Mask(ledger - 1, prevSize)), Max(Mask(ledger - 1, half), Mask(ledger - 1, size)));
      PreviousRelevant(n, ledger, level);
      r := SizeOfCurr(n, previousRelevantLedger, level);
      if Mask(ledger, prevHalf) == ledger || Mask(ledger, prevSize) == ledger {
        r := r + sizeDelta;
      }
    } else {
      var blsize := 0;
      YoungestTop(n, ledger);
      for l := 0 to level
        invariant CurrTop(n, l, ledger) <= ledger
        invariant blsize == ledger - CurrTop(n, l, ledger)
      {
        TopsDescend(n, l, ledger);
        var c := SizeOfCurr(n, ledger, l);
        var s := SizeOfSnap(n, ledger, l);
        blsize := blsize + c + s;
      }
      r := ledger - blsize;
      NothingOlder(n, ledger, level);
    }
  }

  /** sizeOfSnap. */
  method SizeOfSnap(n: nat, ledger: nat, level: nat) returns (r: nat)
    requires 2 <= n && 0 < ledger && level < n
    ensures r == SnapSize(n, ledger, level)
    decreases level, ledger, 1
  {
    hide CurrTop, SnapTop, Mask, LevelSize, LevelHalf;
    TopsDescend(n, level, ledger);
    if level == n - 1 {
      r := 0;
    } else if Mask(ledger, LevelSize(level)) != 0 {
      r := LevelHalf(level);
      FullSnap(n, ledger, level);
    } else {
      var size := 0;
      YoungestTop(n, ledger);
      for l := 0 to level
        invariant CurrTop(n, l, ledger) <= ledger
        invariant size == ledger - CurrTop(n, l, ledger)
      {
        TopsDescend(n, l, ledger);
        var c := SizeOfCurr(n, ledger, l);
        var s := SizeOfSnap(n, ledger, l);
        size := size + c + s;
      }
      var c := SizeOfCurr(n, ledger, level);
      size := size + c;
      r := ledger - size;
      FirstSnap(n, ledger, level);
    }
  }

  /** oldestLedgerInCurr: the first ledger of the range of curr(level), or the sentinel if it is empty. */
  method OldestLedgerInCurr(n: nat, ledger: nat, level: nat) returns (r: nat)
    requires 2 <= n && 0 < ledger && level < n
    ensures r == if CurrSize(n, ledger, level) == 0 then 0xFFFF_FFFF else SnapTop(n, level, ledger) + 1
  {
    hide CurrTop, SnapTop;
    var size := SizeOfCurr(n, ledger, level);
    if size == 0 {
      return UINT32_MAX;
    }
    var count := ledger;
    YoungestTop(n, ledger);
    for l := 0 to level
      invariant count == CurrTop(n, l, ledger)
    {
      TopsDescend(n, l, ledger);
      var c := SizeOfCurr(n, ledger, l);
      count := count - c;
      var s := SizeOfSnap(n, ledger, l);
      count := count - s;
    }
    TopsDescend(n, level, ledger);
    count := count - size;
    r := count + 1;
  }

  /** oldestLedgerInSnap. */
  method OldestLedgerInSnap(n: nat, ledger: nat, level: nat) returns (r: nat)
    requires 2 <= n && 0 < ledger && level < n
    ensures r == if SnapSize(n, ledger, level) == 0 then 0xFFFF_FFFF else CurrTop(n, level + 1, ledger) + 1
  {
    hide CurrTop, SnapTop;
    var size := SizeOfSnap(n, ledger, level);
    if size == 0 {
      return UINT32_MAX;
    }
    var count := ledger;
    YoungestTop(n, ledger);
    for l := 0 to level + 1
      invariant count == CurrTop(n, l, ledger)
    {
      TopsDescend(n, l, ledger);
      var c := SizeOfCurr(n, ledger, l);
      count := count - c;
      var s := SizeOfSnap(n, ledger, l);
      count := count - s;
    }
    r := count + 1;
  }

  // ----- why the recursion is right -----

  lemma {:induction false} YoungestSize(n: nat, ledger: nat)
    requires 2 <= n && 0 < ledger
    ensures CurrSize(n, ledger, 0) == if ledger == 1 then 1 else 1 + ledger % 2
  {
    TopsDescend(n, 0, ledger);
    assert LevelHalf(0) == 2 by { HalfFacts(0); }
    MaskTwo(ledger);
  }

  lemma {:induction false} MaskTwo(v: nat)
    ensures Mask(v, 2) == v - v % 2
  {
    if v >= 2 { MaskTwo(v - 2); }
  }

  lemma {:induction false} SizeDelta(level: nat)
    requires 0 < level
    ensures Pow2(2 * level - 1) == LevelHalf(level - 1)
  {
    assert Pow2(2 * level) == 2 * Pow2(2 * level - 1);
  }

  lemma YoungestTop(n: nat, ledger: nat)
    ensures CurrTop(n, 0, ledger) == ledger
  {
  }

  /** The size of a middle curr, in terms of the two grains that bound it. */
  lemma MiddleSize(n: nat, x: nat, level: nat, h: nat, d: nat)
    requires 0 < level < n - 1 && h == LevelHalf(level - 1) && d == Skew(level - 1)
    ensures 0 < h && LevelHalf(level) == 4 * h && LevelSize(level) == 8 * h && LevelSize(level - 1) == 2 * h
    ensures 3 * d + 1 == 2 * h
    ensures var top, bottom := Monus(Mask(x, h), h + d), Monus(Mask(x, 4 * h), 4 * d + 1);
            bottom <= top && CurrSize(n, x, level) == top - bottom
  {
    hide LevelHalf, LevelSize;
    HalfFacts(level);
    HalfFacts(level - 1);
    TopsDescend(n, level, x);
  }

  lemma {:induction false} SizeAtSpill(n: nat, ledger: nat, level: nat)
    requires 0 < level < n - 1 && 0 < ledger && Mask(ledger, LevelHalf(level)) != 0
    requires Mask(ledger, LevelHalf(level)) == ledger || Mask(ledger, LevelSize(level)) == ledger
    ensures CurrSize(n, ledger, level) == LevelHalf(level - 1)
  {
    hide CurrSize, LevelSize, LevelHalf, Skew, Mask;
    var h := LevelHalf(level - 1);
    MiddleSize(n, ledger, level, h, Skew(level - 1));
    CoarserMasks(ledger, h);
    MaskAtLeast(ledger, 4 * h);
  }

  lemma {:induction false} CoarserMasks(v: nat, h: nat)
    requires 0 < h
    ensures Mask(v, 8 * h) <= Mask(v, 4 * h) <= Mask(v, 2 * h) <= Mask(v, h)
    ensures Mask(Mask(v, h), h) == Mask(v, h)
    ensures Mask(Mask(v, h), 4 * h) == Mask(v, 4 * h)
  {
    hide Mask;
    MaskTwice(v, h);
    MaskTwice(v, 2 * h);
    MaskTwice(v, 4 * h);
    MaskTwice(Mask(v, h), 2 * h);
  }

  lemma {:induction false} PreviousMasks(ledger: nat, h: nat, p: nat)
    requires 0 < h && 0 < ledger && p == Mask(ledger - 1, h)
    requires Mask(ledger, 4 * h) != 0 && Mask(ledger, 4 * h) != ledger
    ensures Mask(p, h) == p && Mask(p, 4 * h) == Mask(ledger, 4 * h) && 4 * h <= p < ledger
    ensures Mask(ledger, h) == ledger ==> p + h == ledger
    ensures Mask(ledger, h) != ledger ==> Mask(ledger, h) == p
    ensures Mask(ledger, 2 * h) == ledger ==> Mask(ledger, h) == ledger
  {
    hide Mask;
    CoarserMasks(ledger - 1, h);
    CoarserMasks(p, h);
    CoarserMasks(ledger, h);
    MaskStep(ledger, 4 * h);
    MaskStep(ledger, h);
    MaskAtLeast(ledger, 4 * h);
  }

  /** Between spills of its own, a curr grows by one incoming snap at each spill of the level before. */
  lemma {:induction false} PreviousRelevant(n: nat, ledger: nat, level: nat)
    requires 0 < level < n - 1 && 0 < ledger && Mask(ledger, LevelHalf(level)) != 0
    requires Mask(ledger, LevelHalf(level)) != ledger && Mask(ledger, LevelSize(level)) != ledger
    ensures var p := Mask(ledger - 1, LevelHalf(level - 1));
            && p == Max(Max(p, Mask(ledger - 1, LevelSize(level - 1))),
                        Max(Mask(ledger - 1, LevelHalf(level)), Mask(ledger - 1, LevelSize(level))))
            && 0 < p < ledger
            && CurrSize(n, ledger, level) == CurrSize(n, p, level) +
               (if Mask(ledger, LevelHalf(level - 1)) == ledger || Mask(ledger, LevelSize(level - 1)) == ledger
                then LevelHalf(level - 1) else 0)
  {
    hide CurrSize, LevelSize, LevelHalf, Skew, Mask;
    var h := LevelHalf(level - 1);
    var p := Mask(ledger - 1, h);
    MiddleSize(n, ledger, level, h, Skew(level - 1));
    MiddleSize(n, p, level, h, Skew(level - 1));
    CoarserMasks(ledger - 1, h);
    PreviousMasks(ledger, h, p);
  }

  lemma {:induction false} MaskAtLeast(v: nat, m: nat)
    requires m > 0 && Mask(v, m) != 0
    ensures Mask(v, m) >= m
  {
  }

  lemma {:induction false} NothingOlder(n: nat, ledger: nat, level: nat)
    requires 0 < level < n && (level == n - 1 || Mask(ledger, LevelHalf(level)) == 0)
    ensures SnapTop(n, level, ledger) == 0
  {
  }

  lemma {:induction false} FullSnap(n: nat, ledger: nat, level: nat)
    requires level < n - 1 && Mask(ledger, LevelSize(level)) != 0
    ensures SnapSize(n, ledger, level) == LevelHalf(level)
  {
    hide LevelSize, LevelHalf, Skew, Mask;
    HalfFacts(level);
    TopsDescend(n, level, ledger);
    MaskTwice(ledger, LevelHalf(level));
    MaskAtLeast(ledger, LevelSize(level));
  }

  lemma {:induction false} FirstSnap(n: nat, ledger: nat, level: nat)
    requires level < n - 1 && Mask(ledger, LevelSize(level)) == 0
    ensures CurrTop(n, level + 1, ledger) == 0
  {
    HalfFacts(level);
    var h := LevelHalf(level);
    assert ledger < 2 * h;
    assert Mask(ledger, h) <= h;
  }
}
