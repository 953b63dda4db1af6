/**
  The spill schedule of the bucket list (src/bucket/BucketList.cpp): level
  sizes, spill boundaries and, as an independent description of what the
  schedule does, the ledger at which each bucket's range ends.

  `n` is the number of levels (kNumLevels).
 */
module Schedule {

  import opened Arith
  import BitStrings

  function LevelSize(level: nat): (r: nat)
    ensures r > 0
  {
    Pow2(2 * (level + 1))
  }

  function LevelHalf(level: nat): (r: nat)
    ensures r > 0
  {
    LevelSize(level) / 2
  }

  /** `v & ~(m - 1)` for a power of two m: v with its remainder modulo m taken off. */
  function Mask(v: nat, m: nat): (r: nat)
    requires m > 0
    ensures v < r + m && r <= v
  {
    if v < m then 0 else m + Mask(v - m, m)
  }

  lemma {:induction false} MaskIsRemainder(v: nat, m: nat)
    requires m > 0
    ensures Mask(v, m) == v - v % m
  {
    if v < m {
      ModOnce(v, m);
    } else {
      MaskIsRemainder(v - m, m);
      MulOne(m);
      ModMultiple(v - m, 1, m);
    }
  }

  lemma {:induction false} MaskDoubles(v: nat, m: nat)
    requires m > 0
    ensures Mask(v, 2 * m) == 2 * Mask(v / 2, m)
  {
    if v >= 2 * m {
      assert (v - 2 * m) / 2 == v / 2 - m;
      MaskDoubles(v - 2 * m, m);
    }
  }

  lemma {:induction false} MaskShifts(v: nat, k: nat)
    ensures Mask(v, Pow2(k)) == BitStrings.Left(BitStrings.Right(v, k), k)
  {
    if k == 0 {
      MaskIsRemainder(v, 1);
    } else {
      MaskShifts(v / 2, k - 1);
      MaskDoubles(v, Pow2(k - 1));
    }
  }

  /** For a power of two, Mask is the bitwise `v & ~(m - 1)`: it clears the bits below. */
  lemma MaskClearsLowBits(v: nat, k: nat, j: nat)
    ensures BitStrings.Bit(Mask(v, Pow2(k)), j) <==> j >= k && BitStrings.Bit(v, j)
  {
    MaskShifts(v, k);
    BitStrings.BitLeft(BitStrings.Right(v, k), k, j);
    if j >= k { BitStrings.BitRight(v, k, j - k); }
  }

  predicate Multiple(v: nat, m: nat)
    requires m > 0
  {
    Mask(v, m) == v
  }

  predicate LevelShouldSpill(n: nat, ledger: nat, level: nat) {
    level != n - 1 &&
    (ledger == Mask(ledger, LevelHalf(level)) || ledger == Mask(ledger, LevelSize(level)))
  }

  predicate KeepDeadEntries(n: nat, level: nat) {
    level < n - 1
  }

  predicate ShouldMergeWithEmptyCurr(n: nat, ledger: nat, level: nat) {
    level != 0 &&
    LevelShouldSpill(n, Mask(ledger, LevelHalf(level - 1)) + LevelHalf(level - 1), level)
  }

  /** The skew of level i: how far its snap ends below the spill boundary (1, 5, 21, 85, ...). */
  function Skew(i: nat): nat {
    if i == 0 then 1 else 4 * Skew(i - 1) + 1
  }

  function Monus(a: nat, b: nat): nat {
    if a < b then 0 else a - b
  }

  /** The newest ledger that snap(i) holds once `ledger` is closed, 0 if none: snap(i) ends here. */
  function SnapTop(n: nat, i: nat, ledger: nat): nat {
    if i >= n - 1 then 0 else Monus(Mask(ledger, LevelHalf(i)), Skew(i))
  }

  /** The newest ledger that curr(i) holds once `ledger` is closed, 0 if none. */
  function CurrTop(n: nat, i: nat, ledger: nat): nat {
    if i == 0 then ledger
    else if i >= n then 0
    else Monus(Mask(ledger, LevelHalf(i - 1)), LevelHalf(i - 1) + Skew(i - 1))
  }

  /** The newest ledger held at position j of the newest-first list of buckets. */
  function Top(n: nat, j: nat, t: nat): nat {
    if j % 2 == 0 then CurrTop(n, j / 2, t) else SnapTop(n, j / 2, t)
  }

  lemma HalfFacts(i: nat)
    ensures LevelSize(i) == 2 * LevelHalf(i)
    ensures i == 0 ==> LevelHalf(i) == 2
    ensures i > 0 ==> LevelHalf(i) == 4 * LevelHalf(i - 1)
    ensures 3 * Skew(i) + 1 == 2 * LevelHalf(i)
  {
    assert Pow2(2 * i + 2) == 2 * Pow2(2 * i + 1) && Pow2(2 * i + 1) == 2 * Pow2(2 * i);
    if i > 0 { HalfFacts(i - 1); }
  }

  lemma {:induction false} MaskStep(v: nat, m: nat)
    requires v > 0 && m > 0
    ensures Multiple(v, m) ==> v >= m && Mask(v - 1, m) == v - m
    ensures !Multiple(v, m) ==> Mask(v, m) == Mask(v - 1, m)
  {
    if v > m { MaskStep(v - m, m); }
  }

  /** Masking to a coarser grain, directly or through a finer one. */
  lemma {:induction false} MaskTwice(v: nat, m: nat)
    requires m > 0
    ensures Mask(v, 2 * m) <= Mask(v, m)
    ensures Mask(Mask(v, m), 2 * m) == Mask(v, 2 * m)
    ensures Multiple(Mask(v, m), m)
  {
    if v >= 2 * m {
      MaskTwice(v - 2 * m, m);
      assert Mask(v, m) == m + (m + Mask(v - 2 * m, m));
      assert Mask(m + Mask(v - 2 * m, m), m) == m + Mask(v - 2 * m, m);
    }
  }

  /** A multiple of 2m is a multiple of m. */
  lemma MultipleOfHalf(v: nat, m: nat)
    requires m > 0 && Multiple(v, 2 * m)
    ensures Multiple(v, m)
  {
    MaskTwice(v, m);
  }

  /** A level spills at exactly the multiples of its half size, except the last, which never does. */
  lemma {:induction false} SpillIff(n: nat, ledger: nat, level: nat)
    ensures LevelShouldSpill(n, ledger, level) <==> level != n - 1 && Multiple(ledger, LevelHalf(level))
  {
    HalfFacts(level);
    if Multiple(ledger, LevelSize(level)) { MultipleOfHalf(ledger, LevelHalf(level)); }
  }

  /** When a level spills, the next younger one spills at the same ledger. */
  lemma {:induction false} SpillCascades(n: nat, ledger: nat, level: nat)
    requires 0 < level < n && LevelShouldSpill(n, ledger, level)
    ensures LevelShouldSpill(n, ledger, level - 1)
  {
    SpillIff(n, ledger, level);
    SpillIff(n, ledger, level - 1);
    HalfFacts(level);
    MultipleOfHalf(ledger, 2 * LevelHalf(level - 1));
    MultipleOfHalf(ledger, LevelHalf(level - 1));
  }

  /**
    One ledger moves the tops exactly as one addBatch moves the buckets: at a
    spill of level i its snap takes over the top curr(i) had, and curr(i + 1)
    takes over the top snap(i) had; otherwise both stay.
   */
  lemma {:induction false} TopsStep(n: nat, i: nat, ledger: nat)
    requires 0 <= i < n - 1 && ledger > 0
    ensures SnapTop(n, i, ledger) ==
            if LevelShouldSpill(n, ledger, i) then CurrTop(n, i, ledger - 1) else SnapTop(n, i, ledger - 1)
    ensures CurrTop(n, i + 1, ledger) ==
            if LevelShouldSpill(n, ledger, i) then SnapTop(n, i, ledger - 1) else CurrTop(n, i + 1, ledger - 1)
  {
    SpillIff(n, ledger, i);
    HalfFacts(i);
    MaskStep(ledger, LevelHalf(i));
    if i > 0 {
      HalfFacts(i - 1);
      if LevelShouldSpill(n, ledger, i) {
        SpillCascades(n, ledger, i);
        SpillIff(n, ledger, i - 1);
        MaskStep(ledger, LevelHalf(i - 1));
      }
    }
  }

  /** Tops descend from newest to oldest: curr(0), snap(0), curr(1), snap(1), ..., and end at 0. */
  lemma {:induction false} TopsDescend(n: nat, i: nat, ledger: nat)
    requires i < n
    ensures CurrTop(n, i + 1, ledger) <= SnapTop(n, i, ledger) <= CurrTop(n, i, ledger) <= ledger
    ensures SnapTop(n, n - 1, ledger) == CurrTop(n, n, ledger) == 0
  {
    if i > 0 {
      HalfFacts(i);
      HalfFacts(i - 1);
      MaskTwice(ledger, LevelHalf(i - 1));
      MaskTwice(ledger, 2 * LevelHalf(i - 1));
    }
  }

  /** The range a pending merge of level i starts at: above curr(i) if curr(i) is about to be snapped. */
  function PendingBottom(n: nat, i: nat, ledger: nat): nat {
    if ShouldMergeWithEmptyCurr(n, ledger, i) then CurrTop(n, i, ledger) else SnapTop(n, i, ledger)
  }

  /** The ledger at which the merge that is pending at level i was started. */
  function Started(i: nat, ledger: nat): (r: nat)
    requires 0 < i
    ensures r <= ledger
  {
    Mask(ledger, LevelHalf(i - 1))
  }

  /** A merge started at one spill of the next younger level is committed at the following one. */
  lemma {:induction false} StartedStep(n: nat, i: nat, s: nat, t: nat)
    requires 0 < i < n && t == s + 1
    ensures LevelShouldSpill(n, t, i - 1) ==> Started(i, t) == t && Started(i, s) + LevelHalf(i - 1) == t
    ensures !LevelShouldSpill(n, t, i - 1) ==> Started(i, t) == Started(i, s)
  {
    hide LevelShouldSpill, LevelHalf;
    SpillIff(n, t, i - 1);
    MaskStep(t, LevelHalf(i - 1));
  }

  lemma LastTops(n: nat, ledger: nat)
    requires 0 < n
    ensures SnapTop(n, n - 1, ledger) == CurrTop(n, n, ledger) == 0
  {
  }

  /** A pending merge replaces an empty curr exactly when its commit ledger is a spill of its own level. */
  lemma {:induction false} EmptyCurrIff(n: nat, i: nat, s: nat, t: nat)
    requires 0 < i < n && t == s + 1
    ensures LevelShouldSpill(n, t, i - 1) ==>
              (ShouldMergeWithEmptyCurr(n, s, i) <==> LevelShouldSpill(n, t, i)) && LevelHalf(i - 1) <= t
    ensures !LevelShouldSpill(n, t, i - 1) ==>
              (ShouldMergeWithEmptyCurr(n, s, i) <==> ShouldMergeWithEmptyCurr(n, t, i)) && t != LevelHalf(i - 1)
  {
    hide LevelShouldSpill, LevelHalf;
    SpillIff(n, t, i - 1);
    MaskStep(t, LevelHalf(i - 1));
  }

  /** Before its first incoming merge is committed, a level holds nothing and does not spill. */
  lemma {:induction false} FirstSpill(n: nat, i: nat, t: nat)
    requires 0 < i < n && 0 < t <= LevelHalf(i - 1)
    ensures !LevelShouldSpill(n, t, i) && CurrTop(n, i, t) == 0
  {
    SpillIff(n, t, i);
    HalfFacts(i);
  }

  lemma {:induction false} SpillMoves(n: nat, i: nat, t: nat)
    requires 0 < i < n && 0 < t && LevelShouldSpill(n, t, i - 1)
    ensures CurrTop(n, i, t) < SnapTop(n, i - 1, t)
  {
    SpillIff(n, t, i - 1);
    HalfFacts(i - 1);
    MaskStep(t, LevelHalf(i - 1));
  }

  /** How the tops around level i move when level i - 1 spills. */
  lemma {:induction false} SpillTops(n: nat, i: nat, s: nat, t: nat)
    requires 0 < i < n && t == s + 1 && LevelShouldSpill(n, t, i - 1)
    ensures CurrTop(n, i, t) == SnapTop(n, i - 1, s)
    ensures SnapTop(n, i - 1, t) == CurrTop(n, i - 1, s)
    ensures CurrTop(n, i, t) < SnapTop(n, i - 1, t)
    ensures SnapTop(n, i, t) == if LevelShouldSpill(n, t, i) then CurrTop(n, i, s) else SnapTop(n, i, s)
    ensures CurrTop(n, i + 1, t) == if LevelShouldSpill(n, t, i) then SnapTop(n, i, s) else CurrTop(n, i + 1, s)
    ensures PendingBottom(n, i, s) == SnapTop(n, i, t)
    ensures s < LevelHalf(i - 1) ==> !LevelShouldSpill(n, t, i) && CurrTop(n, i, t) == CurrTop(n, i, s)
    ensures LevelHalf(i - 1) <= t
  {
    hide CurrTop, SnapTop, LevelHalf, Mask, LevelShouldSpill, ShouldMergeWithEmptyCurr;
    TopsStep(n, i - 1, t);
    if i < n - 1 {
      TopsStep(n, i, t);
    } else {
      LastTops(n, s);
      LastTops(n, t);
      assert !LevelShouldSpill(n, t, i) by { LastNeverSpills(n, t); }
    }
    EmptyCurrIff(n, i, s, t);
    SpillMoves(n, i, t);
    if s < LevelHalf(i - 1) {
      FirstSpill(n, i, t);
      if 0 < s { FirstSpill(n, i, s); } else { TopsAtZero(n, i); }
    }
  }

  lemma LastNeverSpills(n: nat, ledger: nat)
    requires 0 < n
    ensures !LevelShouldSpill(n, ledger, n - 1)
  {
  }

  lemma TopsAtZero(n: nat, i: nat)
    ensures SnapTop(n, i, 0) == CurrTop(n, i, 0) == 0
  {
  }

  /** Nothing around level i moves when level i - 1 does not spill. */
  lemma {:induction false} IdleTops(n: nat, i: nat, s: nat, t: nat)
    requires 0 < i < n && t == s + 1 && !LevelShouldSpill(n, t, i - 1)
    ensures !LevelShouldSpill(n, t, i)
    ensures CurrTop(n, i, t) == CurrTop(n, i, s)
    ensures SnapTop(n, i - 1, t) == SnapTop(n, i - 1, s)
    ensures SnapTop(n, i, t) == SnapTop(n, i, s)
    ensures CurrTop(n, i + 1, t) == CurrTop(n, i + 1, s)
    ensures ShouldMergeWithEmptyCurr(n, t, i) <==> ShouldMergeWithEmptyCurr(n, s, i)
    ensures s < LevelHalf(i - 1) <==> t < LevelHalf(i - 1)
  {
    hide CurrTop, SnapTop, LevelHalf, Mask, LevelShouldSpill, ShouldMergeWithEmptyCurr;
    if LevelShouldSpill(n, t, i) { SpillCascades(n, t, i); }
    TopsStep(n, i - 1, t);
    if i < n - 1 {
      TopsStep(n, i, t);
    } else {
      LastTops(n, s);
      LastTops(n, t);
    }
    EmptyCurrIff(n, i, s, t);
  }
}
