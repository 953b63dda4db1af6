/** Numbers as bit strings: shifts, masks and bitwise or, one bit at a time. */
module BitStrings {
  import opened Arith

  /** Bit k of x, counting from the low end. */
  predicate Bit(x: nat, k: nat) {
    if k == 0 then x % 2 == 1 else Bit(x / 2, k - 1)
  }

  /** `x << n` and `x >> n` without a width. */
  function Left(x: nat, n: nat): nat {
    if n == 0 then x else 2 * Left(x, n - 1)
  }

  function Right(x: nat, n: nat): nat {
    if n == 0 then x else Right(x / 2, n - 1)
  }

  /** The n lowest bits: a mask, or the truncation to an n-bit type. */
  function Low(x: nat, n: nat): nat {
    if n == 0 then 0 else 2 * Low(x / 2, n - 1) + x % 2
  }

  /** Bitwise or. */
  function Or(x: nat, y: nat): nat
    decreases x + y
  {
    if x == 0 && y == 0 then 0
    else 2 * Or(x / 2, y / 2) + (if x % 2 == 1 || y % 2 == 1 then 1 else 0)
  }

  lemma {:induction false} BitLeft(x: nat, n: nat, k: nat)
    ensures Bit(Left(x, n), k) <==> k >= n && Bit(x, k - n)
    decreases n
  {
    if n > 0 && k > 0 { BitLeft(x, n - 1, k - 1); }
  }

  lemma {:induction false} BitRight(x: nat, n: nat, k: nat)
    ensures Bit(Right(x, n), k) <==> Bit(x, n + k)
  {
    if n > 0 { BitRight(x / 2, n - 1, k); }
  }

  lemma {:induction false} BitLow(x: nat, n: nat, k: nat)
    ensures Bit(Low(x, n), k) <==> k < n && Bit(x, k)
  {
    if n == 0 {
      BitZero(k);
    } else if k > 0 {
      BitLow(x / 2, n - 1, k - 1);
    }
  }

  lemma {:induction false} BitZero(k: nat)
    ensures !Bit(0, k)
  {
    if k > 0 { BitZero(k - 1); }
  }

  lemma {:induction false} BitOr(x: nat, y: nat, k: nat)
    ensures Bit(Or(x, y), k) <==> Bit(x, k) || Bit(y, k)
    decreases k
  {
    if x == 0 && y == 0 {
      BitZero(k);
    } else if k > 0 {
      BitOr(x / 2, y / 2, k - 1);
    }
  }

  /** A number below 2^n has no bit from n up. */
  lemma {:induction false} BitAbove(x: nat, n: nat, k: nat)
    requires x < Pow2(n) && k >= n
    ensures !Bit(x, k)
    decreases k
  {
    if n == 0 {
      BitZero(k);
    } else {
      BitAbove(x / 2, n - 1, k - 1);
    }
  }

  ghost predicate SameBits(x: nat, y: nat, n: nat) {
    forall k: nat :: k < n ==> (Bit(x, k) <==> Bit(y, k))
  }

  /** The bits determine the number. */
  lemma {:induction false} BitsDetermine(x: nat, y: nat, n: nat)
    requires x < Pow2(n) && y < Pow2(n) && SameBits(x, y, n)
    ensures x == y
    decreases n
  {
    if n > 0 {
      assert Bit(x, 0) <==> Bit(y, 0);
      forall k: nat | k < n - 1 ensures Bit(x / 2, k) <==> Bit(y / 2, k) {
        assert Bit(x, k + 1) <==> Bit(y, k + 1);
      }
      BitsDetermine(x / 2, y / 2, n - 1);
    }
  }

  lemma {:induction false} LowBound(x: nat, n: nat)
    ensures Low(x, n) < Pow2(n)
    decreases n
  {
    if n > 0 { LowBound(x / 2, n - 1); }
  }

  lemma {:induction false} RightBound(x: nat, n: nat)
    ensures Right(x, n) <= x
  {
    if n > 0 { RightBound(x / 2, n - 1); }
  }

  lemma {:induction false} OrBound(x: nat, y: nat, n: nat)
    requires x < Pow2(n) && y < Pow2(n)
    ensures Or(x, y) < Pow2(n)
    decreases n
  {
    if n > 0 && (x > 0 || y > 0) { OrBound(x / 2, y / 2, n - 1); }
  }
}
