/** Integer arithmetic with its laws stated one at a time. */
module Arith {

  /** Multiplication, named so that proofs can use its laws one at a time. */
  function Mul(x: int, y: int): int {
    x * y
  }

  lemma MulAdd(x: int, y: int, d: int)
    ensures Mul(x + y, d) == Mul(x, d) + Mul(y, d)
    ensures Mul(x - y, d) == Mul(x, d) - Mul(y, d)
  {
  }

  lemma MulComm(x: int, y: int)
    ensures Mul(x, y) == Mul(y, x)
  {
  }

  lemma MulAssoc(x: int, y: int, z: int)
    ensures Mul(Mul(x, y), z) == Mul(x, Mul(y, z))
  {
    assert (x * y) * z == x * (y * z);
  }

  lemma MulOne(x: int)
    ensures Mul(1, x) == x && Mul(0, x) == 0
  {
  }

  /** Multiplication is monotone on naturals. */
  lemma MulNat(x: int, y: nat)
    ensures x >= 0 ==> Mul(x, y) >= 0
    ensures x >= 1 ==> Mul(x, y) >= y
  {
    if x >= 1 { assert (x - 1) * y >= 0; }
  }

  /** A multiple of d strictly between -d and d is zero. */
  lemma SmallMultiple(q: int, d: int)
    requires d > 0 && -d < Mul(q, d) < d
    ensures q == 0
  {
    assert q >= 1 ==> (q - 1) * d >= 0;
    assert q <= -1 ==> (-1 - q) * d >= 0;
  }

  lemma CancelFactor(x: int, y: int, g: int)
    requires g > 0 && Mul(x, g) == Mul(y, g)
    ensures x == y
  {
    hide Mul;
    MulAdd(x, y, g);
    SmallMultiple(x - y, g);
  }

  /** A nonnegative multiple has a nonnegative quotient. */
  lemma Quotient(x: int, g: nat)
    requires g > 0 && Mul(x, g) >= 0
    ensures x >= 0
  {
    assert x <= -1 ==> (-1 - x) * g >= 0;
  }

  lemma EuclidDivision(x: int, d: nat)
    requires d > 0
    ensures x == Mul(x / d, d) + x % d && 0 <= x % d < d
    ensures x >= 0 ==> x / d >= 0
  {
  }

  /** Quotient and remainder are determined by what they satisfy. */
  lemma DivUnique(x: int, d: nat, q: int, r: int)
    requires d > 0 && x == Mul(q, d) + r && 0 <= r < d
    ensures x / d == q && x % d == r
  {
    hide Mul;
    EuclidDivision(x, d);
    MulAdd(q, x / d, d);
    SmallMultiple(q - x / d, d);
  }

  /** A remainder within one step of the range. */
  lemma ModOnce(x: int, m: int)
    requires m > 0 && -m <= x < 2 * m
    ensures x % m == if x < 0 then x + m else if x < m then x else x - m
  {
    hide Mul;
    MulOne(m);
    MulAdd(0, 1, m);
    if x < 0 {
      DivUnique(x, m, -1, x + m);
    } else if x < m {
      DivUnique(x, m, 0, x);
    } else {
      DivUnique(x, m, 1, x - m);
    }
  }

  /** Reducing a summand first does not change a sum modulo m. */
  lemma ModAdd(x: int, y: int, m: nat)
    requires m > 0
    ensures (x % m + y) % m == (x + y) % m
  {
    hide Mul;
    EuclidDivision(x, m);
    EuclidDivision(x + y, m);
    MulAdd((x + y) / m, x / m, m);
    DivUnique(x % m + y, m, (x + y) / m - x / m, (x + y) % m);
  }

  lemma ModMultiple(x: int, q: int, m: nat)
    requires m > 0
    ensures (Mul(q, m) + x) % m == x % m
  {
    hide Mul;
    EuclidDivision(x, m);
    MulAdd(q, x / m, m);
    DivUnique(Mul(q, m) + x, m, q + x / m, x % m);
  }

  lemma MulBelow(b: nat, t: nat, p: nat)
    requires b < t && p > 0
    ensures Mul(b, p) < Mul(t, p)
  {
    hide Mul;
    MulAdd(t, b, p);
    MulNat(t - b, p);
  }

  lemma QuotientBelow(x: nat, a: int, t: nat, p: nat)
    requires x < Mul(t, p) && Mul(a, t) <= x && t > 0
    ensures a < p
  {
    hide Mul;
    MulComm(t, p);
    MulAdd(a, p, t);
    if a >= p { MulNat(a - p, t); }
  }

  /** `1 << k`. */
  function Pow2(k: nat): (r: nat)
    ensures r > 0
  {
    if k == 0 then 1 else 2 * Pow2(k - 1)
  }

  lemma {:induction false} Pow2Add(i: nat, j: nat)
    ensures Pow2(i + j) == Mul(Pow2(i), Pow2(j))
  {
    hide Mul;
    if i == 0 {
      MulOne(Pow2(j));
    } else {
      Pow2Add(i - 1, j);
      MulAdd(Pow2(i - 1), Pow2(i - 1), Pow2(j));
    }
  }

  lemma {:induction false} Pow2Monotone(i: nat, j: nat)
    requires i <= j
    ensures Pow2(i) <= Pow2(j)
  {
    if i < j { Pow2Monotone(i, j - 1); }
  }
}
