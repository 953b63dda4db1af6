/**
  128-bit multiplication and long division (lib/util/uint128_t.h:556-573,
  597-612, 630-685): what imul and slow_div_ compute.
 */
module UInt128Product {
  import opened Wrappers
  import opened Arith
  import opened BitStrings
  import opened UInt128

  // ----- product -----

  function Imul(l: U128, r: U128): U128 {
    var a1, a0 := l.low / HALF, l.low % HALF;
    var b1, b0 := r.low / HALF, r.low % HALF;
    var high := Wrap(Wrap(Wrap(Mul(l.low, r.high)) + Wrap(Mul(r.low, l.high))) + Wrap(Mul(a1, b1)));
    Add(Add(U128(high, Wrap(Mul(a0, b0))), Shl(OfWord(Wrap(Mul(a1, b0))), 32)), Shl(OfWord(Wrap(Mul(b1, a0))), 32))
  }

  /** Four half-word products and two cross products make the product modulo 2^128. */
  lemma ImulValue(l: U128, r: U128)
    ensures Value(Imul(l, r)) == Mul(Value(l), Value(r)) % ALL
  {
    hide Mul, Add, Shl, Wrap;
    var a1, a0 := l.low / HALF, l.low % HALF;
    var b1, b0 := r.low / HALF, r.low % HALF;
    var cross := Mul(l.low, r.high) + Mul(r.low, l.high) + Mul(a1, b1);
    var high := Wrap(Wrap(Wrap(Mul(l.low, r.high)) + Wrap(Mul(r.low, l.high))) + Wrap(Mul(a1, b1)));
    HalfProduct(a0, b0);
    HalfProduct(a1, b0);
    HalfProduct(b1, a0);
    WrapSum(Mul(l.low, r.high), Mul(r.low, l.high), Mul(a1, b1));
    HighWord(cross, Mul(a0, b0));
    ShiftHalf(Mul(a1, b0));
    ShiftHalf(Mul(b1, a0));
    var first := U128(high, Mul(a0, b0));
    var second := Shl(OfWord(Mul(a1, b0)), 32);
    var third := Shl(OfWord(Mul(b1, a0)), 32);
    AddThree(first, second, third, cross * WORD + Mul(a0, b0));
    Expand(l, r);
    ModMultiple(cross * WORD + Mul(a0, b0) + Value(second) + Value(third), Mul(l.high, r.high), ALL);
  }

  lemma AddThree(first: U128, second: U128, third: U128, x: int)
    requires Value(first) == x % ALL
    ensures Value(Add(Add(first, second), third)) == (x + Value(second) + Value(third)) % ALL
  {
    hide Value, Add;
    AddValue(first, second);
    AddValue(Add(first, second), third);
    ModAdd(x, Value(second), ALL);
    ModAdd(x + Value(second), Value(third), ALL);
  }

  lemma HalfProduct(x: nat, y: nat)
    requires x < HALF && y < HALF
    ensures 0 <= Mul(x, y) < WORD && Wrap(Mul(x, y)) == Mul(x, y)
  {
    hide Mul;
    MulNat(x, y);
    MulComm(x, y);
    MulBelow(y, HALF, HALF);
    if x > 0 { MulBelow(y, HALF, x); }
    if x == 0 { MulOne(y); }
    MulComm(HALF, x);
    MulBelow(x, HALF, HALF);
    assert Mul(HALF, HALF) == WORD by { MulWord(HALF); }
    ModOnce(Mul(x, y), WORD);
  }

  lemma WrapSum(x: int, y: int, z: int)
    ensures Wrap(Wrap(Wrap(x) + Wrap(y)) + Wrap(z)) == Wrap(x + y + z)
  {
    ModAdd(x, Wrap(y), WORD);
    ModAdd(y, x, WORD);
    ModAdd(Wrap(x) + Wrap(y), Wrap(z), WORD);
    ModAdd(z, Wrap(x) + Wrap(y), WORD);
    ModAdd(x, Wrap(y) + z, WORD);
    ModAdd(y, x + z, WORD);
  }

  lemma HighWord(x: int, low: word)
    ensures Wrap(x) * WORD + low == (x * WORD + low) % ALL
  {
    hide Mul;
    EuclidDivision(x, WORD);
    MulWord(x / WORD);
    MulAll(x / WORD);
    DivUnique(x * WORD + low, ALL, x / WORD, Wrap(x) * WORD + low);
  }

  lemma ShiftHalf(x: word)
    ensures Value(Shl(OfWord(x), 32)) == x * HALF
  {
    hide Mul, Shl, Pow2, Count;
    ShlValue(OfWord(x), 32);
    Pow2Word();
    MulWord(x);
    ModOnce(x * HALF, ALL);
  }

  /** The product of two values, by words and half words. */
  lemma Expand(l: U128, r: U128)
    ensures var a1, a0, b1, b0 := l.low / HALF, l.low % HALF, r.low / HALF, r.low % HALF;
      Mul(Value(l), Value(r)) ==
      Mul(Mul(l.high, r.high), ALL)
      + (Mul(l.low, r.high) + Mul(r.low, l.high) + Mul(a1, b1)) * WORD
      + Mul(a0, b0) + Mul(a1, b0) * HALF + Mul(b1, a0) * HALF
  {
    hide Mul;
    var a1, a0, b1, b0 := l.low / HALF, l.low % HALF, r.low / HALF, r.low % HALF;
    MulValue(l, Value(r));
    MulComm(l.high, Value(r));
    MulValue(r, l.high);
    MulComm(l.high, r.high);
    MulComm(l.low, Value(r));
    MulValue(r, l.low);
    MulComm(r.high, l.low);
    MulAll(Mul(l.high, r.high));
    ExpandHalves(a1, a0, r.low);
    ExpandHalves(b1, b0, a1);
    ExpandHalves(b1, b0, a0);
    MulComm(r.low, l.low);
    MulComm(b1, a1);
    MulComm(b0, a1);
    MulComm(b0, a0);
    MulComm(r.low, a1);
    MulComm(r.low, a0);
  }

  lemma ExpandHalves(x1: int, x0: int, y: int)
    ensures Mul(x1 * HALF + x0, y) == Mul(x1, y) * HALF + Mul(x0, y)
  {
    hide Mul;
    MulAdd(x1 * HALF, x0, y);
    MulWord(x1);
    MulComm(x1, HALF);
    MulAssoc(HALF, x1, y);
    MulComm(HALF, Mul(x1, y));
    MulWord(Mul(x1, y));
  }

  // ----- leading zeros -----

  /** The number of bits up to the highest set one. */
  function Bits(x: nat): nat {
    if x == 0 then 0 else 1 + Bits(x / 2)
  }

  lemma {:induction false} BitsBound(x: nat)
    requires x > 0
    ensures Bits(x) > 0 && Pow2(Bits(x) - 1) <= x < Pow2(Bits(x))
  {
    if x > 1 { BitsBound(x / 2); }
  }

  lemma WordBits(x: word)
    ensures Bits(x) <= 64
  {
    if x > 0 {
      BitsBound(x);
      Pow2Word();
      if Bits(x) > 64 { Pow2Monotone(64, Bits(x) - 1); }
    }
  }

  /** clz of the source: of the high word, or 64 more than that of the low word. */
  function Clz(x: U128): (z: nat)
    requires Value(x) > 0
    ensures z < 128
  {
    WordBits(x.high);
    WordBits(x.low);
    if x.high != 0 then 64 - Bits(x.high) else 64 + (64 - Bits(x.low))
  }

  /** The leading zeros place a value between two powers of two. */
  lemma ClzBound(x: U128)
    requires Value(x) > 0
    ensures Pow2(127 - Clz(x)) <= Value(x) < Pow2(128 - Clz(x))
  {
    hide Mul, Pow2, Bits;
    WordBits(x.high);
    WordBits(x.low);
    if x.high != 0 {
      var b := Bits(x.high);
      BitsBound(x.high);
      Pow2Word();
      Pow2Add(b - 1, 64);
      Pow2Add(b, 64);
      MulWord(Pow2(b - 1));
      MulWord(Pow2(b));
      assert Value(x) < Pow2(b) * WORD;
    } else {
      BitsBound(x.low);
    }
  }

  /** A larger value has no more leading zeros. */
  lemma ClzOrder(x: U128, y: U128)
    requires 0 < Value(y) <= Value(x)
    ensures Clz(x) <= Clz(y)
  {
    hide Pow2, Clz;
    ClzBound(x);
    ClzBound(y);
    if Clz(x) > Clz(y) { Pow2Monotone(128 - Clz(x), 127 - Clz(y)); }
  }

  // ----- long division -----

  /** The shifted divisor fits, and is more than half the dividend. */
  lemma Aligned(n: U128, d: U128)
    requires 0 < Value(d) <= Value(n)
    ensures Clz(n) <= Clz(d)
    ensures var z := Clz(d) - Clz(n);
      Mul(Value(d), Pow2(z)) == Value(Shl(d, z)) && Value(n) < 2 * Value(Shl(d, z))
  {
    hide Mul, Pow2, Clz, Shl, Count;
    ClzOrder(n, d);
    var e, z := Clz(n), Clz(d) - Clz(n);
    ClzBound(n);
    ClzBound(d);
    Pow2Add(127 - Clz(d), z);
    Pow2Add(128 - Clz(d), z);
    MulBelow(Value(d), Pow2(128 - Clz(d)), Pow2(z));
    if Pow2(127 - Clz(d)) < Value(d) { MulBelow(Pow2(127 - Clz(d)), Value(d), Pow2(z)); }
    TopPower(e);
    MulNat(Value(d), Pow2(z));
    ShlValue(d, z);
    ModOnce(Mul(Value(d), Pow2(z)), ALL);
  }

  lemma TopPower(e: nat)
    requires e < 128
    ensures Pow2(128 - e) <= ALL && Pow2(128 - e) == 2 * Pow2(127 - e)
  {
    hide Mul, Pow2;
    Pow2Monotone(128 - e, 128);
    Pow2Add(64, 64);
    Pow2Word();
    MulWord(WORD);
    Pow2Step(127 - e);
  }

  lemma Pow2Step(k: nat)
    ensures Pow2(k + 1) == 2 * Pow2(k)
  {
  }

  /** `q |= 1`. */
  function WithLowBit(q: U128): U128 {
    OrWord(q.high, 0);
    OrWord(q.low, 1);
    U128(Or(q.high, 0), Or(q.low, 1))
  }

  lemma SetLowBit(q: U128)
    requires q.low % 2 == 0
    ensures Value(WithLowBit(q)) == Value(q) + 1
  {
    hide Mul;
    OrZero(q.high);
    TwiceIs(q.low / 2);
    OrDisjoint(q.low / 2, 1, 1);
  }

  /** Both numbers in one word: the machine's own division. */
  lemma WordDivision(n: U128, d: U128)
    requires n.high == 0 && 0 < Value(d) <= Value(n)
    ensures d.high == 0 && d.low > 0
    ensures 0 <= n.low / d.low < WORD && 0 <= n.low % d.low < WORD
    ensures n.low == Value(n) && d.low == Value(d)
  {
    hide Mul;
    DivSmaller(n.low, d.low);
    EuclidDivision(n.low, d.low);
  }

  /** Division and remainder, one bit of the quotient per round. */
  method SlowDiv(dividend: U128, divisor: U128) returns (quot: U128, rem: U128)
    requires Value(divisor) > 0
    ensures Value(quot) == Value(dividend) / Value(divisor)
    ensures Value(rem) == Value(dividend) % Value(divisor)
  {
    ghost var n, d := Value(dividend), Value(divisor);
    quot, rem := U128(0, 0), dividend;
    LessValue(dividend, divisor);
    if Less(dividend, divisor) {
      MulOne(d);
      DivUnique(n, d, 0, n);
      return;
    }
    if dividend.high == 0 {
      WordDivision(dividend, divisor);
      quot, rem := U128(0, dividend.low / divisor.low), U128(0, dividend.low % divisor.low);
      return;
    }
    quot, rem := BitByBit(dividend, divisor);
  }

  /** The loop: align the divisor with the dividend, then subtract and halve. */
  method BitByBit(dividend: U128, divisor: U128) returns (quot: U128, rem: U128)
    requires 0 < Value(divisor) <= Value(dividend)
    ensures Value(quot) == Value(dividend) / Value(divisor)
    ensures Value(rem) == Value(dividend) % Value(divisor)
  {
    hide Mul, Pow2, Clz, Shl, Shr, Sub, Less, Value, WithLowBit;
    ghost var n, d := Value(dividend), Value(divisor);
    quot, rem := U128(0, 0), dividend;
    Aligned(dividend, divisor);
    // The source gives up here when the dividend has more leading zeros; it never has.
    var z: nat := Clz(divisor) - Clz(dividend);
    var aligned := Shl(divisor, z);
    MulOne(Value(aligned));
    ZeroValue();
    while true
      invariant Value(aligned) == Mul(d, Pow2(z))
      invariant n == Mul(Value(quot), Value(aligned)) + Value(rem)
      invariant Value(rem) < 2 * Value(aligned)
      invariant quot.low % 2 == 0
      decreases z
    {
      LessValue(rem, aligned);
      if !Less(rem, aligned) {
        SubValue(rem, aligned);
        SetLowBit(quot);
        MulAdd(Value(quot), 1, Value(aligned));
        MulOne(Value(aligned));
        rem, quot := Sub(rem, aligned), WithLowBit(quot);
      }
      if z == 0 {
        UnitShift(d);
        DivUnique(n, d, Value(quot), Value(rem));
        return;
      }
      NextRound(dividend, d, z, quot, aligned, Value(rem));
      z := z - 1;
      aligned, quot := Shr(aligned, 1), Shl(quot, 1);
    }
  }

  lemma ZeroValue()
    ensures Value(U128(0, 0)) == 0
  {
  }

  lemma UnitShift(d: int)
    ensures Mul(d, Pow2(0)) == d
  {
  }

  /** Halving the divisor and doubling the quotient keeps their product. */
  lemma NextRound(dividend: U128, d: nat, z: nat, quot: U128, aligned: U128, r: nat)
    requires z > 0 && d > 0 && Value(aligned) == Mul(d, Pow2(z))
    requires Value(dividend) == Mul(Value(quot), Value(aligned)) + r
    ensures Value(Shr(aligned, 1)) == Mul(d, Pow2(z - 1))
    ensures Value(aligned) == 2 * Value(Shr(aligned, 1))
    ensures Value(Shl(quot, 1)) == 2 * Value(quot) && Shl(quot, 1).low % 2 == 0
    ensures Value(dividend) == Mul(Value(Shl(quot, 1)), Value(Shr(aligned, 1))) + r
  {
    hide Value, Mul, Shl, Shr, Count, Pow2;
    var q, h := Value(quot), Mul(d, Pow2(z - 1));
    HalfDivisor(d, z);
    HalvedIs(aligned, h);
    DoubledFits(q, h, Value(aligned), dividend, r);
    DoubledIs(quot);
  }

  lemma HalfDivisor(d: nat, z: nat)
    requires z > 0 && d > 0
    ensures Mul(d, Pow2(z)) == 2 * Mul(d, Pow2(z - 1)) && Mul(d, Pow2(z - 1)) > 0
  {
    hide Mul;
    MulComm(d, Pow2(z));
    MulComm(d, Pow2(z - 1));
    MulAdd(Pow2(z - 1), Pow2(z - 1), d);
    MulNat(Pow2(z - 1), d);
  }

  lemma HalvedIs(x: U128, h: nat)
    requires Value(x) == 2 * h
    ensures Value(Shr(x, 1)) == h
  {
    hide Shr, Value, Pow2, Count;
    ShrValue(x, 1);
    Pow2One();
  }

  lemma DoubledIs(x: U128)
    requires 2 * Value(x) < ALL
    ensures Value(Shl(x, 1)) == 2 * Value(x) && Shl(x, 1).low % 2 == 0
  {
    hide Shl, Mul, Value, Pow2, Count;
    ShlValue(x, 1);
    assert Pow2(1) == 2 by { Pow2One(); }
    TwiceIs(Value(x));
    ModOnce(2 * Value(x), ALL);
    EvenLow(Shl(x, 1), Value(x));
  }

  lemma Pow2One()
    ensures Pow2(1) == 2
  {
  }

  lemma EvenLow(x: U128, h: nat)
    requires Value(x) == 2 * h
    ensures x.low % 2 == 0
  {
  }

  lemma DoubledFits(q: nat, h: nat, a: nat, dividend: U128, r: nat)
    requires h > 0 && a == 2 * h && Value(dividend) == Mul(q, a) + r
    ensures 2 * q < ALL && Mul(2 * q, h) == Mul(q, a)
  {
    hide Mul;
    MulComm(q, a);
    MulAdd(h, h, q);
    MulComm(h, q);
    MulAdd(q, q, h);
    MulComm(2 * q, h);
    MulNat(h, 2 * q);
  }

  lemma TwiceIs(q: int)
    ensures Mul(q, 2) == 2 * q
  {
  }

  method Div(dividend: U128, divisor: U128) returns (r: Option<U128>)
    ensures r.None? <==> Value(divisor) == 0
    ensures r.Some? ==> Value(r.value) == Value(dividend) / Value(divisor)
  {
    if divisor == U128(0, 0) { return None; }
    var quot, rem := SlowDiv(dividend, divisor);
    return Some(quot);
  }

  method Mod(dividend: U128, divisor: U128) returns (r: Option<U128>)
    ensures r.None? <==> Value(divisor) == 0
    ensures r.Some? ==> Value(r.value) == Value(dividend) % Value(divisor)
  {
    if divisor == U128(0, 0) { return None; }
    var quot, rem := SlowDiv(dividend, divisor);
    return Some(rem);
  }

  /**
    Three base-`base` digits of a value. They give the value back exactly when
    the leading one fits a word.
   */
  method PartDiv(value: U128, base: word) returns (high: word, mid: word, low: word)
    requires base > 0
    ensures low < base && mid < base
    ensures Value(value) == Mul(Mul(high, base) + mid, base) + low <==> Value(value) / base / base < WORD
  {
    hide Value, Mul;
    BaseValue(base);
    var md, l := SlowDiv(value, OfWord(base));
    var hh, m := SlowDiv(md, OfWord(base));
    LowOnly(l, base);
    LowOnly(m, base);
    LowOfHigh(hh);
    ThreeDigits(Value(value), base, hh.low);
    low, mid, high := l.low, m.low, hh.low;
  }

  lemma BaseValue(base: word)
    ensures Value(OfWord(base)) == base
  {
  }

  /** A value below a word is its low word. */
  lemma LowOnly(x: U128, base: word)
    requires Value(x) < base
    ensures x.low == Value(x)
  {
  }

  lemma LowOfHigh(x: U128)
    ensures x.low == Value(x) <==> Value(x) < WORD
  {
  }

  /** Three digits give the number back exactly when the leading one is right. */
  lemma ThreeDigits(v: nat, base: nat, high: nat)
    requires base > 0
    ensures v == Mul(Mul(high, base) + v / base % base, base) + v % base <==> high == v / base / base
  {
    hide Mul;
    EuclidDivision(v, base);
    EuclidDivision(v / base, base);
    if v == Mul(Mul(high, base) + v / base % base, base) + v % base {
      CancelFactor(Mul(high, base) + v / base % base, v / base, base);
      CancelFactor(high, v / base / base, base);
    }
  }

  /** In base ten the largest value has a leading digit that does not fit: its three digits lose it. */
  lemma TenLosesTheLargest(high: word)
    ensures var v := Value(U128(WORD - 1, WORD - 1));
      v / 10 / 10 >= WORD && v != Mul(Mul(high, 10) + v / 10 % 10, 10) + v % 10
  {
    hide Mul;
    ThreeDigits(Value(U128(WORD - 1, WORD - 1)), 10, high);
  }

  /** Any base from 2^32 up has a leading digit that fits. */
  lemma DigitsFit(v: nat, base: word)
    requires v < ALL && base >= HALF
    ensures 0 <= v / base / base < WORD
  {
    hide Mul;
    var q, h := v / base, v / base / base;
    EuclidDivision(v, base);
    EuclidDivision(q, base);
    MulAdd(Mul(h, base), q % base, base);
    MulAssoc(h, base, base);
    MulNat(q % base, base);
    MulWord(HALF);
    if base > HALF { MulBelow(HALF, base, base); MulBelow(HALF, base, HALF); MulComm(HALF, base); }
    if h >= WORD {
      MulComm(h, Mul(base, base));
      MulAdd(h, WORD, Mul(base, base));
      MulNat(h - WORD, Mul(base, base));
      MulComm(WORD, Mul(base, base));
      MulWord(Mul(base, base));
      MulComm(h, Mul(base, base));
    }
  }
}
