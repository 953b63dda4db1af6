/**
  128-bit unsigned arithmetic on two 64-bit words (lib/util/uint128_t.h:293-310
  and 550-685, the portable delegate).
 */
module UInt128 {
  import opened Arith
  import opened BitStrings

  const HALF: nat := 0x1_0000_0000
  const WORD: nat := 0x1_0000_0000_0000_0000
  const ALL: nat := 0x1_0000_0000_0000_0000_0000_0000_0000_0000

  type word = x: int | 0 <= x < WORD

  datatype U128 = U128(high: word, low: word)

  function Value(x: U128): nat {
    x.high * WORD + x.low
  }

  function OfWord(x: word): U128 {
    U128(0, x)
  }

  // ----- machine words -----

  function Wrap(x: int): word {
    x % WORD
  }

  /** `x << k`, `x >> k` on a word, for k < 64. */
  function ShlWord(x: word, k: nat): word {
    Wrap(Mul(x, Pow2(k)))
  }

  function ShrWord(x: word, k: nat): (r: word) {
    EuclidDivision(x, Pow2(k));
    MulNat(x / Pow2(k), Pow2(k));
    DivSmaller(x, Pow2(k));
    x / Pow2(k)
  }

  lemma DivSmaller(x: nat, d: nat)
    requires d > 0
    ensures 0 <= x / d <= x
  {
    hide Mul;
    EuclidDivision(x, d);
    MulComm(x / d, d);
    MulNat(d, x / d);
  }

  /** Or of numbers without common bits is their sum. */
  lemma {:induction false} OrDisjoint(q: nat, y: nat, k: nat)
    requires y < Pow2(k)
    ensures Or(Mul(q, Pow2(k)), y) == Mul(q, Pow2(k)) + y
    decreases k
  {
    hide Mul;
    var x := Mul(q, Pow2(k));
    MulNat(q, Pow2(k));
    if k == 0 {
      MulComm(q, 1);
      MulOne(q);
      OrZero(q);
    } else {
      MulComm(q, Pow2(k));
      MulComm(q, Pow2(k - 1));
      MulAdd(Pow2(k - 1), Pow2(k - 1), q);
      assert x == 2 * Mul(q, Pow2(k - 1));
      OrDisjoint(q, y / 2, k - 1);
    }
  }

  lemma {:induction false} OrZero(x: nat)
    ensures Or(x, 0) == x
  {
    if x > 0 { OrZero(x / 2); }
  }

  // ----- sum and difference -----

  function Add(l: U128, r: U128): U128 {
    U128(Wrap(l.high + r.high + (if Wrap(l.low + r.low) < l.low then 1 else 0)), Wrap(l.low + r.low))
  }

  function Sub(l: U128, r: U128): U128 {
    U128(Wrap(l.high - r.high - (if l.low < r.low then 1 else 0)), Wrap(l.low - r.low))
  }

  predicate Less(l: U128, r: U128) {
    l.high < r.high || (l.high == r.high && l.low < r.low)
  }

  /** The sum modulo 2^128, with the carry read off the wrapped low word. */
  lemma AddValue(l: U128, r: U128)
    ensures Value(Add(l, r)) == (Value(l) + Value(r)) % ALL
    ensures Value(l) + Value(r) < ALL ==> Value(Add(l, r)) == Value(l) + Value(r)
  {
    ModOnce(l.low + r.low, WORD);
    var carry := if Wrap(l.low + r.low) < l.low then 1 else 0;
    ModOnce(l.high + r.high + carry, WORD);
    ModOnce(Value(l) + Value(r), ALL);
  }

  /** The difference modulo 2^128, with the borrow read off the low words. */
  lemma SubValue(l: U128, r: U128)
    ensures Value(Sub(l, r)) == (Value(l) - Value(r)) % ALL
    ensures Value(l) >= Value(r) ==> Value(Sub(l, r)) == Value(l) - Value(r)
  {
    ModOnce(l.low - r.low, WORD);
    var borrow := if l.low < r.low then 1 else 0;
    ModOnce(l.high - r.high - borrow, WORD);
    ModOnce(Value(l) - Value(r), ALL);
  }

  /** cmp orders words as it orders values. */
  lemma LessValue(l: U128, r: U128)
    ensures Less(l, r) <==> Value(l) < Value(r)
  {
  }

  // ----- shifts -----

  /** Only the low seven bits of a shift count matter. */
  function Count(k: nat): (c: nat)
    ensures c < 128 && (k < 128 ==> c == k)
  {
    k % 128
  }

  function Shl(x: U128, k: nat): U128 {
    var c := Count(k);
    if c >= 64 then U128(ShlWord(x.low, c - 64), 0)
    else if c != 0 then
      OrWord(ShlWord(x.high, c), ShrWord(x.low, 64 - c));
      U128(Or(ShlWord(x.high, c), ShrWord(x.low, 64 - c)), ShlWord(x.low, c))
    else x
  }

  function Shr(x: U128, k: nat): U128 {
    var c := Count(k);
    if c >= 64 then U128(0, ShrWord(x.high, c - 64))
    else if c != 0 then
      OrWord(ShlWord(x.high, 64 - c), ShrWord(x.low, c));
      U128(ShrWord(x.high, c), Or(ShlWord(x.high, 64 - c), ShrWord(x.low, c)))
    else x
  }

  lemma OrWord(x: word, y: word)
    ensures Or(x, y) < WORD
  {
    Pow2Word();
    OrBound(x, y, 64);
  }

  lemma Pow2Word()
    ensures Pow2(32) == HALF && Pow2(64) == WORD
  {
    assert Pow2(8) == 0x100;
    assert Pow2(16) == 0x10000;
    assert Pow2(24) == 0x1000000;
    assert Pow2(32) == HALF;
    assert Pow2(40) == 0x100 * HALF;
    assert Pow2(48) == 0x10000 * HALF;
    assert Pow2(56) == 0x1000000 * HALF;
  }

  lemma MulWord(x: int)
    ensures Mul(x, WORD) == x * WORD && Mul(x, HALF) == x * HALF
  {
  }

  /** Shifting a word left splits it: what leaves on the left, and what stays. */
  lemma WordShl(x: word, k: nat)
    requires 0 < k < 64
    ensures Mul(x, Pow2(k)) == (x / Pow2(64 - k)) * WORD + ShlWord(x, k)
    ensures ShlWord(x, k) == Mul(x % Pow2(64 - k), Pow2(k))
    ensures 0 <= x / Pow2(64 - k) < Pow2(k) && 0 <= x % Pow2(64 - k)
  {
    hide Mul, Pow2;
    var t, p := Pow2(64 - k), Pow2(k);
    var a, b := x / t, x % t;
    EuclidDivision(x, t);
    Pow2Word();
    Pow2Add(64 - k, k);
    assert Mul(t, p) == WORD;
    MulAdd(Mul(a, t), b, p);
    MulAssoc(a, t, p);
    MulWord(a);
    assert Mul(x, p) == a * WORD + Mul(b, p);
    MulNat(b, p);
    MulBelow(b, t, p);
    DivUnique(Mul(x, p), WORD, a, Mul(b, p));
    QuotientBelow(x, a, t, p);
  }

  /** Left shift is multiplication by 2^k modulo 2^128. */
  lemma ShlValue(x: U128, k: nat)
    ensures Value(Shl(x, k)) == Mul(Value(x), Pow2(Count(k))) % ALL
  {
    hide Mul, Pow2, Or, ShlWord, Count;
    var c := Count(k);
    if c == 0 {
      ShlNothing(x);
    } else if c < 64 {
      ShlShort(x, c);
    } else {
      ShlLong(x, c);
    }
  }

  lemma ShlNothing(x: U128)
    ensures Mul(Value(x), Pow2(0)) % ALL == Value(x)
  {
    hide Mul;
    MulComm(Value(x), 1);
    MulOne(Value(x));
    ModOnce(Value(x), ALL);
  }

  /** The product of a value and a factor, word by word. */
  lemma MulValue(x: U128, p: int)
    ensures Mul(Value(x), p) == Mul(x.high, p) * WORD + Mul(x.low, p)
  {
    hide Mul;
    MulAdd(x.high * WORD, x.low, p);
    MulWord(x.high);
    MulComm(x.high, WORD);
    MulAssoc(WORD, x.high, p);
    MulComm(WORD, Mul(x.high, p));
    MulWord(Mul(x.high, p));
  }

  lemma MulAll(x: int)
    ensures Mul(x, ALL) == x * WORD * WORD
  {
    assert ALL == WORD * WORD;
  }

  lemma ShlShort(x: U128, k: nat)
    requires 0 < k < 64
    ensures Value(Shl(x, k)) == Mul(Value(x), Pow2(k)) % ALL
  {
    hide Mul, Pow2, Or, ShlWord;
    var p := Pow2(k);
    WordShl(x.high, k);
    WordShl(x.low, k);
    var q, r := x.high / Pow2(64 - k), x.high % Pow2(64 - k);
    var carry := x.low / Pow2(64 - k);
    OrDisjoint(r, carry, k);
    OrWord(ShlWord(x.high, k), carry);
    MulValue(x, p);
    MulAll(q);
    DivUnique(Mul(Value(x), p), ALL, q, (ShlWord(x.high, k) + carry) * WORD + ShlWord(x.low, k));
  }

  lemma ShlLong(x: U128, k: nat)
    requires 64 <= k < 128
    ensures Value(Shl(x, k)) == Mul(Value(x), Pow2(k)) % ALL
  {
    hide Mul, Pow2, ShlWord;
    var p := Pow2(k - 64);
    Pow2Add(k - 64, 64);
    Pow2Word();
    MulAssoc(Value(x), p, WORD);
    MulWord(Mul(Value(x), p));
    MulValue(x, p);
    var out: int;
    if k == 64 {
      WordUnshifted(x.low);
      out := 0;
    } else {
      WordShl(x.low, k - 64);
      out := x.low / Pow2(128 - k);
    }
    MulAll(Mul(x.high, p) + out);
    DivUnique(Mul(Value(x), Pow2(k)), ALL, Mul(x.high, p) + out, ShlWord(x.low, k - 64) * WORD);
  }

  lemma WordUnshifted(x: word)
    ensures Pow2(0) == 1 && Mul(x, Pow2(0)) == x && ShlWord(x, 0) == x
  {
    ModOnce(x, WORD);
  }

  /** Right shift is division by 2^k, rounding down. */
  lemma ShrValue(x: U128, k: nat)
    ensures Value(Shr(x, k)) == Value(x) / Pow2(Count(k))
  {
    hide Mul, Pow2, Or, ShlWord, Count;
    var c := Count(k);
    if c == 0 {
      WordUnshifted(0);
    } else if c < 64 {
      ShrShort(x, c);
    } else {
      ShrLong(x, c);
    }
  }

  lemma ShrLong(x: U128, k: nat)
    requires 64 <= k < 128
    ensures Value(Shr(x, k)) == Value(x) / Pow2(k)
  {
    hide Mul, Pow2;
    var p := Pow2(k - 64);
    EuclidDivision(x.high, p);
    Pow2Word();
    Pow2Add(k - 64, 64);
    MulWord(p);
    var q, r := x.high / p, x.high % p;
    MulWord(Mul(q, p));
    MulAssoc(q, p, WORD);
    DivUnique(Value(x), Pow2(k), q, r * WORD + x.low);
  }

  lemma ShrShort(x: U128, k: nat)
    requires 0 < k < 64
    ensures Value(Shr(x, k)) == Value(x) / Pow2(k)
  {
    hide Mul, Pow2, Or, ShlWord;
    var p, t := Pow2(k), Pow2(64 - k);
    WordShl(x.high, 64 - k);
    WordShl(x.low, 64 - k);
    assert 64 - (64 - k) == k;
    var hq, hr, lq, lr := x.high / p, x.high % p, x.low / p, x.low % p;
    EuclidDivision(x.high, p);
    EuclidDivision(x.low, p);
    OrDisjoint(hr, lq, 64 - k);
    OrWord(ShlWord(x.high, 64 - k), lq);
    Pow2Word();
    Pow2Add(64 - k, k);
    MulAssoc(hr, t, p);
    MulWord(hr);
    MulAdd(hq * WORD, Mul(hr, t), p);
    MulAdd(hq * WORD + Mul(hr, t), lq, p);
    MulScaled(hq, p);
    DivUnique(Value(x), p, hq * WORD + Mul(hr, t) + lq, lr);
  }

  lemma MulScaled(q: int, p: int)
    ensures Mul(q * WORD, p) == Mul(q, p) * WORD
  {
    hide Mul;
    MulWord(q);
    MulComm(q, WORD);
    MulAssoc(WORD, q, p);
    MulComm(WORD, Mul(q, p));
    MulWord(Mul(q, p));
  }
}
