/**
  The word-packed bit set (lib/util/cbitset.h:70-143, 208-237 and
  lib/util/cbitset.c:86-146, 156-178): in-place updates against the set of
  numbers the words stand for.
 */
module CBitset {
  import opened Wrappers
  import opened Arith
  import opened BitStrings
  import opened UInt128

  /** `x << n` and `x >> n` on a word. */
  function WordLeft(x: word, n: nat): word {
    Pow2Word();
    LowBound(Left(x, n), 64);
    Low(Left(x, n), 64)
  }

  function WordRight(x: word, n: nat): word {
    RightBound(x, n);
    Right(x, n)
  }

  function WordOr(x: word, y: word): word {
    OrWord(x, y);
    Or(x, y)
  }

  /** Number x is in the set. */
  predicate Holds(words: seq<word>, x: nat) {
    x / 64 < |words| && Bit(words[x / 64], x % 64)
  }

  /** The same, by word and bit. */
  predicate BitOf(words: seq<word>, i: int, k: nat) {
    0 <= i < |words| && Bit(words[i], k)
  }

  /** The set moved up by s. */
  ghost predicate MovedUp(before: seq<word>, after: seq<word>, s: nat) {
    forall x: nat :: Holds(after, x) <==> x >= s && Holds(before, x - s)
  }

  /** The set moved down by s, dropping what falls below zero. */
  ghost predicate MovedDown(before: seq<word>, after: seq<word>, s: nat) {
    forall x: nat :: Holds(after, x) <==> Holds(before, x + s)
  }

  /** Word i of the set moved up by `extra` words and `shift` bits. */
  function UpWord(before: seq<word>, extra: nat, shift: nat, i: nat): word
    requires shift < 64 && i < |before| + extra + (if shift == 0 then 0 else 1)
    requires |before| > 0 || shift == 0
  {
    if i < extra then 0
    else if shift == 0 then before[i - extra]
    else if i == extra then WordLeft(before[0], shift)
    else if i == extra + |before| then WordRight(before[|before| - 1], 64 - shift)
    else WordOr(WordLeft(before[i - extra], shift), WordRight(before[i - 1 - extra], 64 - shift))
  }

  lemma UpWordBit(before: seq<word>, extra: nat, shift: nat, i: nat, k: nat)
    requires shift < 64 && k < 64 && i < |before| + extra + (if shift == 0 then 0 else 1)
    requires |before| > 0 || shift == 0
    ensures Bit(UpWord(before, extra, shift, i), k) <==>
            if k >= shift then BitOf(before, i - extra, k - shift) else BitOf(before, i - extra - 1, 64 - shift + k)
  {
    hide Bit, WordLeft, WordRight, WordOr;
    BitZero(k);
    if i >= extra && shift > 0 {
      if i < extra + |before| { LeftBit(before[i - extra], shift, k); }
      if i > extra { RightBit(before[i - 1 - extra], 64 - shift, k); }
      if extra < i < extra + |before| {
        OrBit(WordLeft(before[i - extra], shift), WordRight(before[i - 1 - extra], 64 - shift), k);
      }
    }
  }

  lemma LeftBit(x: word, n: nat, k: nat)
    requires k < 64
    ensures Bit(WordLeft(x, n), k) <==> k >= n && Bit(x, k - n)
  {
    hide Bit, Low, Left;
    BitLow(Left(x, n), 64, k);
    BitLeft(x, n, k);
  }

  lemma RightBit(x: word, n: nat, k: nat)
    ensures Bit(WordRight(x, n), k) <==> n + k < 64 && Bit(x, n + k)
  {
    hide Bit, Right, Pow2;
    BitRight(x, n, k);
    Pow2Word();
    if n + k >= 64 { BitAbove(x, 64, n + k); }
  }

  lemma OrBit(x: word, y: word, k: nat)
    ensures Bit(WordOr(x, y), k) <==> Bit(x, k) || Bit(y, k)
  {
    BitOr(x, y, k);
  }

  /** Words made of UpWord move the set up. */
  lemma UpWordsMove(before: seq<word>, after: seq<word>, s: nat)
    requires |after| == |before| + s / 64 + (if s % 64 == 0 then 0 else 1) && (|before| > 0 || s % 64 == 0)
    requires forall i :: 0 <= i < |after| ==> after[i] == UpWord(before, s / 64, s % 64, i)
    ensures MovedUp(before, after, s)
  {
    hide Bit, UpWord;
    forall x: nat ensures Holds(after, x) <==> x >= s && Holds(before, x - s) {
      UpAt(before, after, s, x);
    }
  }

  lemma UpAt(before: seq<word>, after: seq<word>, s: nat, x: nat)
    requires |after| == |before| + s / 64 + (if s % 64 == 0 then 0 else 1) && (|before| > 0 || s % 64 == 0)
    requires forall i :: 0 <= i < |after| ==> after[i] == UpWord(before, s / 64, s % 64, i)
    ensures Holds(after, x) <==> x >= s && Holds(before, x - s)
  {
    hide Bit, UpWord;
    var i, k := x / 64, x % 64;
    if i < |after| { UpWordBit(before, s / 64, s % 64, i, k); }
    if k >= s % 64 {
      assert x >= s <==> i >= s / 64;
      if x >= s { assert (x - s) / 64 == i - s / 64 && (x - s) % 64 == k - s % 64; }
    } else {
      assert x >= s <==> i >= s / 64 + 1;
      if x >= s { assert (x - s) / 64 == i - s / 64 - 1 && (x - s) % 64 == 64 - s % 64 + k; }
    }
  }

  /** Word i of the set moved down by `extra` words and `shift` bits. */
  function DownWord(before: seq<word>, extra: nat, shift: nat, i: nat): word
    requires shift < 64 && i + extra < |before|
  {
    if shift == 0 then before[i + extra]
    else if i + extra == |before| - 1 then WordRight(before[|before| - 1], shift)
    else WordOr(WordRight(before[i + extra], shift), WordLeft(before[i + extra + 1], 64 - shift))
  }

  lemma DownWordBit(before: seq<word>, extra: nat, shift: nat, i: nat, k: nat)
    requires shift < 64 && k < 64 && i + extra < |before|
    ensures Bit(DownWord(before, extra, shift, i), k) <==>
            if k + shift < 64 then BitOf(before, i + extra, k + shift) else BitOf(before, i + extra + 1, k + shift - 64)
  {
    hide Bit, WordLeft, WordRight, WordOr;
    if shift > 0 {
      RightBit(before[i + extra], shift, k);
      if i + extra + 1 < |before| {
        LeftBit(before[i + extra + 1], 64 - shift, k);
        OrBit(WordRight(before[i + extra], shift), WordLeft(before[i + extra + 1], 64 - shift), k);
      }
    }
  }

  lemma DownWordsMove(before: seq<word>, after: seq<word>, s: nat)
    requires |after| + s / 64 == |before|
    requires forall i :: 0 <= i < |after| ==> after[i] == DownWord(before, s / 64, s % 64, i)
    ensures MovedDown(before, after, s)
  {
    hide Bit, DownWord;
    forall x: nat ensures Holds(after, x) <==> Holds(before, x + s) {
      DownAt(before, after, s, x);
    }
  }

  lemma DownAt(before: seq<word>, after: seq<word>, s: nat, x: nat)
    requires |after| + s / 64 == |before|
    requires forall i :: 0 <= i < |after| ==> after[i] == DownWord(before, s / 64, s % 64, i)
    ensures Holds(after, x) <==> Holds(before, x + s)
  {
    hide Bit, DownWord;
    var i, k := x / 64, x % 64;
    if i < |after| { DownWordBit(before, s / 64, s % 64, i, k); }
    if k + s % 64 < 64 {
      assert (x + s) / 64 == i + s / 64 && (x + s) % 64 == k + s % 64;
    } else {
      assert (x + s) / 64 == i + s / 64 + 1 && (x + s) % 64 == k + s % 64 - 64;
    }
  }

  /** Shifting down undoes shifting up. */
  lemma ShiftsCancel(first: seq<word>, second: seq<word>, third: seq<word>, s: nat)
    requires MovedUp(first, second, s) && MovedDown(second, third, s)
    ensures MovedUp(first, third, 0)
  {
    hide Holds;
    forall x: nat ensures Holds(third, x) <==> Holds(first, x) {
      assert Holds(third, x) <==> Holds(second, x + s);
      assert Holds(second, x + s) <==> Holds(first, x + s - s);
    }
  }

  // ----- the lowest bit -----

  /** Trailing zeros: the place of the lowest set bit. */
  function Ctz(w: nat): (k: nat)
    requires w > 0
    ensures Bit(w, k) && forall j: nat :: j < k ==> !Bit(w, j)
  {
    if w % 2 == 1 then 0
    else
      var k := Ctz(w / 2);
      assert forall j: nat :: j < k + 1 ==> !Bit(w, j) by {
        forall j: nat | j < k + 1 ensures !Bit(w, j) {
          if j > 0 { assert !Bit(w / 2, j - 1); }
        }
      }
      1 + k
  }

  /** No element in [from, to). */
  ghost predicate Gap(words: seq<word>, from: nat, to: nat) {
    forall x: nat :: from <= x < to ==> !Holds(words, x)
  }

  /** The rest of word i / 64 from bit i % 64 up, read off the shifted word. */
  lemma RestOfWord(words: seq<word>, i: nat)
    requires i / 64 < |words|
    ensures var w := WordRight(words[i / 64], i % 64);
      && (w == 0 ==> Gap(words, i, 64 * (i / 64 + 1)))
      && (w > 0 ==> Holds(words, i + Ctz(w)) && Gap(words, i, i + Ctz(w)))
  {
    hide Bit, WordRight;
    var w, b := WordRight(words[i / 64], i % 64), 64 * (i / 64);
    forall k: nat ensures Bit(w, k) <==> i % 64 + k < 64 && Bit(words[i / 64], i % 64 + k) {
      RightBit(words[i / 64], i % 64, k);
    }
    var end := if w == 0 then b + 64 else i + Ctz(w);
    forall x: nat | i <= x < end ensures !Holds(words, x) {
      BitZero(x - i);
      assert !Bit(w, x - i);
      if x < b + 64 { assert x / 64 == i / 64 && x % 64 == i % 64 + (x - i); }
    }
    if w > 0 {
      var k := Ctz(w);
      assert i % 64 + k < 64 && Bit(words[i / 64], i % 64 + k);
      assert (i + k) / 64 == i / 64 && (i + k) % 64 == i % 64 + k;
    }
  }

  /** Memory as it was found: only its extent is known. */
  method Uninitialised(size: nat) returns (found: seq<word>)
    ensures |found| == size
  {
    found := seq(size, i => WORD - 1);
  }

  class Bitset {
    var words: seq<word>

    /** bitset_resize: keeps the common part; new words are zero only when asked. */
    method Resize(size: nat, padWithZeroes: bool)
      modifies this
      ensures |words| == size
      ensures forall i :: 0 <= i < size && i < |old(words)| ==> words[i] == old(words)[i]
      ensures padWithZeroes ==> forall i :: |old(words)| <= i < size ==> words[i] == 0
    {
      if size <= |words| {
        words := words[..size];
      } else {
        var more := size - |words|;
        var added: seq<word> := seq(more, i => 0);
        if !padWithZeroes {
          added := Uninitialised(more);
        }
        words := words + added;
      }
    }

    /** bitset_shift_left by whole words. */
    method MoveWords(extra: nat)
      modifies this
      ensures |words| == |old(words)| + extra
      ensures forall j :: extra <= j < |words| ==> words[j] == UpWord(old(words), extra, 0, j)
    {
      var size := |words|;
      ghost var before := words;
      Resize(size + extra, false);
      var i := size + extra;
      while i > extra
        invariant extra <= i <= size + extra == |words|
        invariant forall j :: 0 <= j < i - extra ==> words[j] == before[j]
        invariant forall j :: i <= j < |words| ==> words[j] == UpWord(before, extra, 0, j)
      {
        words := words[i - 1 := words[i - 1 - extra]];
        i := i - 1;
      }
    }

    /** bitset_shift_left by words and a part of a word. */
    method MoveBits(extra: nat, shift: nat)
      requires 0 < shift < 64 && |words| > 0
      modifies this
      ensures |words| == |old(words)| + extra + 1
      ensures forall j :: extra <= j < |words| ==> words[j] == UpWord(old(words), extra, shift, j)
    {
      hide WordLeft, WordRight, WordOr;
      var size := |words|;
      ghost var before := words;
      Resize(size + extra + 1, true);
      words := words[size + extra := WordRight(words[size - 1], 64 - shift)];
      var i := size + extra;
      while i >= extra + 2
        invariant extra + 1 <= i <= size + extra < |words| == size + extra + 1
        invariant forall j :: 0 <= j < i - extra ==> words[j] == before[j]
        invariant forall j :: i <= j < |words| ==> words[j] == UpWord(before, extra, shift, j)
      {
        words := words[i - 1 := WordOr(WordLeft(words[i - 1 - extra], shift), WordRight(words[i - 2 - extra], 64 - shift))];
        i := i - 1;
      }
      words := words[extra := WordLeft(words[0], shift)];
    }

    method ShiftLeft(s: nat)
      requires |words| > 0 || s % 64 == 0
      modifies this
      ensures MovedUp(old(words), words, s)
    {
      hide WordLeft, WordRight, WordOr, MovedUp;
      var extra, shift := s / 64, s % 64;
      ghost var before := words;
      if shift == 0 {
        MoveWords(extra);
      } else {
        MoveBits(extra, shift);
      }
      var i := 0;
      while i < extra
        invariant 0 <= i <= extra
        invariant |words| == |before| + extra + (if shift == 0 then 0 else 1)
        invariant forall j :: 0 <= j < i ==> words[j] == 0
        invariant forall j :: extra <= j < |words| ==> words[j] == UpWord(before, extra, shift, j)
      {
        words := words[i := 0];
        i := i + 1;
      }
      UpWordsMove(before, words, s);
    }

    /** bitset_shift_right by whole words, before the array is cut. */
    method PullWords(extra: nat)
      requires extra <= |words|
      modifies this
      ensures |words| == |old(words)|
      ensures forall j :: 0 <= j < |words| - extra ==> words[j] == DownWord(old(words), extra, 0, j)
    {
      ghost var before := words;
      var i := 0;
      while i < |words| - extra
        invariant 0 <= i <= |words| - extra && |words| == |before|
        invariant forall j :: i <= j < |words| ==> words[j] == before[j]
        invariant forall j :: 0 <= j < i ==> words[j] == DownWord(before, extra, 0, j)
      {
        words := words[i := words[i + extra]];
        i := i + 1;
      }
    }

    /** bitset_shift_right by words and a part of a word, before the array is cut. */
    method PullBits(extra: nat, shift: nat)
      requires 0 < shift < 64 && extra < |words|
      modifies this
      ensures |words| == |old(words)|
      ensures forall j :: 0 <= j < |words| - extra ==> words[j] == DownWord(old(words), extra, shift, j)
    {
      hide WordLeft, WordRight, WordOr;
      ghost var before := words;
      var i := 0;
      while i + extra + 1 < |words|
        invariant 0 <= i <= |words| - extra - 1 && |words| == |before|
        invariant forall j :: i <= j < |words| ==> words[j] == before[j]
        invariant forall j :: 0 <= j < i ==> words[j] == DownWord(before, extra, shift, j)
      {
        words := words[i := WordOr(WordRight(words[i + extra], shift), WordLeft(words[i + extra + 1], 64 - shift))];
        i := i + 1;
      }
      words := words[|words| - extra - 1 := WordRight(words[|words| - 1], shift)];
    }

    method ShiftRight(s: nat)
      requires s / 64 < |words| || (s % 64 == 0 && s / 64 == |words|)
      modifies this
      ensures MovedDown(old(words), words, s)
    {
      hide DownWord, MovedDown;
      var extra, shift := s / 64, s % 64;
      ghost var before := words;
      if shift == 0 {
        PullWords(extra);
      } else {
        PullBits(extra, shift);
      }
      Resize(|words| - extra, false);
      DownWordsMove(before, words, s);
    }

    /** bitset_set, growing with zero words when the number lies beyond the array. */
    method Set(i: nat)
      modifies this
      ensures forall x: nat :: Holds(words, x) <==> x == i || Holds(old(words), x)
    {
      var k := i / 64;
      if k >= |words| {
        Resize(k + 1, true);
      }
      ghost var grown := words;
      words := words[k := WordOr(words[k], WordLeft(1, i % 64))];
      forall x: nat ensures Holds(words, x) <==> x == i || Holds(old(words), x) {
        BitZero(x % 64);
        SetAt(grown, words, i, x);
      }
    }

    /** The least element from i on, or none. */
    method NextSetBit(i: nat) returns (next: Option<nat>)
      ensures next.None? ==> forall x: nat :: x >= i ==> !Holds(words, x)
      ensures next.Some? ==> next.value >= i && Holds(words, next.value) && Gap(words, i, next.value)
    {
      hide Bit, WordRight, Holds, Ctz;
      var x := i / 64;
      if x >= |words| {
        AllBelow(words, i);
        return None;
      }
      RestOfWord(words, i);
      var w := WordRight(words[x], i % 64);
      if w != 0 {
        return Some(i + Ctz(w));
      }
      x := x + 1;
      while x < |words|
        invariant i / 64 < x <= |words| && Gap(words, i, 64 * x)
      {
        RestOfWord(words, 64 * x);
        Unshifted(words[x]);
        w := words[x];
        if w != 0 {
          return Some(x * 64 + Ctz(w));
        }
        x := x + 1;
      }
      AllBelow(words, 64 * x);
      return None;
    }

    /** The documented loop over nextSetBit lists the set, in ascending order. */
    method Elements() returns (all: seq<nat>)
      ensures forall j, k :: 0 <= j < k < |all| ==> all[j] < all[k]
      ensures forall x: nat :: x in all <==> Holds(words, x)
    {
      hide Holds;
      all := [];
      var i: nat := 0;
      var next := NextSetBit(i);
      if next.Some? { InRange(words, next.value); }
      while next.Some?
        invariant forall j, k :: 0 <= j < k < |all| ==> all[j] < all[k]
        invariant forall j :: 0 <= j < |all| ==> all[j] < i
        invariant forall x: nat :: x in all <==> x < i && Holds(words, x)
        invariant next.None? ==> forall x: nat :: x >= i ==> !Holds(words, x)
        invariant next.Some? ==> next.value >= i && Holds(words, next.value) && Gap(words, i, next.value)
        invariant next.Some? ==> i < 64 * |words|
        decreases 64 * |words| - i
      {
        InRange(words, next.value);
        all, i := all + [next.value], next.value + 1;
        next := NextSetBit(i);
        if next.Some? { InRange(words, next.value); }
      }
    }
  }

  lemma Unshifted(w: word)
    ensures WordRight(w, 0) == w
  {
  }

  lemma AllBelow(words: seq<word>, i: nat)
    requires i >= 64 * |words|
    ensures forall x: nat :: x >= i ==> !Holds(words, x)
  {
  }

  lemma InRange(words: seq<word>, x: nat)
    requires Holds(words, x)
    ensures x < 64 * |words|
  {
  }

  lemma SetAt(before: seq<word>, after: seq<word>, i: nat, x: nat)
    requires i / 64 < |before|
    requires after == before[i / 64 := WordOr(before[i / 64], WordLeft(1, i % 64))]
    ensures Holds(after, x) <==> x == i || Holds(before, x)
  {
    hide Bit, WordOr, WordLeft;
    if x / 64 == i / 64 {
      OrBit(before[i / 64], WordLeft(1, i % 64), x % 64);
      LeftBit(1, i % 64, x % 64);
      if x % 64 >= i % 64 { OneBit(x % 64 - i % 64); }
    }
  }

  lemma OneBit(k: nat)
    ensures Bit(1, k) <==> k == 0
  {
    if k > 0 { BitZero(k - 1); }
  }
}
