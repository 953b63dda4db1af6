/**
  The base 16, 32 and 64 codecs (lib/util/basen.h:62-254), against bit strings:
  the characters spell the bytes' bits, high bit first.
 */
module Basen {
  import opened Arith
  import opened BitStrings

  datatype Base = B16 | B32 | B64

  type byte = x: int | 0 <= x < 256

  const ERROR: nat := 255

  // ----- the three alphabets -----

  function GroupLength(base: Base): (g: nat)
    ensures 4 <= g <= 6
  {
    match base
    case B16 => 4
    case B32 => 5
    case B64 => 6
  }

  function From(c: char, i: nat): char
    requires c <= 'a' && i < 64
  {
    (c as int + i) as char
  }

  function EncodeChar(base: Base, index: nat): char
    requires index < Pow2(GroupLength(base))
  {
    PowersUsed();
    match base
    case B16 => if index < 10 then From('0', index) else From('A', index - 10)
    case B32 => if index < 26 then From('A', index) else From('2', index - 26)
    case B64 =>
      if index < 26 then From('A', index)
      else if index < 52 then From('a', index - 26)
      else if index < 62 then From('0', index - 52)
      else if index == 62 then '+' else '/'
  }

  function DecodeChar(base: Base, c: char): (value: nat)
    ensures value != ERROR ==> value < Pow2(GroupLength(base))
  {
    PowersUsed();
    match base
    case B16 =>
      if '0' <= c <= '9' then c as int - '0' as int
      else if 'A' <= c <= 'F' then c as int - 'A' as int + 10
      else ERROR
    case B32 =>
      if 'A' <= c <= 'Z' then c as int - 'A' as int
      else if '2' <= c <= '7' then c as int - '2' as int + 26
      else ERROR
    case B64 =>
      if 'A' <= c <= 'Z' then c as int - 'A' as int
      else if 'a' <= c <= 'z' then c as int - 'a' as int + 26
      else if '0' <= c <= '9' then c as int - '0' as int + 52
      else if c == '+' then 62
      else if c == '/' then 63
      else ERROR
  }

  lemma PowersUsed()
    ensures Pow2(4) == 16 && Pow2(5) == 32 && Pow2(6) == 64 && Pow2(8) == 256
  {
    assert Pow2(4) == 16;
  }

  predicate IsSpace(c: char) {
    c == ' ' || '\t' <= c <= '\r'
  }

  /** Each digit decodes to its index; padding is no digit, and digits are no space. */
  lemma AlphabetRoundTrip(base: Base, index: nat)
    requires index < Pow2(GroupLength(base))
    ensures DecodeChar(base, EncodeChar(base, index)) == index != ERROR
    ensures !IsSpace(EncodeChar(base, index)) && DecodeChar(base, '=') == ERROR
  {
    PowersUsed();
  }

  const UPPER := "ABCDEFGHIJKLMNOPQRSTUVWXYZ"
  const LOWER := "abcdefghijklmnopqrstuvwxyz"
  const DECIMAL := "0123456789"

  /** The alphabets of RFC 4648, sections 4, 6 and 8. */
  function Alphabet(base: Base): string {
    match base
    case B16 => DECIMAL + "ABCDEF"
    case B32 => UPPER + "234567"
    case B64 => UPPER + LOWER + DECIMAL + "+/"
  }

  lemma LettersAre(i: nat)
    ensures i < 26 ==> UPPER[i] == From('A', i) && LOWER[i] == From('a', i)
    ensures i < 10 ==> DECIMAL[i] == From('0', i)
    ensures i < 6 ==> "ABCDEF"[i] == From('A', i) && "234567"[i] == From('2', i)
    ensures |UPPER| == |LOWER| == 26 && |DECIMAL| == 10
  {
  }

  /** The digits are the characters of the alphabet, in its order. */
  lemma EncodesInAlphabet(base: Base, index: nat)
    requires index < Pow2(GroupLength(base))
    ensures |Alphabet(base)| == Pow2(GroupLength(base)) && EncodeChar(base, index) == Alphabet(base)[index]
  {
    hide From;
    PowersUsed();
    match base
    case B16 => LettersAre(if index < 10 then index else index - 10);
    case B32 => LettersAre(if index < 26 then index else index - 26);
    case B64 => LettersAre(if index < 26 then index else if index < 52 then index - 26 else if index < 62 then index - 52 else 0);
  }

  /** A character is decoded exactly if it is in the alphabet, to its place there. */
  lemma DecodesFromAlphabet(base: Base, c: char)
    ensures DecodeChar(base, c) != ERROR <==> c in Alphabet(base)
    ensures forall v | 0 <= v < |Alphabet(base)| && Alphabet(base)[v] == c :: DecodeChar(base, c) == v
  {
    hide Alphabet;
    PowersUsed();
    EncodesInAlphabet(base, 0);
    var v := DecodeChar(base, c);
    if v != ERROR {
      EncodesInAlphabet(base, v);
      EncodesDecoded(base, c);
    }
    forall i | 0 <= i < |Alphabet(base)| && Alphabet(base)[i] == c ensures DecodeChar(base, c) == i != ERROR {
      EncodesInAlphabet(base, i);
      AlphabetRoundTrip(base, i);
    }
  }

  lemma EncodesDecoded(base: Base, c: char)
    requires DecodeChar(base, c) != ERROR
    ensures EncodeChar(base, DecodeChar(base, c)) == c
  {
    PowersUsed();
  }

  /** The place of a character in the alphabet. */
  ghost function Place(base: Base, c: char): (v: nat)
    requires c in Alphabet(base)
    ensures v < |Alphabet(base)| == Pow2(GroupLength(base)) && Alphabet(base)[v] == c
  {
    EncodesInAlphabet(base, 0);
    var v: nat :| v < |Alphabet(base)| && Alphabet(base)[v] == c;
    v
  }

  // ----- bit strings -----

  /** The w low bits of v, high bit first. */
  function Field(v: nat, w: nat): (f: seq<bool>)
    ensures |f| == w
  {
    seq(w, (t: nat) requires t < w => Bit(v, w - 1 - t))
  }

  function Stream(vs: seq<nat>, w: nat): seq<bool> {
    if vs == [] then [] else Stream(vs[..|vs| - 1], w) + Field(vs[|vs| - 1], w)
  }

  function Zeros(n: nat): (z: seq<bool>)
    ensures |z| == n
  {
    seq(n, (t: nat) requires t < n => false)
  }

  lemma FieldAt(v: nat, w: nat, t: nat)
    requires t < w
    ensures Field(v, w)[t] == Bit(v, w - 1 - t)
  {
  }

  lemma StreamPush(vs: seq<nat>, v: nat, w: nat)
    ensures Stream(vs + [v], w) == Stream(vs, w) + Field(v, w)
  {
    assert (vs + [v])[..|vs|] == vs;
  }

  lemma {:induction false} StreamLength(vs: seq<nat>, w: nat)
    ensures |Stream(vs, w)| == Mul(|vs|, w)
  {
    if vs != [] {
      StreamLength(vs[..|vs| - 1], w);
      MulAdd(|vs| - 1, 1, w);
    }
  }

  ghost predicate Fit(vs: seq<nat>, w: nat) {
    forall i :: 0 <= i < |vs| ==> vs[i] < Pow2(w)
  }

  lemma FieldDetermines(v: nat, u: nat, w: nat)
    requires v < Pow2(w) && u < Pow2(w) && Field(v, w) == Field(u, w)
    ensures v == u
  {
    forall k: nat | k < w ensures Bit(v, k) <==> Bit(u, k) {
      assert Field(v, w)[w - 1 - k] == Field(u, w)[w - 1 - k];
    }
    BitsDetermine(v, u, w);
  }

  /** A bit string spells one sequence of w-bit numbers. */
  lemma {:induction false} StreamDetermines(vs: seq<nat>, us: seq<nat>, w: nat)
    requires |vs| == |us| && Fit(vs, w) && Fit(us, w) && Stream(vs, w) == Stream(us, w)
    ensures vs == us
  {
    hide Pow2, Field, Stream;
    if vs != [] {
      var n := |vs| - 1;
      LastField(vs, us, w);
      StreamDetermines(vs[..n], us[..n], w);
      FieldDetermines(vs[n], us[n], w);
      assert vs == vs[..n] + [vs[n]] && us == us[..n] + [us[n]];
    }
  }

  /** Equal bit strings of equally many numbers agree on the last number and on the rest. */
  lemma LastField(vs: seq<nat>, us: seq<nat>, w: nat)
    requires 0 < |vs| == |us| && Stream(vs, w) == Stream(us, w)
    ensures var n := |vs| - 1; Stream(vs[..n], w) == Stream(us[..n], w) && Field(vs[n], w) == Field(us[n], w)
  {
    hide Field, Mul;
    var n := |vs| - 1;
    StreamLength(vs[..n], w);
    StreamLength(us[..n], w);
    SplitEqual(Stream(vs[..n], w), Field(vs[n], w), Stream(us[..n], w), Field(us[n], w));
  }

  lemma SplitEqual(a: seq<bool>, b: seq<bool>, c: seq<bool>, d: seq<bool>)
    requires |a| == |c| && a + b == c + d
    ensures a == c && b == d
  {
    assert (a + b)[..|a|] == a && (c + d)[..|a|] == c;
    assert (a + b)[|a|..] == b && (c + d)[|a|..] == d;
  }

  // ----- encoding -----

  /** Bits [s, s + g) of one byte. */
  function ExtractPartialBits(value: byte, s: nat, g: nat): (v: nat)
    requires s + g < 8
    ensures v < Pow2(g) && Field(v, g) == Field(value, 8)[s..s + g]
  {
    LowBound(Right(value, 8 - g - s), g);
    PartialField(value, s, g);
    Low(Right(value, 8 - g - s), g)
  }

  lemma PartialField(value: nat, s: nat, g: nat)
    requires s + g < 8
    ensures Field(Low(Right(value, 8 - g - s), g), g) == Field(value, 8)[s..s + g]
  {
    hide Bit, Low, Right;
    var v := Low(Right(value, 8 - g - s), g);
    forall t: nat | t < g ensures Field(v, g)[t] == Field(value, 8)[s + t] {
      BitLow(Right(value, 8 - g - s), g, g - 1 - t);
      BitRight(value, 8 - g - s, g - 1 - t);
    }
  }

  /** The bits from s on of one byte, and the rest of the group from the next. */
  function ExtractOverlappingBits(previous: byte, next: byte, s: nat, g: nat): (v: nat)
    requires s < 8 && g <= 8 <= s + g
    ensures v < Pow2(g) && Field(v, g) == Field(previous, 8)[s..] + Field(next, 8)[..s + g - 8]
  {
    var n := g - (8 - s);
    LowBound(Or(Low(Left(previous, n), 8), Low(Right(next, 8 - n), n)), g);
    OverlapField(previous, next, s, g);
    Low(Or(Low(Left(previous, n), 8), Low(Right(next, 8 - n), n)), g)
  }

  lemma OverlapField(previous: nat, next: nat, s: nat, g: nat)
    requires s < 8 && g <= 8 <= s + g
    ensures var n := g - (8 - s); var v := Low(Or(Low(Left(previous, n), 8), Low(Right(next, 8 - n), n)), g);
      Field(v, g) == Field(previous, 8)[s..] + Field(next, 8)[..n]
  {
    hide Low, Right, Left, Or, Field;
    var n := g - (8 - s);
    var v := Low(Or(Low(Left(previous, n), 8), Low(Right(next, 8 - n), n)), g);
    var both := Field(previous, 8)[s..] + Field(next, 8)[..n];
    forall t: nat | t < g ensures Field(v, g)[t] == both[t] {
      OverlapAt(previous, next, s, g, t);
    }
  }

  lemma OverlapAt(previous: nat, next: nat, s: nat, g: nat, t: nat)
    requires s < 8 && t < g <= 8 <= s + g
    ensures var n := g - (8 - s); var v := Low(Or(Low(Left(previous, n), 8), Low(Right(next, 8 - n), n)), g);
      Field(v, g)[t] == if s + t < 8 then Field(previous, 8)[s + t] else Field(next, 8)[s + t - 8]
  {
    hide Bit, Low, Right, Left, Or, Field;
    var n := g - (8 - s);
    OverlapBit(previous, next, n, g, g - 1 - t);
    FieldAt(Low(Or(Low(Left(previous, n), 8), Low(Right(next, 8 - n), n)), g), g, t);
    if s + t < 8 { FieldAt(previous, 8, s + t); } else { FieldAt(next, 8, s + t - 8); }
  }

  lemma OverlapBit(previous: nat, next: nat, n: nat, g: nat, k: nat)
    requires n <= k < g <= 8 || k < n <= g <= 8
    ensures var v := Low(Or(Low(Left(previous, n), 8), Low(Right(next, 8 - n), n)), g);
      Bit(v, k) <==> if k >= n then Bit(previous, k - n) else Bit(next, 8 - n + k)
  {
    hide Bit, Low, Right, Left, Or;
    var t1, t2 := Low(Left(previous, n), 8), Low(Right(next, 8 - n), n);
    BitLow(Or(t1, t2), g, k);
    BitOr(t1, t2, k);
    BitLow(Left(previous, n), 8, k);
    BitLeft(previous, n, k);
    BitLow(Right(next, 8 - n), n, k);
    BitRight(next, 8 - n, k);
  }

  /** The first s bits of byte i; past the last byte, zeros. */
  function Top(b: seq<byte>, i: nat, s: nat): (t: seq<bool>)
    requires i <= |b| && s < 8
    ensures |t| == s
  {
    if i < |b| then Field(b[i], 8)[..s] else Zeros(s)
  }

  /** The places in the alphabet of a text's digits, in order; anything else is skipped. */
  ghost function Values(base: Base, text: string): (vs: seq<nat>)
    ensures forall v :: v in vs ==> v < Pow2(GroupLength(base))
  {
    if text == [] then []
    else
      var c := text[|text| - 1];
      var rest := Values(base, text[..|text| - 1]);
      if c in Alphabet(base) then rest + [Place(base, c)] else rest
  }

  lemma ValuesPush(base: Base, text: string, c: char)
    ensures Values(base, text + [c]) ==
            if IsSpace(c) || DecodeChar(base, c) == ERROR then Values(base, text)
            else Values(base, text) + [DecodeChar(base, c)]
  {
    hide Alphabet, DecodeChar;
    assert (text + [c])[..|text|] == text;
    DecodesFromAlphabet(base, c);
    if IsSpace(c) { SpaceIsNoDigit(base, c); }
  }

  lemma SpaceIsNoDigit(base: Base, c: char)
    requires IsSpace(c)
    ensures DecodeChar(base, c) == ERROR
  {
  }

  /** How many `=` follow a text that ends s bits into a byte. */
  function PadCount(base: Base, s: nat): nat {
    match base
    case B16 => s / 4
    case B32 => 3 * s % 8
    case B64 => s / 2
  }

  /** The length RFC 4648 gives: whole blocks of 2 per 1, 8 per 5, 4 per 3 bytes. */
  function PaddedLength(base: Base, n: nat): nat {
    match base
    case B16 => 2 * n
    case B32 => 8 * ((n + 4) / 5)
    case B64 => 4 * ((n + 2) / 3)
  }

  /** The characters with these places in the alphabet. */
  ghost predicate Spells(base: Base, text: string, vs: seq<nat>) {
    |text| == |vs| && forall i | 0 <= i < |vs| :: vs[i] < |Alphabet(base)| && text[i] == Alphabet(base)[vs[i]]
  }

  /**
    The digits spell the bytes' bits and fewer than one digit of zeros, and
    only padding follows them.
   */
  ghost predicate IsEncoding(base: Base, b: seq<byte>, text: string) {
    var g, vs := GroupLength(base), Values(base, text);
    && Mul(|b|, 8) <= |Stream(vs, g)| < Mul(|b|, 8) + g
    && Stream(vs, g) == Stream(b, 8) + Zeros(|Stream(vs, g)| - Mul(|b|, 8))
    && |vs| <= |text| == PaddedLength(base, |b|)
    && Spells(base, text[..|vs|], vs)
    && forall i :: |vs| <= i < |text| ==> text[i] == '='
  }

  method Encode(base: Base, b: seq<byte>) returns (text: string)
    ensures IsEncoding(base, b, text)
  {
    hide Stream, Values, Sent, Field, Spells, Pow2, IsEncoding;
    hide DecodeChar, EncodeChar, IsSpace, ExtractPartialBits, ExtractOverlappingBits;
    var g := GroupLength(base);
    var iter: nat, start: nat, hasBacklog := 0, 0, false;
    var backlog: byte := 0;
    text := "";
    ghost var vs: seq<nat> := [];
    NothingSent(base, b);
    while hasBacklog || iter < |b|
      invariant iter <= |b| && start < 8
      invariant hasBacklog ==> iter > 0 && backlog == b[iter - 1] && start + g >= 8
      invariant |b| == iter && !hasBacklog ==> start < g
      invariant vs == Values(base, text) && |vs| == |text| && Spells(base, text, vs)
      invariant Stream(vs, g) == Sent(b, if hasBacklog then iter - 1 else iter, start)
      decreases |b| - iter, hasBacklog, 8 - start
    {
      if !hasBacklog {
        if start + g < 8 {
          var v := ExtractPartialBits(b[iter], start, g);
          Digit(base, text, v);
          StreamPush(vs, v, g);
          SentWithin(b, iter, start, g);
          text, vs := text + [EncodeChar(base, v)], vs + [v];
          start := start + g;
        } else {
          backlog := b[iter];
          iter := iter + 1;
          hasBacklog := true;
        }
      } else {
        var v: nat;
        if iter == |b| {
          v := ExtractOverlappingBits(backlog, 0, start, g);
        } else {
          v := ExtractOverlappingBits(backlog, b[iter], start, g);
        }
        Digit(base, text, v);
        StreamPush(vs, v, g);
        SentAcross(b, iter - 1, start, g);
        text, vs := text + [EncodeChar(base, v)], vs + [v];
        hasBacklog := false;
        start := (start + g) % 8;
      }
    }
    text := Pad(base, b, text, start);
  }

  /** What has been sent once the cursor is at bit s of byte i. */
  function Sent(b: seq<byte>, i: nat, s: nat): seq<bool>
    requires i <= |b| && s < 8
  {
    Stream(b[..i], 8) + Top(b, i, s)
  }

  lemma NothingSent(base: Base, b: seq<byte>)
    ensures Values(base, "") == [] && Spells(base, "", []) && Stream([], GroupLength(base)) == Sent(b, 0, 0)
  {
    assert b[..0] == [];
  }

  lemma SentWithin(b: seq<byte>, i: nat, s: nat, g: nat)
    requires i < |b| && s + g < 8
    ensures Sent(b, i, s) + Field(b[i], 8)[s..s + g] == Sent(b, i, s + g)
  {
    hide Stream;
    assert Field(b[i], 8)[..s] + Field(b[i], 8)[s..s + g] == Field(b[i], 8)[..s + g];
  }

  lemma SentAcross(b: seq<byte>, i: nat, s: nat, g: nat)
    requires i < |b| && s < 8 && g < 8 <= s + g
    ensures var next := if i + 1 < |b| then b[i + 1] else 0;
      Sent(b, i, s) + (Field(b[i], 8)[s..] + Field(next, 8)[..s + g - 8]) == Sent(b, i + 1, s + g - 8)
  {
    hide Stream;
    var f := Field(b[i], 8);
    assert f[..s] + f[s..] == f;
    assert b[..i + 1] == b[..i] + [b[i]];
    StreamPush(b[..i], b[i], 8);
    forall t: nat | t < 8 ensures !Field(0, 8)[t] { BitZero(7 - t); }
    assert Field(0, 8)[..s + g - 8] == Zeros(s + g - 8);
  }

  lemma Digit(base: Base, text: string, v: nat)
    requires v < Pow2(GroupLength(base)) && Spells(base, text, Values(base, text))
    ensures var longer := text + [EncodeChar(base, v)];
      Values(base, longer) == Values(base, text) + [v] && Spells(base, longer, Values(base, longer))
  {
    hide DecodeChar, EncodeChar, IsSpace, Values;
    AlphabetRoundTrip(base, v);
    EncodesInAlphabet(base, v);
    ValuesPush(base, text, EncodeChar(base, v));
  }

  /** The closing loop: pad to a whole number of bytes' worth of digits. */
  method Pad(base: Base, b: seq<byte>, digits: string, startBit: nat) returns (text: string)
    requires startBit < GroupLength(base) && Spells(base, digits, Values(base, digits))
    requires |Values(base, digits)| == |digits|
    requires Stream(Values(base, digits), GroupLength(base)) == Sent(b, |b|, startBit)
    ensures IsEncoding(base, b, text)
  {
    hide Values, Stream, Sent, PadCount, PaddedLength, Spells, PadEnds, IsEncoding;
    var g := GroupLength(base);
    var start := startBit;
    text := digits;
    SentAll(base, b, Values(base, digits), startBit);
    while start != 0
      invariant PadEnds(base, start) && Values(base, text) == Values(base, digits)
      invariant |digits| <= |text| && text[..|digits|] == digits
      invariant |text| + PadCount(base, start) == PaddedLength(base, |b|)
      invariant forall i :: |digits| <= i < |text| ==> text[i] == '='
      decreases PadCount(base, start)
    {
      PaddingIsSkipped(base, text);
      PadStep(base, start);
      text := text + ['='];
      start := (start + g) % 8;
    }
    Padded(base, b, digits, startBit, text);
  }

  lemma PaddingIsSkipped(base: Base, text: string)
    ensures Values(base, text + ['=']) == Values(base, text)
  {
    hide Values;
    ValuesPush(base, text, '=');
  }

  /** From these bit positions padding reaches a byte's end. */
  predicate PadEnds(base: Base, s: nat) {
    s < 8 && (base.B16? ==> s == 0) && (base.B64? ==> s % 2 == 0)
  }

  lemma PadStep(base: Base, s: nat)
    requires PadEnds(base, s) && s != 0
    ensures PadEnds(base, (s + GroupLength(base)) % 8)
    ensures PadCount(base, (s + GroupLength(base)) % 8) + 1 == PadCount(base, s)
  {
  }

  lemma SentAll(base: Base, b: seq<byte>, vs: seq<nat>, s: nat)
    requires s < GroupLength(base) && Stream(vs, GroupLength(base)) == Sent(b, |b|, s)
    ensures PadEnds(base, s) && |vs| + PadCount(base, s) == PaddedLength(base, |b|)
    ensures Stream(vs, GroupLength(base)) == Stream(b, 8) + Zeros(s) && |Stream(b, 8)| == Mul(|b|, 8)
  {
    hide Stream, Mul;
    StreamLength(vs, GroupLength(base));
    StreamLength(b, 8);
    assert b[..|b|] == b;
    match base
    case B16 => Blocks16(|b|, |vs|, s);
    case B32 => Blocks32(|b|, |vs|, s);
    case B64 => Blocks64(|b|, |vs|, s);
  }

  lemma Blocks16(n: nat, digits: nat, s: nat)
    requires s < 4 && Mul(digits, 4) == Mul(n, 8) + s
    ensures s == 0 && digits == 2 * n
  {
  }

  lemma Blocks32(n: nat, digits: nat, s: nat)
    requires s < 5 && Mul(digits, 5) == Mul(n, 8) + s
    ensures digits + 3 * s % 8 == 8 * ((n + 4) / 5)
  {
  }

  lemma Blocks64(n: nat, digits: nat, s: nat)
    requires s < 6 && Mul(digits, 6) == Mul(n, 8) + s
    ensures s % 2 == 0 && digits + s / 2 == 4 * ((n + 2) / 3)
  {
  }

  lemma Padded(base: Base, b: seq<byte>, digits: string, s: nat, text: string)
    requires s < GroupLength(base) && Spells(base, digits, Values(base, digits))
    requires |Values(base, digits)| == |digits| <= |text| && text[..|digits|] == digits
    requires Values(base, text) == Values(base, digits)
    requires Stream(Values(base, digits), GroupLength(base)) == Stream(b, 8) + Zeros(s)
    requires |Stream(b, 8)| == Mul(|b|, 8)
    requires |text| + PadCount(base, 0) == PaddedLength(base, |b|)
    requires forall i :: |digits| <= i < |text| ==> text[i] == '='
    ensures IsEncoding(base, b, text)
  {
    hide Stream, Values, Mul, Spells, PaddedLength;
  }

  // ----- decoding -----

  /** The whole bytes of the digits' bits. */
  ghost predicate IsDecoding(base: Base, text: string, out: seq<byte>) {
    var bits := Stream(Values(base, text), GroupLength(base));
    Mul(|out|, 8) <= |bits| < Mul(|out|, 8) + 8 && Stream(out, 8) == bits[..Mul(|out|, 8)]
  }

  /** Only the first o bits of the buffer are in use. */
  ghost predicate Buffered(buffer: nat, o: nat) {
    o < 8 && buffer < 256 && forall k: nat :: k < 8 - o ==> !Bit(buffer, k)
  }

  method Decode(base: Base, text: string) returns (out: seq<byte>)
    ensures IsDecoding(base, text, out)
  {
    hide Stream, Values, Field, DecodeChar, IsSpace, Buffered, Low, Or, Left, Right, Pow2, IsDecoding;
    var g := GroupLength(base);
    var iter: nat, o: nat := 0, 0;
    var buffer: byte := 0;
    out := [];
    EmptyBuffer(base, text);
    while iter < |text|
      invariant iter <= |text| && o < 8 && Buffered(buffer, o)
      invariant Stream(Values(base, text[..iter]), g) == Stream(out, 8) + Field(buffer, 8)[..o]
    {
      var c := text[iter];
      assert text[..iter + 1] == text[..iter] + [c];
      ValuesPush(base, text[..iter], c);
      iter := iter + 1;
      if IsSpace(c) { continue; }
      var value := DecodeChar(base, c);
      if value == ERROR { continue; }
      StreamPush(Values(base, text[..iter - 1]), value, g);
      Joined(Stream(out, 8), Field(buffer, 8)[..o], Field(value, g));
      if o + g <= 8 {
        FitsInByte(buffer, o, value, g);
        buffer := Or(buffer, Low(Left(value, 8 - o - g), 8));
        o := o + g;
        if o == 8 {
          StreamPush(out, buffer, 8);
          assert Field(buffer, 8)[..8] == Field(buffer, 8);
          out := out + [buffer];
          EmptyBuffer(base, text);
          buffer, o := 0, 0;
        }
      } else {
        var n := g - (8 - o);
        SpansBytes(buffer, o, value, g);
        buffer := Or(buffer, Right(value, n));
        StreamPush(out, buffer, 8);
        Joined(Stream(out, 8), Field(buffer, 8), Field(Low(Left(value, 8 - n), 8), 8)[..n]);
        out := out + [buffer];
        buffer := Low(Left(value, 8 - n), 8);
        o := n;
      }
    }
    assert text[..iter] == text;
    Decoded(base, text, out, buffer, o);
  }

  lemma Joined(a: seq<bool>, b: seq<bool>, c: seq<bool>)
    ensures a + b + c == a + (b + c)
  {
  }

  lemma Decoded(base: Base, text: string, out: seq<byte>, buffer: nat, o: nat)
    requires Buffered(buffer, o)
    requires Stream(Values(base, text), GroupLength(base)) == Stream(out, 8) + Field(buffer, 8)[..o]
    ensures IsDecoding(base, text, out)
  {
    hide Stream, Values, Field, Mul;
    StreamLength(out, 8);
  }

  lemma EmptyBuffer(base: Base, text: string)
    ensures Buffered(0, 0) && Stream(Values(base, text[..0]), GroupLength(base)) == Stream([], 8) == []
  {
    forall k: nat | k < 8 ensures !Bit(0, k) { BitZero(k); }
  }

  lemma FitsInByte(buffer: byte, o: nat, value: nat, g: nat)
    requires Buffered(buffer, o) && o + g <= 8 && value < Pow2(g)
    ensures var next := Or(buffer, Low(Left(value, 8 - o - g), 8));
      && next < 256
      && Field(next, 8)[..o + g] == Field(buffer, 8)[..o] + Field(value, g)
      && (o + g < 8 ==> Buffered(next, o + g))
  {
    hide Bit, Low, Left, Or, Pow2;
    var shifted := Low(Left(value, 8 - o - g), 8);
    PowersUsed();
    LowBound(Left(value, 8 - o - g), 8);
    OrBound(buffer, shifted, 8);
    forall k: nat | k < 8
      ensures Bit(Or(buffer, shifted), k) ==
              if k < 8 - o - g then false else if k < 8 - o then Bit(value, k - (8 - o - g)) else Bit(buffer, k)
    {
      BitOr(buffer, shifted, k);
      BitLow(Left(value, 8 - o - g), 8, k);
      BitLeft(value, 8 - o - g, k);
      if k >= 8 - o { BitAbove(value, g, k - (8 - o - g)); }
    }
  }

  lemma SpansBytes(buffer: byte, o: nat, value: nat, g: nat)
    requires Buffered(buffer, o) && g < 8 < o + g && value < Pow2(g)
    ensures var n := g - (8 - o); var full, rest := Or(buffer, Right(value, n)), Low(Left(value, 8 - n), 8);
      && full < 256 && rest < 256 && Buffered(rest, n)
      && Field(full, 8) + Field(rest, 8)[..n] == Field(buffer, 8)[..o] + Field(value, g)
  {
    var n := g - (8 - o);
    hide Bit, Low, Left, Right, Or, Pow2;
    var full, rest := Or(buffer, Right(value, n)), Low(Left(value, 8 - n), 8);
    PowersUsed();
    LowBound(Left(value, 8 - n), 8);
    RightBound(value, n);
    Pow2Monotone(g, 8);
    OrBound(buffer, Right(value, n), 8);
    forall k: nat | k < 8
      ensures Bit(full, k) == if k < 8 - o then Bit(value, n + k) else Bit(buffer, k)
      ensures Bit(rest, k) == if k < 8 - n then false else Bit(value, k - (8 - n))
    {
      BitOr(buffer, Right(value, n), k);
      BitRight(value, n, k);
      if k >= 8 - o { BitAbove(value, g, n + k); }
      BitLow(Left(value, 8 - n), 8, k);
      BitLeft(value, 8 - n, k);
    }
  }

  // ----- the round trip -----

  /** Decoding an encoded byte string gives it back. */
  lemma RoundTrip(base: Base, b: seq<byte>, text: string, out: seq<byte>)
    requires IsEncoding(base, b, text) && IsDecoding(base, text, out)
    ensures out == b
  {
    hide Stream, Values;
    StreamLength(b, 8);
    StreamLength(out, 8);
    SameCount(|b|, |out|, |Stream(Values(base, text), GroupLength(base))|);
    PowersUsed();
    StreamDetermines(b, out, 8);
  }

  lemma SameCount(n: nat, m: nat, bits: nat)
    requires Mul(n, 8) <= bits < Mul(n, 8) + 8 && Mul(m, 8) <= bits < Mul(m, 8) + 8
    ensures n == m
  {
  }

  /** A text has one decoding, and it depends on the digits alone. */
  lemma DecodingUnique(base: Base, text: string, other: string, out: seq<byte>, out': seq<byte>)
    requires IsDecoding(base, text, out) && IsDecoding(base, other, out')
    requires Values(base, text) == Values(base, other)
    ensures out == out'
  {
    hide Stream, Values;
    SameCount(|out|, |out'|, |Stream(Values(base, text), GroupLength(base))|);
    PowersUsed();
    StreamDetermines(out, out', 8);
  }
}
