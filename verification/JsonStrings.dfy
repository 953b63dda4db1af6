/**
  String literals: every way RFC 8259, section 7, lets a string be spelled, and
  what the reader makes of it (lib/json/jsoncpp.cpp:99-125, 574-586, 793-901).
 */
module JsonStrings {
  import opened Wrappers
  import opened JsonText
  import opened JsonParse

  lemma HasAtSplit(doc: string, cur: nat, a: string, b: string)
    requires HasAt(doc, cur, a + b)
    ensures HasAt(doc, cur, a) && HasAt(doc, cur + |a|, b)
  {
    var m, n := cur + |a|, cur + |a| + |b|;
    assert doc[cur..n][..|a|] == doc[cur..m] && doc[cur..n][|a|..] == doc[m..n];
    assert (a + b)[..|a|] == a && (a + b)[|a|..] == b;
  }

  lemma CharAt(doc: string, cur: nat, s: string, k: nat)
    requires HasAt(doc, cur, s) && k < |s|
    ensures cur + k < |doc| && doc[cur + k] == s[k]
  {
    assert doc[cur..cur + |s|][k] == s[k];
  }

  // ----- UTF-8 -----

  predicate Continues(c: char) {
    0x80 <= c as int <= 0xBF
  }

  /** The bits a continuation byte carries. */
  function Carried(c: char): nat
    requires Continues(c)
  {
    c as int - 0x80
  }

  /** The code point that one UTF-8 sequence stands for (RFC 3629, section 3): the lead byte tells the length. */
  function ReadUtf8(s: string): Option<nat> {
    if s == [] then None
    else
      var lead := s[0] as int;
      if lead < 0x80 && |s| == 1 then Some(lead)
      else if 0xC0 <= lead < 0xE0 && |s| == 2 && Continues(s[1]) then Some((lead - 0xC0) * 0x40 + Carried(s[1]))
      else if 0xE0 <= lead < 0xF0 && |s| == 3 && Continues(s[1]) && Continues(s[2]) then
        Some((lead - 0xE0) * 0x1000 + Carried(s[1]) * 0x40 + Carried(s[2]))
      else if 0xF0 <= lead < 0xF8 && |s| == 4 && Continues(s[1]) && Continues(s[2]) && Continues(s[3]) then
        Some((lead - 0xF0) * 0x40000 + Carried(s[1]) * 0x1000 + Carried(s[2]) * 0x40 + Carried(s[3]))
      else None
  }

  lemma Groups(cp: nat)
    requires cp < 0x110000
    ensures cp == cp / 0x40 * 0x40 + cp % 0x40
    ensures cp == cp / 0x1000 * 0x1000 + cp / 0x40 % 0x40 * 0x40 + cp % 0x40
    ensures cp == cp / 0x40000 * 0x40000 + cp / 0x1000 % 0x40 * 0x1000 + cp / 0x40 % 0x40 * 0x40 + cp % 0x40
  {
    assert cp / 0x1000 == cp / 0x40 / 0x40 && cp / 0x40000 == cp / 0x1000 / 0x40;
  }

  /** Every code point is given its UTF-8 sequence, the shortest one. */
  lemma Utf8Reads(cp: nat)
    requires cp < 0x110000
    ensures ReadUtf8(Utf8(cp)) == Some(cp)
    ensures |Utf8(cp)| == if cp < 0x80 then 1 else if cp < 0x800 then 2 else if cp < 0x10000 then 3 else 4
  {
    Groups(cp);
    var s := Utf8(cp);
    if cp < 0x80 {
    } else if cp < 0x800 {
      assert s[0] as int == 0xC0 + cp / 0x40 && Carried(s[1]) == cp % 0x40;
    } else if cp < 0x10000 {
      assert s[0] as int == 0xE0 + cp / 0x1000 && Carried(s[1]) == cp / 0x40 % 0x40 && Carried(s[2]) == cp % 0x40;
    } else {
      assert s[0] as int == 0xF0 + cp / 0x40000 && Carried(s[1]) == cp / 0x1000 % 0x40;
      assert Carried(s[2]) == cp / 0x40 % 0x40 && Carried(s[3]) == cp % 0x40;
    }
  }

  // ----- hexadecimal digits -----

  /** A hexadecimal digit of either case. */
  predicate HexIs(c: char, d: nat)
    requires d < 16
  {
    c == "0123456789abcdef"[d] || c == "0123456789ABCDEF"[d]
  }

  lemma HexDecodes(c: char, d: nat)
    requires d < 16 && HexIs(c, d)
    ensures HexValue(c) == Some(d) && c != '\"' && c != '\\'
  {
  }

  /** Four digits that spell a number below 2^16. */
  predicate SpellsUnit(s: string, unit: nat) {
    && |s| == 4 && unit < 0x10000
    && HexIs(s[0], unit / 0x1000) && HexIs(s[1], unit / 0x100 % 16) && HexIs(s[2], unit / 16 % 16) && HexIs(s[3], unit % 16)
  }

  lemma UnitChars(s: string, unit: nat, doc: string, cur: nat)
    requires SpellsUnit(s, unit) && HasAt(doc, cur, s)
    ensures cur + 4 <= |doc|
    ensures HexValue(doc[cur]) == Some(unit / 0x1000) && HexValue(doc[cur + 1]) == Some(unit / 0x100 % 16)
    ensures HexValue(doc[cur + 2]) == Some(unit / 16 % 16) && HexValue(doc[cur + 3]) == Some(unit % 16)
    ensures forall k | cur <= k < cur + 4 :: doc[k] != '\"' && doc[k] != '\\'
  {
    hide HexIs, HexValue;
    HexDecodes(s[0], unit / 0x1000);
    HexDecodes(s[1], unit / 0x100 % 16);
    HexDecodes(s[2], unit / 16 % 16);
    HexDecodes(s[3], unit % 16);
    CharAt(doc, cur, s, 0);
    CharAt(doc, cur, s, 1);
    CharAt(doc, cur, s, 2);
    CharAt(doc, cur, s, 3);
  }

  lemma UnitDecodes(s: string, unit: nat, doc: string, cur: nat, end: nat)
    requires SpellsUnit(s, unit) && HasAt(doc, cur, s) && cur + 4 <= end <= |doc|
    ensures EscapeSequence(doc, cur, end) == Read(unit, cur + 4)
  {
    hide SpellsUnit, HexValue, HasAt;
    UnitChars(s, unit, doc, cur);
    assert unit < 0x10000 by { UnitSize(s, unit); }
    UnitJoins(unit);
  }

  lemma UnitJoins(unit: nat)
    requires unit < 0x10000
    ensures unit / 0x1000 < 16
    ensures ((unit / 0x1000 * 16 + unit / 0x100 % 16) * 16 + unit / 16 % 16) * 16 + unit % 16 == unit
  {
    assert unit / 0x100 == unit / 16 / 16 && unit / 0x1000 == unit / 0x100 / 16;
  }

  lemma UnitScanned(s: string, unit: nat, doc: string, cur: nat)
    requires SpellsUnit(s, unit) && HasAt(doc, cur, s)
    ensures cur + 4 <= |doc| && StringEnd(doc, cur) == StringEnd(doc, cur + 4)
  {
    hide HexIs, HexValue;
    UnitChars(s, unit, doc, cur);
    assert StringEnd(doc, cur) == StringEnd(doc, cur + 1) == StringEnd(doc, cur + 2);
    assert StringEnd(doc, cur + 2) == StringEnd(doc, cur + 3) == StringEnd(doc, cur + 4);
  }

  // ----- pieces of a literal -----

  /**
    A character as it is, a two-character escape, or a code point as one `\u`
    escape or as a surrogate pair of them. Of the second escape of a pair, `low`,
    the reader looks at the last ten bits only.
   */
  datatype Piece = Plain(c: char) | Short(i: nat) | Unicode(cp: nat, first: string, second: string, low: nat)

  const SHORT_ESCAPES := "\"\\/bfnrt"
  const SHORT_MEANINGS: string := ['\"', '\\', '/', 8 as char, 12 as char, '\n', '\r', '\t']

  /** The surrogates of a code point from 2^16 on (RFC 2781, section 2.1). */
  function HighSurrogate(cp: nat): nat
    requires 0x10000 <= cp < 0x110000
  {
    0xD800 + (cp - 0x10000) / 0x400
  }

  function LowSurrogate(cp: nat): nat
    requires 0x10000 <= cp < 0x110000
  {
    0xDC00 + (cp - 0x10000) % 0x400
  }

  /** A lone high surrogate is no code point. */
  predicate PieceOk(p: Piece) {
    match p
    case Plain(c) => c != '\"' && c != '\\'
    case Short(i) => i < 8
    case Unicode(cp, first, second, low) =>
      if cp < 0x10000 then !(0xD800 <= cp <= 0xDBFF) && SpellsUnit(first, cp) && second == ""
      else
        && cp < 0x110000 && SpellsUnit(first, HighSurrogate(cp)) && SpellsUnit(second, low)
        && low % 0x400 == LowSurrogate(cp) % 0x400
  }

  function PieceText(p: Piece): (s: string)
    requires PieceOk(p)
    ensures |s| > 0
  {
    match p
    case Plain(c) => [c]
    case Short(i) => ['\\', SHORT_ESCAPES[i]]
    case Unicode(cp, first, second, low) => "\\u" + first + (if cp < 0x10000 then "" else "\\u" + second)
  }

  function PieceMeaning(p: Piece): string
    requires PieceOk(p)
  {
    match p
    case Plain(c) => [c]
    case Short(i) => [SHORT_MEANINGS[i]]
    case Unicode(cp, _, _, _) => Utf8(cp)
  }

  predicate PiecesOk(ps: seq<Piece>) {
    forall i | 0 <= i < |ps| :: PieceOk(ps[i])
  }

  function PiecesText(ps: seq<Piece>): string
    requires PiecesOk(ps)
  {
    if ps == [] then "" else PieceText(ps[0]) + PiecesText(ps[1..])
  }

  function PiecesMeaning(ps: seq<Piece>): string
    requires PiecesOk(ps)
  {
    if ps == [] then "" else PieceMeaning(ps[0]) + PiecesMeaning(ps[1..])
  }

  /** The parts of a code point's escapes, in the document. */
  lemma UnicodeParts(cp: nat, first: string, second: string, low: nat, doc: string, cur: nat)
    requires PieceOk(Unicode(cp, first, second, low)) && HasAt(doc, cur, PieceText(Unicode(cp, first, second, low)))
    ensures cur + 6 <= |doc| && doc[cur] == '\\' && doc[cur + 1] == 'u' && HasAt(doc, cur + 2, first)
    ensures cp >= 0x10000 ==>
              cur + 12 <= |doc| && doc[cur + 6] == '\\' && doc[cur + 7] == 'u' && HasAt(doc, cur + 8, second)
  {
    hide HasAt, SpellsUnit;
    var rest := if cp < 0x10000 then "" else "\\u" + second;
    UnitSize(first, if cp < 0x10000 then cp else HighSurrogate(cp));
    HasAtSplit(doc, cur, "\\u" + first, rest);
    EscapeParts(first, doc, cur);
    if cp >= 0x10000 {
      UnitSize(second, low);
      EscapeParts(second, doc, cur + 6);
    }
  }

  lemma EscapeParts(digits: string, doc: string, cur: nat)
    requires |digits| == 4 && HasAt(doc, cur, "\\u" + digits)
    ensures cur + 6 <= |doc| && doc[cur] == '\\' && doc[cur + 1] == 'u' && HasAt(doc, cur + 2, digits)
  {
    hide HasAt;
    HasAtSplit(doc, cur, "\\u", digits);
    CharAt(doc, cur, "\\u", 0);
    CharAt(doc, cur, "\\u", 1);
    CharAt(doc, cur + 2, digits, 3);
  }

  lemma UnicodeDecoded(cp: nat, first: string, second: string, low: nat, doc: string, cur: nat, end: nat)
    requires PieceOk(Unicode(cp, first, second, low)) && HasAt(doc, cur, PieceText(Unicode(cp, first, second, low)))
    requires cur + |PieceText(Unicode(cp, first, second, low))| <= end <= |doc|
    ensures CodePoint(doc, cur + 2, end) == Read(cp, cur + |PieceText(Unicode(cp, first, second, low))|)
  {
    hide HasAt, HexIs, EscapeSequence;
    UnicodeParts(cp, first, second, low, doc, cur);
    if cp < 0x10000 {
      UnitDecodes(first, cp, doc, cur + 2, end);
    } else {
      hide SpellsUnit;
      UnitDecodes(first, HighSurrogate(cp), doc, cur + 2, end);
      UnitDecodes(second, low, doc, cur + 8, end);
      UnitSize(first, HighSurrogate(cp));
      UnitSize(second, low);
      PairJoins(cp, low);
    }
  }

  lemma PairJoins(cp: nat, low: nat)
    requires 0x10000 <= cp < 0x110000 && low % 0x400 == LowSurrogate(cp) % 0x400
    ensures 0xD800 <= HighSurrogate(cp) <= 0xDBFF
    ensures 0x10000 + HighSurrogate(cp) % 0x400 * 0x400 + low % 0x400 == cp
  {
  }

  lemma ShortIs(i: nat)
    requires i < 8
    ensures Unescape(SHORT_ESCAPES[i]) == Some(SHORT_MEANINGS[i]) && SHORT_ESCAPES[i] != 'u'
  {
  }

  /** One piece is decoded to what it stands for. */
  lemma PieceDecoded(p: Piece, doc: string, cur: nat, end: nat, done: string)
    requires PieceOk(p) && HasAt(doc, cur, PieceText(p)) && cur + |PieceText(p)| <= end <= |doc|
    ensures DecodeString(doc, cur, end, done) == DecodeString(doc, cur + |PieceText(p)|, end, done + PieceMeaning(p))
  {
    hide HasAt, CodePoint, Utf8, SpellsUnit, Unescape;
    match p
    case Plain(c) => CharAt(doc, cur, [c], 0);
    case Short(i) =>
      CharAt(doc, cur, PieceText(p), 0);
      CharAt(doc, cur, PieceText(p), 1);
      ShortIs(i);
    case Unicode(cp, first, second, low) =>
      UnicodeParts(cp, first, second, low, doc, cur);
      UnicodeDecoded(cp, first, second, low, doc, cur, end);
  }

  /** Decoding gives what the pieces stand for. */
  lemma {:induction false} PiecesDecoded(ps: seq<Piece>, doc: string, cur: nat, end: nat, done: string)
    requires PiecesOk(ps) && HasAt(doc, cur, PiecesText(ps)) && end == cur + |PiecesText(ps)|
    ensures DecodeString(doc, cur, end, done) == Some(done + PiecesMeaning(ps))
  {
    hide HasAt, PieceText, PieceMeaning, PieceOk;
    if ps == [] {
      assert done + "" == done;
    } else {
      var text, meaning := PieceText(ps[0]), PieceMeaning(ps[0]);
      HasAtSplit(doc, cur, text, PiecesText(ps[1..]));
      assert end <= |doc| by { HasAtEnd(doc, cur, PiecesText(ps)); }
      PieceDecoded(ps[0], doc, cur, end, done);
      PiecesDecoded(ps[1..], doc, cur + |text|, end, done + meaning);
      assert done + meaning + PiecesMeaning(ps[1..]) == done + PiecesMeaning(ps);
    }
  }

  lemma HasAtEnd(doc: string, cur: nat, s: string)
    requires HasAt(doc, cur, s)
    ensures cur + |s| <= |doc|
  {
  }

  /** Scanning for the closing quote passes over one piece. */
  lemma PieceScanned(p: Piece, doc: string, cur: nat)
    requires PieceOk(p) && HasAt(doc, cur, PieceText(p))
    ensures cur + |PieceText(p)| <= |doc| && StringEnd(doc, cur) == StringEnd(doc, cur + |PieceText(p)|)
  {
    hide HasAt, SpellsUnit;
    HasAtEnd(doc, cur, PieceText(p));
    match p
    case Plain(c) => CharAt(doc, cur, [c], 0);
    case Short(i) =>
      CharAt(doc, cur, PieceText(p), 0);
      CharAt(doc, cur, PieceText(p), 1);
    case Unicode(cp, first, second, low) =>
      UnicodeParts(cp, first, second, low, doc, cur);
      UnitScanned(first, if cp < 0x10000 then cp else HighSurrogate(cp), doc, cur + 2);
      UnitSize(first, if cp < 0x10000 then cp else HighSurrogate(cp));
      if cp >= 0x10000 {
        UnitScanned(second, low, doc, cur + 8);
        UnitSize(second, low);
      }
  }

  lemma UnitSize(s: string, unit: nat)
    requires SpellsUnit(s, unit)
    ensures |s| == 4 && unit < 0x10000
  {
  }

  /** The closing quote found is the one behind the pieces. */
  lemma {:induction false} PiecesScanned(ps: seq<Piece>, doc: string, cur: nat)
    requires PiecesOk(ps) && HasAt(doc, cur, PiecesText(ps) + "\"")
    ensures StringEnd(doc, cur) == Some(cur + |PiecesText(ps)| + 1)
  {
    hide HasAt, PieceText, PieceOk;
    if ps == [] {
      CharAt(doc, cur, PiecesText(ps) + "\"", 0);
    } else {
      var text, rest := PieceText(ps[0]), PiecesText(ps[1..]) + "\"";
      assert PiecesText(ps) + "\"" == text + rest;
      HasAtSplit(doc, cur, text, rest);
      PieceScanned(ps[0], doc, cur);
      PiecesScanned(ps[1..], doc, cur + |text|);
    }
  }

  function LiteralText(ps: seq<Piece>): string
    requires PiecesOk(ps)
  {
    "\"" + PiecesText(ps) + "\""
  }

  /** However a string is spelled, it is one token that decodes to it. */
  lemma LiteralReads(ps: seq<Piece>, doc: string, cur: nat)
    requires PiecesOk(ps) && HasAt(doc, cur, LiteralText(ps))
    ensures var t := NextToken(doc, cur);
      t == Token(StringToken, cur, cur + |LiteralText(ps)|) && StringOf(doc, t) == Some(PiecesMeaning(ps))
    ensures NextReal(doc, cur) == NextToken(doc, cur)
  {
    hide PiecesText, PiecesMeaning, StringEnd, DecodeString, PiecesOk, NumberEnd, CommentEnd, BlockCommentEnd, LineCommentEnd;
    var body := PiecesText(ps);
    assert LiteralText(ps) == "\"" + (body + "\"");
    HasAtSplit(doc, cur, "\"", body + "\"");
    HasAtSplit(doc, cur + 1, body, "\"");
    CharAt(doc, cur, LiteralText(ps), 0);
    PiecesScanned(ps, doc, cur + 1);
    PiecesDecoded(ps, doc, cur + 1, cur + 1 + |body|, "");
    assert "" + PiecesMeaning(ps) == PiecesMeaning(ps);
  }
}
