/**
  The reader takes nothing else: in a document without comments, whatever is read
  as a value is a text of the grammar, and reads as what that text stands for.
 */
module JsonAccepts {
  import opened Wrappers
  import opened JsonText
  import opened JsonParse
  import opened JsonStrings
  import opened JsonGrammar

  /** Nothing in the document could open a comment. */
  predicate CommentFree(doc: string) {
    forall i | 0 <= i < |doc| - 1 :: !(doc[i] == '/' && (doc[i + 1] == '/' || doc[i + 1] == '*'))
  }

  lemma NoComment(doc: string, cur: nat)
    requires CommentFree(doc) && cur <= |doc|
    ensures NextToken(doc, cur).kind != Comment && NextReal(doc, cur) == NextToken(doc, cur)
  {
    hide SkipSpaces, NumberEnd, StringEnd, BlockCommentEnd, LineCommentEnd, NumberShape;
  }

  lemma HasAtJoin(doc: string, cur: nat, a: string, b: string)
    requires HasAt(doc, cur, a) && HasAt(doc, cur + |a|, b)
    ensures HasAt(doc, cur, a + b)
  {
    var m, n := cur + |a|, cur + |a| + |b|;
    assert doc[cur..n] == doc[cur..m] + doc[m..n];
  }

  // ----- spaces -----

  function Spaces(s: string): (fs: seq<Filler>)
    ensures |fs| == |s|
  {
    seq(|s|, i requires 0 <= i < |s| => Space(s[i]))
  }

  lemma {:induction false} SpacesAre(s: string)
    requires Blank(s)
    ensures FillersOk(Spaces(s)) && FillersText(Spaces(s)) == s
  {
    if s != [] {
      assert Blank(s[1..]) by { assert forall i | 0 <= i < |s| - 1 :: s[1..][i] == s[i + 1]; }
      SpacesAre(s[1..]);
      assert Spaces(s)[1..] == Spaces(s[1..]);
      assert s == [s[0]] + s[1..];
    }
  }

  /** What stands before the next token. */
  lemma GapBefore(doc: string, cur: nat) returns (fs: seq<Filler>)
    requires cur <= |doc|
    ensures FillersOk(fs) && HasAt(doc, cur, FillersText(fs)) && cur + |FillersText(fs)| == NextToken(doc, cur).start
    ensures Blank(doc[cur..NextToken(doc, cur).start]) && FillersText(fs) == doc[cur..NextToken(doc, cur).start]
  {
    hide NextToken, FillersText, FillersOk;
    var t := NextToken(doc, cur);
    TokenText(doc, cur);
    var gap := doc[cur..t.start];
    assert forall i | 0 <= i < |gap| :: gap[i] == doc[cur + i];
    SpacesAre(gap);
    fs := Spaces(gap);
  }

  // ----- strings -----

  lemma HexOf(c: char)
    ensures HexValue(c).Some? ==> HexIs(c, HexValue(c).value)
  {
  }

  lemma UnitOf(doc: string, cur: nat, end: nat)
    requires cur <= end <= |doc| && EscapeSequence(doc, cur, end).Read?
    ensures cur + 4 <= end && SpellsUnit(doc[cur..cur + 4], EscapeSequence(doc, cur, end).value)
  {
    hide SpellsUnit, HexValue, HexIs;
    HexOf(doc[cur]);
    HexOf(doc[cur + 1]);
    HexOf(doc[cur + 2]);
    HexOf(doc[cur + 3]);
    SpellsFour(doc[cur..cur + 4], HexValue(doc[cur]).value, HexValue(doc[cur + 1]).value,
               HexValue(doc[cur + 2]).value, HexValue(doc[cur + 3]).value);
  }

  lemma SpellsFour(s: string, a: nat, b: nat, c: nat, d: nat)
    requires |s| == 4 && a < 16 && b < 16 && c < 16 && d < 16 && HexIs(s[0], a) && HexIs(s[1], b) && HexIs(s[2], c) && HexIs(s[3], d)
    ensures SpellsUnit(s, ((a * 16 + b) * 16 + c) * 16 + d)
  {
    hide HexIs;
    Nibbles(a, b, c, d);
  }

  lemma Nibbles(a: nat, b: nat, c: nat, d: nat)
    requires a < 16 && b < 16 && c < 16 && d < 16
    ensures var unit := ((a * 16 + b) * 16 + c) * 16 + d;
            unit / 0x1000 == a && unit / 0x100 % 16 == b && unit / 16 % 16 == c && unit % 16 == d
  {
  }

  lemma PairSplits(unit: nat, second: nat)
    requires 0xD800 <= unit <= 0xDBFF && second < 0x10000
    ensures var cp := 0x10000 + unit % 0x400 * 0x400 + second % 0x400;
            0x10000 <= cp < 0x110000 && HighSurrogate(cp) == unit && second % 0x400 == LowSurrogate(cp) % 0x400
  {
  }

  /** The escapes that a code point was read from. */
  lemma UnicodeOf(doc: string, cur: nat, end: nat) returns (p: Piece)
    requires cur + 2 <= end <= |doc| && doc[cur] == '\\' && doc[cur + 1] == 'u' && CodePoint(doc, cur + 2, end).Read?
    ensures p.Unicode? && PieceOk(p) && p.cp == CodePoint(doc, cur + 2, end).value
    ensures HasAt(doc, cur, PieceText(p)) && cur + |PieceText(p)| == CodePoint(doc, cur + 2, end).next
  {
    hide SpellsUnit, EscapeSequence;
    UnitOf(doc, cur + 2, end);
    var unit, first := EscapeSequence(doc, cur + 2, end).value, doc[cur + 2..cur + 6];
    assert HasAt(doc, cur, "\\u") by { assert doc[cur..cur + 2] == "\\u"; }
    HasAtJoin(doc, cur, "\\u", first);
    if !(0xD800 <= unit <= 0xDBFF) {
      p := Unicode(unit, first, "", 0);
      assert PieceText(p) == "\\u" + first;
    } else {
      UnitOf(doc, cur + 8, end);
      var low, second := EscapeSequence(doc, cur + 8, end).value, doc[cur + 8..cur + 12];
      PairSplits(unit, low);
      p := Unicode(0x10000 + unit % 0x400 * 0x400 + low % 0x400, first, second, low);
      assert HasAt(doc, cur + 6, "\\u") by { assert doc[cur + 6..cur + 8] == "\\u"; }
      HasAtJoin(doc, cur + 6, "\\u", second);
      HasAtJoin(doc, cur, "\\u" + first, "\\u" + second);
    }
  }

  lemma ShortOf(c: char) returns (i: nat)
    requires Unescape(c).Some?
    ensures i < 8 && SHORT_ESCAPES[i] == c && SHORT_MEANINGS[i] == Unescape(c).value
  {
    i := if c == '\"' then 0 else if c == '\\' then 1 else if c == '/' then 2 else if c == 'b' then 3
         else if c == 'f' then 4 else if c == 'n' then 5 else if c == 'r' then 6 else 7;
  }

  /** The next piece of a literal that decodes. */
  lemma PieceOf(doc: string, cur: nat, end: nat, done: string) returns (p: Piece)
    requires cur < end < |doc| && StringEnd(doc, cur) == Some(end + 1) && DecodeString(doc, cur, end, done).Some?
    ensures PieceOk(p) && HasAt(doc, cur, PieceText(p)) && cur + |PieceText(p)| <= end
  {
    hide CodePoint, SpellsUnit;
    if doc[cur] != '\\' {
      p := Plain(doc[cur]);
    } else if doc[cur + 1] == 'u' {
      p := UnicodeOf(doc, cur, end);
    } else {
      var i := ShortOf(doc[cur + 1]);
      p := Short(i);
      assert doc[cur..cur + 2] == ['\\', SHORT_ESCAPES[i]];
    }
  }

  /** A literal that decodes is made of pieces. */
  lemma {:induction false} PiecesOf(doc: string, cur: nat, end: nat, done: string) returns (ps: seq<Piece>)
    requires cur <= end < |doc| && StringEnd(doc, cur) == Some(end + 1) && DecodeString(doc, cur, end, done).Some?
    ensures PiecesOk(ps) && HasAt(doc, cur, PiecesText(ps)) && cur + |PiecesText(ps)| == end
    ensures DecodeString(doc, cur, end, done) == Some(done + PiecesMeaning(ps))
    decreases end - cur
  {
    hide PieceOk, PieceText, PieceMeaning;
    if cur == end {
      ps := [];
      assert done + "" == done;
    } else {
      var p := PieceOf(doc, cur, end, done);
      hide StringEnd, DecodeString, HasAt;
      PieceScanned(p, doc, cur);
      PieceDecoded(p, doc, cur, end, done);
      var rest := PiecesOf(doc, cur + |PieceText(p)|, end, done + PieceMeaning(p));
      ps := [p] + rest;
      assert ps[1..] == rest;
      HasAtJoin(doc, cur, PieceText(p), PiecesText(rest));
      assert done + PieceMeaning(p) + PiecesMeaning(rest) == done + PiecesMeaning(ps);
    }
  }

  /** A string token that decodes is a literal. */
  lemma LiteralOf(doc: string, cur: nat) returns (ps: seq<Piece>)
    requires cur <= |doc| && NextToken(doc, cur).kind == StringToken && StringOf(doc, NextToken(doc, cur)).Some?
    ensures PiecesOk(ps) && HasAt(doc, NextToken(doc, cur).start, LiteralText(ps))
    ensures NextToken(doc, cur).start + |LiteralText(ps)| == NextToken(doc, cur).end
    ensures StringOf(doc, NextToken(doc, cur)) == Some(PiecesMeaning(ps))
  {
    hide PiecesOk, PiecesText, PiecesMeaning, DecodeString, NumberEnd, CommentEnd, SkipSpaces, NumberShape, StringEnd;
    var t := NextToken(doc, cur);
    assert doc[t.start] == '\"' && StringEnd(doc, t.start + 1) == Some(t.end);
    ClosingQuote(doc, t.start + 1);
    ps := PiecesOf(doc, t.start + 1, t.end - 1, "");
    var body := PiecesText(ps);
    assert doc[t.start..t.start + 1] == "\"" && doc[t.end - 1..t.end] == "\"";
    HasAtJoin(doc, t.start, "\"", body);
    HasAtJoin(doc, t.start, "\"" + body, "\"");
    assert "" + PiecesMeaning(ps) == PiecesMeaning(ps);
  }

  lemma {:induction false} ClosingQuote(doc: string, cur: nat)
    requires cur <= |doc|
    ensures StringEnd(doc, cur).Some? ==> doc[StringEnd(doc, cur).value - 1] == '\"'
    decreases |doc| - cur
  {
    if cur < |doc| {
      if doc[cur] == '\\' { ClosingQuote(doc, if cur + 2 <= |doc| then cur + 2 else cur + 1); }
      else if doc[cur] != '\"' { ClosingQuote(doc, cur + 1); }
    }
  }

  // ----- values -----

  lemma NumberOf(doc: string, cur: nat)
    requires cur <= |doc| && NextToken(doc, cur).kind == Kind.NumberToken
    ensures var t := NextToken(doc, cur);
            NumberOk(doc[t.start..t.end]) && NumberText(doc, t) == doc[t.start..t.end] && Delimited(doc, t.end)
  {
    hide SkipSpaces, NumberEnd, StringEnd, CommentEnd, InNumber;
    var t := NextToken(doc, cur);
    NumberScanned(doc, t.start + 1);
    var text := doc[t.start..t.end];
    FirstDigit(text[0]);
    if t.end < |doc| { NumberChar(doc[t.end]); }
    forall i | 0 <= i < |text| ensures text[i] in NUMBER_CHARS {
      if i > 0 {
        assert InNumber(doc[t.start + i]);
        NumberChar(text[i]);
      }
    }
  }

  lemma FirstDigit(c: char)
    requires '0' <= c <= '9' || c == '-'
    ensures (c == '-' || c in "0123456789") && c in NUMBER_CHARS
  {
  }

  /** A token that ends a value does not carry a number on. */
  lemma WordOf(doc: string, cur: nat, v: Json)
    requires cur <= |doc|
    requires var k := NextToken(doc, cur).kind; (k == True && v == Bool(true)) || (k == False && v == Bool(false)) || (k == NullToken && v == Null)
    ensures var t := NextToken(doc, cur); HasAt(doc, t.start, WordText(v)) && t.start + |WordText(v)| == t.end
  {
    hide NextToken;
    TokenText(doc, cur);
  }

  /** A text stands at the next token; if it is a number, it goes no further. */
  ghost predicate StandsAt(doc: string, cur: nat, t: Text)
    requires cur <= |doc|
  {
    var start := NextToken(doc, cur).start;
    Grammatical(t) && HasAt(doc, start, Spelled(t)) && (t.Number? ==> Delimited(doc, start + |Spelled(t)|))
  }

  /** A value was read: it has a text, which begins at the next token. */
  ghost predicate TextAt(doc: string, cur: nat, t: Text)
    requires cur <= |doc|
  {
    var start := NextToken(doc, cur).start;
    && StandsAt(doc, cur, t) && ParseValue(doc, cur) == Read(Meaning(t), start + |Spelled(t)|)
  }

  /** Whatever is read is the text of a value. */
  lemma {:induction false} TextOf(doc: string, cur: nat) returns (t: Text)
    requires CommentFree(doc) && cur <= |doc| && ParseValue(doc, cur).Read?
    ensures TextAt(doc, cur, t)
    decreases |doc| - cur, 0
  {
    hide CommentFree, NextToken, NextReal, ParseItems, ParseMembers, StringOf, DecodeNumber, TextAt;
    NoComment(doc, cur);
    var token := NextToken(doc, cur);
    match token.kind
    case NumberToken =>
      NumberOf(doc, cur);
      t := Number(doc[token.start..token.end]);
      NumberAt(doc, cur);
    case StringToken =>
      var ps := LiteralOf(doc, cur);
      t := Literal(ps);
      StringAt(doc, cur, ps);
    case True => t := Word(Bool(true)); WordAt(doc, cur, Bool(true));
    case False => t := Word(Bool(false)); WordAt(doc, cur, Bool(false));
    case NullToken => t := Word(Null); WordAt(doc, cur, Null);
    case ArrayBegin => t := ArrayOf(doc, cur);
    case ObjectBegin => t := ObjectOf(doc, cur);
    case _ =>
  }

  lemma NumberAt(doc: string, cur: nat)
    requires CommentFree(doc) && cur <= |doc| && NextToken(doc, cur).kind == Kind.NumberToken
    ensures TextAt(doc, cur, Number(doc[NextToken(doc, cur).start..NextToken(doc, cur).end]))
  {
    hide CommentFree, NextToken, NextReal, ParseValue, DecodeNumber, Delimited, NumberOk, IsNumberText;
    NumberOf(doc, cur);
    NumberRead(doc, cur);
    var t := NextToken(doc, cur);
    NumberIsText(doc[t.start..t.end]);
    assert HasAt(doc, t.start, doc[t.start..t.end]);
  }

  lemma NumberRead(doc: string, cur: nat)
    requires CommentFree(doc) && cur <= |doc| && NextToken(doc, cur).kind == Kind.NumberToken
    ensures ParseValue(doc, cur) == Read(DecodeNumber(NumberText(doc, NextToken(doc, cur))), NextToken(doc, cur).end)
  {
    hide CommentFree, NextToken, NextReal, ParseItems, ParseMembers, StringOf, DecodeNumber, NumberText;
    NoComment(doc, cur);
  }

  lemma StringAt(doc: string, cur: nat, ps: seq<Piece>)
    requires CommentFree(doc) && cur <= |doc| && NextToken(doc, cur).kind == StringToken && PiecesOk(ps)
    requires HasAt(doc, NextToken(doc, cur).start, LiteralText(ps))
    requires NextToken(doc, cur).start + |LiteralText(ps)| == NextToken(doc, cur).end
    requires StringOf(doc, NextToken(doc, cur)) == Some(PiecesMeaning(ps))
    ensures TextAt(doc, cur, Literal(ps))
  {
    hide CommentFree, NextToken, NextReal, ParseItems, ParseMembers, StringOf, DecodeNumber, LiteralText, PiecesMeaning, PiecesOk, HasAt;
    NoComment(doc, cur);
  }

  lemma WordAt(doc: string, cur: nat, v: Json)
    requires CommentFree(doc) && cur <= |doc|
    requires var k := NextToken(doc, cur).kind; (k == True && v == Bool(true)) || (k == False && v == Bool(false)) || (k == NullToken && v == Null)
    ensures TextAt(doc, cur, Word(v))
  {
    hide CommentFree, NextToken, NextReal, ParseItems, ParseMembers, StringOf, DecodeNumber, WordText, HasAt;
    NoComment(doc, cur);
    WordOf(doc, cur, v);
  }

  // ----- arrays -----

  lemma {:induction false} ItemsMeaningPrefix(a: seq<Item>, b: seq<Item>, i: nat)
    requires i <= |a| <= |b| && a == b[..|a|] && ItemsOk(a) && ItemsOk(b)
    ensures ItemsMeaning(a, i) == ItemsMeaning(b, i)
  {
    hide Meaning, ItemOk;
    if i > 0 {
      ItemsMeaningPrefix(a, b, i - 1);
      assert a[i - 1] == b[i - 1];
    }
  }

  /** The mark behind a value. */
  lemma MarkOf(doc: string, cur: nat, mark: char)
    requires cur <= |doc| && NextToken(doc, cur).kind == MarkKind(mark) && (mark == ',' || mark == ']' || mark == '}' || mark == ':')
    ensures var t := NextToken(doc, cur); t.end == t.start + 1 && HasAt(doc, t.start, [mark])
  {
    hide NextToken;
    TokenText(doc, cur);
  }

  lemma ArrayOf(doc: string, cur: nat) returns (t: Text)
    requires CommentFree(doc) && cur <= |doc| && ParseValue(doc, cur).Read? && NextToken(doc, cur).kind == ArrayBegin
    ensures TextAt(doc, cur, t)
    decreases |doc| - cur, 0, 0
  {
    hide CommentFree, NextToken, NextReal, ParseItems, ParseMembers, StringOf, DecodeNumber, TextAt, ItemsText, SkipSpaces;
    NoComment(doc, cur);
    var token := NextToken(doc, cur);
    assert token.end == token.start + 1 && HasAt(doc, token.start, "[") by { hide ParseValue; TokenText(doc, cur); }
    var first := SkipSpaces(doc, token.end);
    SpacesAhead(doc, token.end);
    if MarkAt(doc, first, ']') {
      t := EmptyArrayOf(doc, cur);
    } else {
      SameAhead(doc, first, token.end);
      SameItems(doc, first, token.end, []);
      assert ParseValue(doc, cur) == ParseItems(doc, token.end, []);
      var items := ItemsOf(doc, token.end, []);
      t := Array("", items);
      ArrayAt(doc, cur, items);
    }
  }

  lemma EmptyArrayOf(doc: string, cur: nat) returns (t: Text)
    requires CommentFree(doc) && cur <= |doc| && NextToken(doc, cur).kind == ArrayBegin
    requires NextToken(doc, cur).end == NextToken(doc, cur).start + 1 && HasAt(doc, NextToken(doc, cur).start, "[")
    requires MarkAt(doc, SkipSpaces(doc, NextToken(doc, cur).end), ']')
    ensures TextAt(doc, cur, t)
  {
    hide CommentFree, NextToken, ParseValue, SkipSpaces, Blank;
    var token := NextToken(doc, cur);
    var first := SkipSpaces(doc, token.end);
    var blank := doc[token.end..first];
    SkippedBlank(doc, token.end);
    t := Array(blank, []);
    assert HasAt(doc, token.end, blank) && HasAt(doc, first, "]");
    hide HasAt;
    HasAtJoin(doc, token.end, blank, "]");
    HasAtJoin(doc, token.start, "[", blank + "]");
    EmptyArrayRead(doc, cur);
  }

  lemma SkippedBlank(doc: string, cur: nat)
    requires cur <= |doc|
    ensures Blank(doc[cur..SkipSpaces(doc, cur)])
  {
    hide SkipSpaces;
    SpacesSkipped(doc, cur);
    var blank := doc[cur..SkipSpaces(doc, cur)];
    assert forall i | 0 <= i < |blank| :: blank[i] == doc[cur + i];
  }

  lemma EmptyArrayRead(doc: string, cur: nat)
    requires CommentFree(doc) && cur <= |doc| && NextToken(doc, cur).kind == ArrayBegin
    requires MarkAt(doc, SkipSpaces(doc, NextToken(doc, cur).end), ']')
    ensures ParseValue(doc, cur) == Read(Arr([]), SkipSpaces(doc, NextToken(doc, cur).end) + 1)
  {
    hide CommentFree, NextToken, NextReal, ParseItems, ParseMembers, StringOf, DecodeNumber, SkipSpaces;
    NoComment(doc, cur);
  }

  lemma ArrayAt(doc: string, cur: nat, items: seq<Item>)
    requires cur <= |doc| && items != [] && ItemsOk(items)
    requires var token := NextToken(doc, cur);
             && token.end == token.start + 1 && HasAt(doc, token.start, "[") && HasAt(doc, token.end, ItemsText(items, 0))
             && ParseValue(doc, cur) == Read(Arr(ItemsMeaning(items, |items|)), token.end + |ItemsText(items, 0)|)
    ensures TextAt(doc, cur, Array("", items))
  {
    hide NextToken, ParseValue, ItemsText, HasAt, ItemOk, ItemsMeaning;
    HasAtJoin(doc, NextToken(doc, cur).start, "[", ItemsText(items, 0));
  }

  /** One round of the item loop read an item. */
  lemma ItemRead(doc: string, cur: nat, done: seq<Json>)
    requires CommentFree(doc) && cur <= |doc| && ParseItems(doc, cur, done).Read?
    ensures ParseValue(doc, cur).Read?
    ensures var v := ParseValue(doc, cur); var t := NextToken(doc, v.next);
            && (t.kind == Comma || t.kind == ArrayEnd)
            && ParseItems(doc, cur, done) ==
               if t.kind == Comma then ParseItems(doc, t.end, done + [v.value]) else Read(Arr(done + [v.value]), t.end)
  {
    hide CommentFree, NextToken, NextReal, ParseValue;
    NoComment(doc, ParseValue(doc, cur).next);
  }

  /** The items behind those read so far. */
  lemma {:induction false} ItemsOf(doc: string, cur: nat, prev: seq<Item>) returns (items: seq<Item>)
    requires CommentFree(doc) && cur <= |doc| && ItemsOk(prev) && ParseItems(doc, cur, ItemsMeaning(prev, |prev|)).Read?
    ensures ItemsOk(items) && |prev| < |items| && prev == items[..|prev|]
    ensures HasAt(doc, cur, ItemsText(items, |prev|))
    ensures ParseItems(doc, cur, ItemsMeaning(prev, |prev|)) ==
            Read(Arr(ItemsMeaning(items, |items|)), cur + |ItemsText(items, |prev|)|)
    decreases |doc| - cur, 1
  {
    hide CommentFree, NextToken, NextReal, ParseValue, ParseItems, ItemOk, ItemText, HasAt, Meaning, ItemsMeaning, TextAt;
    ItemRead(doc, cur, ItemsMeaning(prev, |prev|));
    var next := ParseValue(doc, cur).next;
    var t := TextOf(doc, cur);
    var item := ItemOf(doc, cur, t);
    var token := NextToken(doc, next);
    var more := prev + [item];
    MoreItems(prev, item);
    MarkOf(doc, next, if token.kind == Comma then ',' else ']');
    if token.kind == Comma {
      items := ItemsOf(doc, token.end, more);
      assert items[|prev|] == item;
      assert items[..|prev|] == more[..|prev|] == prev;
      HasAtJoin(doc, token.start, ",", ItemsText(items, |more|));
      HasAtJoin(doc, cur, ItemText(item), "," + ItemsText(items, |more|));
    } else {
      items := more;
      HasAtJoin(doc, cur, ItemText(item), "]");
    }
  }

  lemma MoreItems(prev: seq<Item>, item: Item)
    requires ItemsOk(prev) && ItemOk(item)
    ensures ItemsOk(prev + [item])
    ensures ItemsMeaning(prev + [item], |prev| + 1) == ItemsMeaning(prev, |prev|) + [Meaning(item.value)]
  {
    hide ItemOk, Meaning;
    ItemsMeaningPrefix(prev, prev + [item], |prev|);
  }

  /** A value read, with the spaces around it, up to the token behind. */
  lemma ItemOf(doc: string, cur: nat, t: Text) returns (item: Item)
    requires CommentFree(doc) && cur <= |doc| && ParseValue(doc, cur).Read? && TextAt(doc, cur, t)
    ensures ItemOk(item) && item.value == t && HasAt(doc, cur, ItemText(item))
    ensures cur + |ItemText(item)| == NextToken(doc, ParseValue(doc, cur).next).start
    ensures ParseValue(doc, cur).value == Meaning(t)
  {
    hide CommentFree, NextToken, ParseValue, Spelled, Meaning, Grammatical, FillersText, FillersOk, HasAt;
    var next := ParseValue(doc, cur).next;
    var before := GapBefore(doc, cur);
    var after := GapBefore(doc, next);
    item := Item(before, t, after);
    HasAtJoin(doc, cur, FillersText(before), Spelled(t));
    HasAtJoin(doc, cur, FillersText(before) + Spelled(t), FillersText(after));
  }

  // ----- objects -----

  lemma {:induction false} EntriesMeaningPrefix(a: seq<Entry>, b: seq<Entry>, i: nat)
    requires i <= |a| <= |b| && a == b[..|a|] && EntriesOk(a) && EntriesOk(b)
    ensures EntriesMeaning(a, i) == EntriesMeaning(b, i)
  {
    hide Meaning, Insert, CString, PiecesMeaning;
    if i > 0 {
      EntriesMeaningPrefix(a, b, i - 1);
      assert a[i - 1] == b[i - 1];
    }
  }

  /** The name read last. */
  ghost function LastName(prev: seq<Entry>): string
    requires EntriesOk(prev)
  {
    if prev == [] then "" else PiecesMeaning(prev[|prev| - 1].name)
  }

  /** What stands behind the members read so far: more members, or the end. */
  ghost function Tail(members: seq<Entry>, i: nat, inside: seq<Filler>, extra: Option<seq<Filler>>): string
    requires i <= |members| && EntriesOk(members)
  {
    if i < |members| then EntriesText(members, i, extra)
    else (if extra.Some? then FillersText(extra.value) else FillersText(inside)) + "}"
  }

  lemma ObjectOf(doc: string, cur: nat) returns (t: Text)
    requires CommentFree(doc) && cur <= |doc| && ParseValue(doc, cur).Read? && NextToken(doc, cur).kind == ObjectBegin
    ensures TextAt(doc, cur, t)
    decreases |doc| - cur, 0, 0
  {
    hide CommentFree, NextToken, NextReal, ParseItems, ParseMembers, StringOf, DecodeNumber, TextAt, EntriesText, FillersText, ExtraOk, EntryOk;
    NoComment(doc, cur);
    var token := NextToken(doc, cur);
    assert token.end == token.start + 1 && HasAt(doc, token.start, "{") by { hide ParseValue; TokenText(doc, cur); }
    assert ParseValue(doc, cur) == ParseMembers(doc, token.end, "", []);
    var members, inside, extra := EntriesOf(doc, token.end, []);
    t := Object(inside, members, extra);
    ObjectAt(doc, cur, inside, members, extra);
  }

  lemma ObjectAt(doc: string, cur: nat, inside: seq<Filler>, members: seq<Entry>, extra: Option<seq<Filler>>)
    requires cur <= |doc| && EntriesOk(members) && FillersOk(inside) && ExtraOk(members, extra)
    requires var token := NextToken(doc, cur);
             && token.end == token.start + 1 && HasAt(doc, token.start, "{") && HasAt(doc, token.end, Tail(members, 0, inside, extra))
             && ParseValue(doc, cur) == Read(Obj(EntriesMeaning(members, |members|)), token.end + |Tail(members, 0, inside, extra)|)
    ensures TextAt(doc, cur, Object(inside, members, extra))
  {
    hide NextToken, ParseValue, EntriesText, HasAt, EntryOk, EntriesMeaning, FillersText, FillersOk, PiecesMeaning, PiecesOk;
    HasAtJoin(doc, NextToken(doc, cur).start, "{", Tail(members, 0, inside, extra));
  }

  lemma EndOf(prev: seq<Entry>, gap: seq<Filler>)
    requires EntriesOk(prev) && LastName(prev) == "" && FillersOk(gap)
    ensures ExtraOk(prev, if prev == [] then None else Some(gap))
  {
    if prev != [] { assert EntryOk(prev[|prev| - 1]); }
  }

  lemma MoreEntries(prev: seq<Entry>, e: Entry)
    requires EntriesOk(prev) && EntryOk(e)
    ensures EntriesOk(prev + [e]) && LastName(prev + [e]) == PiecesMeaning(e.name)
    ensures EntriesMeaning(prev + [e], |prev| + 1) == Insert(EntriesMeaning(prev, |prev|), CString(PiecesMeaning(e.name)), Meaning(e.value))
  {
    hide Meaning, Insert, CString, PiecesMeaning, Grammatical, FillersOk, Blank, PiecesOk;
    EntriesMeaningPrefix(prev, prev + [e], |prev|);
  }

  lemma Closings(fs: seq<Filler>)
    ensures Closing(None) == "}" && Closing(Some(fs)) == "," + (FillersText(fs) + "}") && FillersOk([])
  {
  }

  lemma EntryThenMore(doc: string, cur: nat, members: seq<Entry>, i: nat, inside: seq<Filler>, extra: Option<seq<Filler>>)
    requires i < |members| && EntriesOk(members) && (i + 1 == |members| ==> extra.Some?)
    requires var mark := cur + |EntryText(members[i])|;
             HasAt(doc, cur, EntryText(members[i])) && HasAt(doc, mark, ",") && HasAt(doc, mark + 1, Tail(members, i + 1, inside, extra))
    ensures HasAt(doc, cur, Tail(members, i, inside, extra))
    ensures |Tail(members, i, inside, extra)| == |EntryText(members[i])| + 1 + |Tail(members, i + 1, inside, extra)|
  {
    hide HasAt, EntryText, EntryOk, FillersText, Closing;
    var mark, rest := cur + |EntryText(members[i])|, Tail(members, i + 1, inside, extra);
    if extra.Some? { Closings(extra.value); }
    HasAtJoin(doc, mark, ",", rest);
    HasAtJoin(doc, cur, EntryText(members[i]), "," + rest);
  }

  lemma EntryThenEnd(doc: string, cur: nat, members: seq<Entry>, i: nat)
    requires i + 1 == |members| && EntriesOk(members)
    requires HasAt(doc, cur, EntryText(members[i])) && HasAt(doc, cur + |EntryText(members[i])|, "}")
    ensures HasAt(doc, cur, Tail(members, i, [], None)) && |Tail(members, i, [], None)| == |EntryText(members[i])| + 1
  {
    hide HasAt, EntryText, EntryOk, Closing;
    Closings([]);
    HasAtJoin(doc, cur, EntryText(members[i]), "}");
  }

  lemma NameOf(doc: string, cur: nat) returns (before: seq<Filler>, name: seq<Piece>, gap: string)
    requires CommentFree(doc) && cur <= |doc| && ParseName(doc, NextToken(doc, cur)).Read?
    ensures FillersOk(before) && PiecesOk(name) && Blank(gap) && PiecesMeaning(name) == ParseName(doc, NextToken(doc, cur)).value
    ensures var text := FillersText(before) + LiteralText(name) + gap + ":";
            HasAt(doc, cur, text) && cur + |text| == ParseName(doc, NextToken(doc, cur)).next
  {
    hide CommentFree, NextToken, StringOf, FillersText, FillersOk, Blank, PiecesOk, PiecesMeaning, LiteralText, HasAt;
    var t := NextToken(doc, cur);
    before := GapBefore(doc, cur);
    name := LiteralOf(doc, cur);
    var spaces := GapBefore(doc, t.end);
    var colon := NextToken(doc, t.end);
    gap := doc[t.end..colon.start];
    assert HasAt(doc, t.end, gap);
    MarkOf(doc, t.end, ':');
    HasAtJoin(doc, cur, FillersText(before), LiteralText(name));
    HasAtJoin(doc, cur, FillersText(before) + LiteralText(name), gap);
    HasAtJoin(doc, cur, FillersText(before) + LiteralText(name) + gap, ":");
  }

  /** A member can be read: name, colon and value, with a comma or a brace behind. */
  ghost predicate MemberHere(doc: string, cur: nat)
    requires cur <= |doc|
  {
    && ParseName(doc, NextToken(doc, cur)).Read?
    && ParseValue(doc, ParseName(doc, NextToken(doc, cur)).next).Read?
    && AfterMember(doc, ParseValue(doc, ParseName(doc, NextToken(doc, cur)).next).next).Some?
  }

  ghost function MemberName(doc: string, cur: nat): Parsed<string>
    requires cur <= |doc| && MemberHere(doc, cur)
  {
    ParseName(doc, NextToken(doc, cur))
  }

  ghost function MemberValue(doc: string, cur: nat): (v: Parsed<Json>)
    requires cur <= |doc| && MemberHere(doc, cur)
    ensures v.Read? && cur < v.next <= |doc|
  {
    ParseValue(doc, ParseName(doc, NextToken(doc, cur)).next)
  }

  /** The member read at a position, with a comma or the closing brace behind it. */
  ghost predicate EntryAt(doc: string, cur: nat, e: Entry)
    requires cur <= |doc| && MemberHere(doc, cur)
  {
    var after := NextToken(doc, MemberValue(doc, cur).next);
    && EntryOk(e) && HasAt(doc, cur, EntryText(e))
    && MemberName(doc, cur).value == PiecesMeaning(e.name) && MemberValue(doc, cur).value == Meaning(e.value)
    && AfterMember(doc, MemberValue(doc, cur).next) == Some(after)
    && after.start == cur + |EntryText(e)| && after.end == after.start + 1
    && if after.kind == Comma then HasAt(doc, after.start, ",") else after.kind == ObjectEnd && HasAt(doc, after.start, "}")
  }

  lemma AfterOf(doc: string, cur: nat)
    requires CommentFree(doc) && cur <= |doc| && AfterMember(doc, cur).Some?
    ensures var t := NextToken(doc, cur);
            && AfterMember(doc, cur) == Some(t) && t.end == t.start + 1
            && if t.kind == Comma then HasAt(doc, t.start, ",") else t.kind == ObjectEnd && HasAt(doc, t.start, "}")
  {
    hide CommentFree, NextToken, NextReal, HasAt;
    NoComment(doc, cur);
    MarkOf(doc, cur, if NextToken(doc, cur).kind == Comma then ',' else '}');
  }

  lemma {:induction false} EntryOf(doc: string, cur: nat) returns (e: Entry)
    requires CommentFree(doc) && cur <= |doc| && MemberHere(doc, cur)
    ensures EntryAt(doc, cur, e)
    decreases |doc| - cur, 0
  {
    hide CommentFree, NextToken, NextReal, ParseValue, ParseName, AfterMember, HasAt, FillersText, FillersOk, Blank, PiecesOk;
    hide PiecesMeaning, LiteralText, Spelled, Meaning, Grammatical, Delimited;
    var before, name, gap := NameOf(doc, cur);
    var colon := MemberName(doc, cur).next;
    var next := MemberValue(doc, cur).next;
    var t := TextOf(doc, colon);
    var between := GapBefore(doc, colon);
    var after := GapBefore(doc, next);
    AfterOf(doc, next);
    e := Entry(before, name, gap, between, t, after);
    EntryJoins(e, doc, cur, colon, next);
  }

  lemma EntryJoins(e: Entry, doc: string, cur: nat, colon: nat, next: nat)
    requires EntryOk(e) && cur <= |doc| && colon <= |doc| && next <= |doc|
    requires HasAt(doc, cur, NameText(e)) && cur + |NameText(e)| == colon && HasAt(doc, colon, FillersText(e.between))
    requires HasAt(doc, colon + |FillersText(e.between)|, Spelled(e.value)) && colon + |FillersText(e.between)| + |Spelled(e.value)| == next
    requires HasAt(doc, next, FillersText(e.after))
    ensures HasAt(doc, cur, EntryText(e)) && cur + |EntryText(e)| == next + |FillersText(e.after)|
  {
    hide HasAt, NameText, FillersText, Spelled, Grammatical, FillersOk, Blank, PiecesOk;
    HasAtJoin(doc, cur, NameText(e), FillersText(e.between));
    HasAtJoin(doc, cur, NameText(e) + FillersText(e.between), Spelled(e.value));
    HasAtJoin(doc, cur, NameText(e) + FillersText(e.between) + Spelled(e.value), FillersText(e.after));
  }

  /** One round of the member loop read a member. */
  lemma MemberRead(doc: string, cur: nat, last: string, done: seq<Member>)
    requires CommentFree(doc) && cur <= |doc| && ParseMembers(doc, cur, last, done).Read?
    requires !(NextToken(doc, cur).kind == ObjectEnd && last == "")
    ensures MemberHere(doc, cur)
    ensures var after := AfterMember(doc, MemberValue(doc, cur).next).value;
            var more := Insert(done, CString(MemberName(doc, cur).value), MemberValue(doc, cur).value);
            ParseMembers(doc, cur, last, done) ==
            if after.kind == ObjectEnd then Read(Obj(more), after.end) else ParseMembers(doc, after.end, MemberName(doc, cur).value, more)
  {
    hide CommentFree, NextToken, NextReal, ParseValue, ParseName, AfterMember, Insert, CString;
    NoComment(doc, cur);
  }

  /** The members behind those read so far. */
  lemma {:induction false} EntriesOf(doc: string, cur: nat, prev: seq<Entry>)
    returns (members: seq<Entry>, inside: seq<Filler>, extra: Option<seq<Filler>>)
    requires CommentFree(doc) && cur <= |doc| && EntriesOk(prev)
    requires ParseMembers(doc, cur, LastName(prev), EntriesMeaning(prev, |prev|)).Read?
    ensures EntriesOk(members) && |prev| <= |members| && prev == members[..|prev|] && FillersOk(inside) && ExtraOk(members, extra)
    ensures |prev| == |members| ==> (extra.Some? <==> prev != [])
    ensures HasAt(doc, cur, Tail(members, |prev|, inside, extra))
    ensures ParseMembers(doc, cur, LastName(prev), EntriesMeaning(prev, |prev|)) ==
            Read(Obj(EntriesMeaning(members, |members|)), cur + |Tail(members, |prev|, inside, extra)|)
    decreases |doc| - cur, 1
  {
    hide CommentFree, NextToken, NextReal, ParseValue, EntryOk, EntryText, HasAt, ParseName, AfterMember, Insert, CString, PiecesMeaning;
    hide FillersText, FillersOk, Closing, ParseMembers, LastName, ExtraOk, Meaning, MemberHere, MemberName, MemberValue, EntriesText, EntriesMeaning;
    if NextToken(doc, cur).kind == ObjectEnd && LastName(prev) == "" {
      members := prev;
      inside := GapBefore(doc, cur);
      extra := if prev == [] then None else Some(inside);
      MarkOf(doc, cur, '}');
      HasAtJoin(doc, cur, FillersText(inside), "}");
      EndOf(prev, inside);
      EndRead(doc, cur, EntriesMeaning(prev, |prev|));
    } else {
      MemberRead(doc, cur, LastName(prev), EntriesMeaning(prev, |prev|));
      var e := EntryOf(doc, cur);
      var more := prev + [e];
      MoreEntries(prev, e);
      var after := NextToken(doc, MemberValue(doc, cur).next);
      if after.kind == Comma {
        members, inside, extra := EntriesOf(doc, after.end, more);
        assert members[|prev|] == e;
        assert members[..|prev|] == more[..|prev|] == prev;
        EntryThenMore(doc, cur, members, |prev|, inside, extra);
      } else {
        members, inside, extra := more, [], None;
        Closings([]);
        NothingExtra(members);
        EntryThenEnd(doc, cur, members, |prev|);
      }
    }
  }

  lemma NothingExtra(members: seq<Entry>)
    ensures ExtraOk(members, None)
  {
  }

  lemma EndRead(doc: string, cur: nat, done: seq<Member>)
    requires CommentFree(doc) && cur <= |doc| && NextToken(doc, cur).kind == ObjectEnd
    ensures ParseMembers(doc, cur, "", done) == Read(Obj(done), NextToken(doc, cur).end)
  {
    hide CommentFree, NextToken, NextReal, ParseName;
    NoComment(doc, cur);
  }

  // ----- exactly the grammar -----

  /**
    In a document without comments a value is read exactly if a text of the
    grammar stands at the next token; what is read is what the text stands for.
   */
  lemma ReadsExactlyTexts(doc: string, cur: nat)
    requires CommentFree(doc) && cur <= |doc|
    ensures ParseValue(doc, cur).Read? <==> exists t :: StandsAt(doc, cur, t)
    ensures forall t | StandsAt(doc, cur, t) ::
              ParseValue(doc, cur) == Read(Meaning(t), NextToken(doc, cur).start + |Spelled(t)|)
  {
    hide CommentFree, ParseValue, Spelled, Grammatical, Meaning, NextToken, HasAt, Delimited;
    forall t | StandsAt(doc, cur, t) ensures ParseValue(doc, cur) == Read(Meaning(t), NextToken(doc, cur).start + |Spelled(t)|) {
      var gap := GapBefore(doc, cur);
      ReadThrough(gap, doc, cur);
      TextParses(t, doc, NextToken(doc, cur).start);
    }
    if ParseValue(doc, cur).Read? {
      var t := TextOf(doc, cur);
      assert StandsAt(doc, cur, t);
    }
  }
}
