/**
  The texts of RFC 8259, sections 2 to 7, as trees, with comments where the
  reader takes them, and what the reader makes of each: its value
  (lib/json/jsoncpp.cpp:274-735).
 */
module JsonGrammar {
  import opened Wrappers
  import opened JsonText
  import opened JsonParse
  import opened JsonStrings

  // ----- between tokens -----

  const SPACES := " \t\n\r"

  predicate Blank(s: string) {
    forall i | 0 <= i < |s| :: s[i] in SPACES
  }

  /** A space, a comment up to star and slash, or a comment up to the end of the line. */
  datatype Filler = Space(c: char) | Block(body: string) | Line(body: string, end: char)

  predicate FillerOk(f: Filler) {
    match f
    case Space(c) => c in SPACES
    case Block(body) => forall i | 0 <= i < |body| - 1 :: !(body[i] == '*' && body[i + 1] == '/')
    case Line(body, end) => '\r' !in body && '\n' !in body && (end == '\r' || end == '\n')
  }

  function FillerText(f: Filler): (s: string)
    ensures |s| > 0
  {
    match f
    case Space(c) => [c]
    case Block(body) => "/*" + body + "*/"
    case Line(body, end) => "//" + body + [end]
  }

  predicate FillersOk(fs: seq<Filler>) {
    forall i | 0 <= i < |fs| :: FillerOk(fs[i])
  }

  function FillersText(fs: seq<Filler>): string {
    if fs == [] then "" else FillerText(fs[0]) + FillersText(fs[1..])
  }

  /** Blanks are passed over. */
  lemma {:induction false} BlankSkipped(s: string, doc: string, cur: nat)
    requires Blank(s) && HasAt(doc, cur, s)
    ensures cur + |s| <= |doc| && SkipSpaces(doc, cur) == SkipSpaces(doc, cur + |s|)
    decreases |s|
  {
    if s != [] {
      assert s == [s[0]] + s[1..];
      HasAtSplit(doc, cur, [s[0]], s[1..]);
      CharAt(doc, cur, s, 0);
      assert Blank(s[1..]) by { assert forall i | 0 <= i < |s| - 1 :: s[1..][i] == s[i + 1]; }
      BlankSkipped(s[1..], doc, cur + 1);
    }
  }

  /** The next token does not change when blanks before it are left out. */
  lemma BlankBefore(s: string, doc: string, cur: nat)
    requires Blank(s) && HasAt(doc, cur, s)
    ensures cur + |s| <= |doc| && NextToken(doc, cur) == NextToken(doc, cur + |s|)
  {
    hide Blank, HasAt, SkipSpaces, NumberEnd, StringEnd, CommentEnd;
    BlankSkipped(s, doc, cur);
  }

  lemma {:induction false} BlockEndAt(doc: string, cur: nat, end: nat)
    requires cur <= end && end + 2 <= |doc| && doc[end] == '*' && doc[end + 1] == '/'
    requires forall k | cur <= k < end :: !(doc[k] == '*' && doc[k + 1] == '/')
    ensures BlockCommentEnd(doc, cur) == Some(end + 2)
    decreases end - cur
  {
    if cur < end { BlockEndAt(doc, cur + 1, end); }
  }

  lemma {:induction false} LineEndAt(doc: string, cur: nat, end: nat)
    requires cur <= end < |doc| && (doc[end] == '\r' || doc[end] == '\n')
    requires forall k | cur <= k < end :: doc[k] != '\r' && doc[k] != '\n'
    ensures LineCommentEnd(doc, cur) == end + 1
    decreases end - cur
  {
    if cur < end { LineEndAt(doc, cur + 1, end); }
  }

  lemma CharsAt(doc: string, cur: nat, s: string)
    requires HasAt(doc, cur, s)
    ensures cur + |s| <= |doc| && forall k | cur <= k < cur + |s| :: doc[k] == s[k - cur]
  {
    forall k | cur <= k < cur + |s| ensures doc[k] == s[k - cur] { CharAt(doc, cur, s, k - cur); }
  }

  lemma BlockHere(body: string, doc: string, cur: nat)
    requires FillerOk(Block(body)) && HasAt(doc, cur, FillerText(Block(body)))
    ensures NextToken(doc, cur) == Token(Comment, cur, cur + |body| + 4)
  {
    hide HasAt, NumberEnd, StringEnd, BlockCommentEnd, LineCommentEnd;
    var text := FillerText(Block(body));
    CharsAt(doc, cur, text);
    assert doc[cur] == text[0] && doc[cur + 1] == text[1];
    var end := cur + 2 + |body|;
    assert doc[end] == text[2 + |body|] && doc[end + 1] == text[3 + |body|];
    forall k | cur + 2 <= k < end ensures !(doc[k] == '*' && doc[k + 1] == '/') {
      assert doc[k] == text[k - cur] == body[k - cur - 2];
      assert doc[k + 1] == text[k + 1 - cur];
    }
    BlockEndAt(doc, cur + 2, end);
  }

  lemma LineHere(body: string, stop: char, doc: string, cur: nat)
    requires FillerOk(Line(body, stop)) && HasAt(doc, cur, FillerText(Line(body, stop)))
    ensures NextToken(doc, cur) == Token(Comment, cur, cur + |body| + 3)
  {
    hide HasAt, NumberEnd, StringEnd, BlockCommentEnd, LineCommentEnd;
    var text := FillerText(Line(body, stop));
    CharsAt(doc, cur, text);
    assert doc[cur] == text[0] && doc[cur + 1] == text[1];
    var end := cur + 2 + |body|;
    assert doc[end] == text[2 + |body|] == stop;
    forall k | cur + 2 <= k < end ensures doc[k] != '\r' && doc[k] != '\n' {
      assert doc[k] == text[k - cur] == body[k - cur - 2];
    }
    LineEndAt(doc, cur + 2, end);
  }

  lemma FillerSkipped(f: Filler, doc: string, cur: nat)
    requires FillerOk(f) && HasAt(doc, cur, FillerText(f))
    ensures cur + |FillerText(f)| <= |doc| && NextReal(doc, cur) == NextReal(doc, cur + |FillerText(f)|)
  {
    hide HasAt, NextToken;
    HasAtEnd(doc, cur, FillerText(f));
    match f
    case Space(_) => BlankBefore(FillerText(f), doc, cur);
    case Block(body) => BlockHere(body, doc, cur);
    case Line(body, stop) => LineHere(body, stop, doc, cur);
  }

  /** Spaces and comments are passed over. */
  lemma {:induction false} FillersSkipped(fs: seq<Filler>, doc: string, cur: nat)
    requires FillersOk(fs) && HasAt(doc, cur, FillersText(fs))
    ensures cur + |FillersText(fs)| <= |doc| && NextReal(doc, cur) == NextReal(doc, cur + |FillersText(fs)|)
  {
    hide HasAt, NextReal, FillerText, FillerOk;
    HasAtEnd(doc, cur, FillersText(fs));
    if fs != [] {
      HasAtSplit(doc, cur, FillerText(fs[0]), FillersText(fs[1..]));
      FillerSkipped(fs[0], doc, cur);
      FillersSkipped(fs[1..], doc, cur + |FillerText(fs[0])|);
    }
  }

  // ----- tokens in sight -----

  predicate MarkAt(doc: string, cur: nat, mark: char) {
    cur < |doc| && doc[cur] == mark
  }

  /** No number character follows. */
  predicate Delimited(doc: string, end: nat) {
    end >= |doc| || doc[end] !in NUMBER_CHARS
  }

  /** A token in sight: no space and no comment before it. */
  lemma TokenHere(doc: string, cur: nat)
    requires cur < |doc| && doc[cur] !in SPACES && doc[cur] != '/'
    ensures NextReal(doc, cur) == NextToken(doc, cur) && NextToken(doc, cur).start == cur
  {
  }

  function MarkKind(mark: char): Kind {
    match mark
    case '[' => ArrayBegin
    case ']' => ArrayEnd
    case '{' => ObjectBegin
    case '}' => ObjectEnd
    case ',' => Comma
    case ':' => Colon
    case _ => Error
  }

  /** A one-character token at a position. */
  lemma MarkHere(doc: string, cur: nat, mark: char)
    requires MarkAt(doc, cur, mark) && mark in "[]{},:"
    ensures NextReal(doc, cur) == NextToken(doc, cur) == Token(MarkKind(mark), cur, cur + 1)
  {
    hide NextReal;
    TokenHere(doc, cur);
  }

  lemma MarkText(doc: string, cur: nat, mark: char, rest: string)
    requires HasAt(doc, cur, [mark] + rest)
    ensures MarkAt(doc, cur, mark) && HasAt(doc, cur + 1, rest)
  {
    HasAtSplit(doc, cur, [mark], rest);
    CharAt(doc, cur, [mark], 0);
  }

  const NUMBER_CHARS := "0123456789.eE+-"

  lemma FillersStart(fs: seq<Filler>)
    requires FillersOk(fs) && fs != []
    ensures FillersText(fs) != "" && FillersText(fs)[0] !in NUMBER_CHARS
  {
    hide FillerOk, FillerText;
    assert FillerOk(fs[0]);
    FillerStarts(fs[0]);
    NoNumberStart(FillerText(fs[0])[0]);
    assert FillersText(fs)[0] == FillerText(fs[0])[0];
  }

  lemma FillerStarts(f: Filler)
    requires FillerOk(f)
    ensures FillerText(f)[0] in SPACES || FillerText(f)[0] == '/'
  {
  }

  lemma NoNumberStart(c: char)
    requires c in SPACES || c == '/'
    ensures c !in NUMBER_CHARS
  {
  }

  /** A number before spaces, comments and a mark ends there. */
  lemma EndsBefore(fs: seq<Filler>, doc: string, cur: nat, mark: char)
    requires FillersOk(fs) && HasAt(doc, cur, FillersText(fs)) && MarkAt(doc, cur + |FillersText(fs)|, mark) && mark in "[]{},:"
    ensures Delimited(doc, cur)
  {
    hide HasAt, FillerText, FillerOk;
    if fs != [] {
      FillersStart(fs);
      CharAt(doc, cur, FillersText(fs), 0);
    }
  }

  /** A mark behind spaces and comments is the next token. */
  lemma MarkBehind(fs: seq<Filler>, doc: string, cur: nat, mark: char)
    requires FillersOk(fs) && HasAt(doc, cur, FillersText(fs)) && MarkAt(doc, cur + |FillersText(fs)|, mark) && mark in "[]{},:"
    ensures cur <= |doc|
    ensures var end := cur + |FillersText(fs)|; NextReal(doc, cur) == Token(MarkKind(mark), end, end + 1)
  {
    hide NextReal, HasAt, FillerText, FillerOk;
    FillersSkipped(fs, doc, cur);
    MarkHere(doc, cur + |FillersText(fs)|, mark);
  }

  // ----- texts -----

  /**
    A text without the spaces around it: a word, a number, a string, an array or
    an object. Behind a last member whose name is empty, and only there, the
    reader takes an extra comma.
   */
  datatype Text =
    | Word(v: Json)
    | Number(text: string)
    | Literal(ps: seq<Piece>)
    | Array(blank: string, items: seq<Item>)
    | Object(inside: seq<Filler>, members: seq<Entry>, extra: Option<seq<Filler>>)

  datatype Item = Item(before: seq<Filler>, value: Text, after: seq<Filler>)

  /** A member; before its colon the reader takes no comment. */
  datatype Entry = Entry(before: seq<Filler>, name: seq<Piece>, gap: string, between: seq<Filler>, value: Text, after: seq<Filler>)

  predicate NumberOk(text: string) {
    && text != "" && (text[0] == '-' || text[0] in "0123456789")
    && forall i | 0 <= i < |text| :: text[i] in NUMBER_CHARS
  }

  ghost predicate Grammatical(t: Text) {
    match t
    case Word(v) => v.Null? || v.Bool?
    case Number(text) => NumberOk(text)
    case Literal(ps) => PiecesOk(ps)
    case Array(blank, items) => Blank(blank) && forall i | 0 <= i < |items| :: ItemOk(items[i])
    case Object(inside, members, extra) =>
      FillersOk(inside) && (forall i | 0 <= i < |members| :: EntryOk(members[i])) && ExtraOk(members, extra)
  }

  /** An extra comma is behind a member whose name is empty. */
  ghost predicate ExtraOk(members: seq<Entry>, extra: Option<seq<Filler>>) {
    extra.Some? ==>
      && members != [] && FillersOk(extra.value)
      && PiecesOk(members[|members| - 1].name) && PiecesMeaning(members[|members| - 1].name) == ""
  }

  ghost predicate ItemOk(item: Item) {
    FillersOk(item.before) && Grammatical(item.value) && FillersOk(item.after)
  }

  ghost predicate EntryOk(e: Entry) {
    FillersOk(e.before) && PiecesOk(e.name) && Blank(e.gap) && FillersOk(e.between) && Grammatical(e.value) && FillersOk(e.after)
  }

  ghost predicate ItemsOk(items: seq<Item>) {
    forall i | 0 <= i < |items| :: ItemOk(items[i])
  }

  ghost predicate EntriesOk(members: seq<Entry>) {
    forall i | 0 <= i < |members| :: EntryOk(members[i])
  }

  ghost function WordText(v: Json): string {
    if v.Null? then "null" else if v == Bool(true) then "true" else "false"
  }

  ghost function Spelled(t: Text): string
    requires Grammatical(t)
    decreases t, 0
  {
    match t
    case Word(v) => WordText(v)
    case Number(text) => text
    case Literal(ps) => LiteralText(ps)
    case Array(blank, items) => "[" + if items == [] then blank + "]" else ItemsText(items, 0)
    case Object(inside, members, extra) => "{" + if members == [] then FillersText(inside) + "}" else EntriesText(members, 0, extra)
  }

  ghost function ItemText(item: Item): string
    requires ItemOk(item)
    decreases item, 1
  {
    FillersText(item.before) + Spelled(item.value) + FillersText(item.after)
  }

  /** The items from i on and the closing bracket. */
  ghost function ItemsText(items: seq<Item>, i: nat): string
    requires i < |items| && ItemsOk(items)
    decreases items, |items| - i
  {
    ItemText(items[i]) + if i + 1 == |items| then "]" else "," + ItemsText(items, i + 1)
  }

  ghost function NameText(e: Entry): string
    requires EntryOk(e)
  {
    FillersText(e.before) + LiteralText(e.name) + e.gap + ":"
  }

  ghost function EntryText(e: Entry): string
    requires EntryOk(e)
    decreases e, 1
  {
    NameText(e) + FillersText(e.between) + Spelled(e.value) + FillersText(e.after)
  }

  ghost function Closing(extra: Option<seq<Filler>>): string {
    if extra.Some? then "," + (FillersText(extra.value) + "}") else "}"
  }

  /** The members from i on and the closing brace. */
  ghost function EntriesText(members: seq<Entry>, i: nat, extra: Option<seq<Filler>>): string
    requires i < |members| && EntriesOk(members)
    decreases members, |members| - i
  {
    EntryText(members[i]) + if i + 1 == |members| then Closing(extra) else "," + EntriesText(members, i + 1, extra)
  }

  // ----- what a text stands for -----

  lemma NumberIsText(text: string)
    requires NumberOk(text)
    ensures IsNumberText(text)
  {
  }

  ghost function Meaning(t: Text): Json
    requires Grammatical(t)
    decreases t, 0
  {
    match t
    case Word(v) => v
    case Number(text) => NumberIsText(text); DecodeNumber(text)
    case Literal(ps) => Str(PiecesMeaning(ps))
    case Array(_, items) => Arr(ItemsMeaning(items, |items|))
    case Object(_, members, _) => Obj(EntriesMeaning(members, |members|))
  }

  /** The values of the first i items. */
  ghost function ItemsMeaning(items: seq<Item>, i: nat): (r: seq<Json>)
    requires i <= |items| && ItemsOk(items)
    ensures |r| == i
    decreases items, i
  {
    if i == 0 then [] else ItemsMeaning(items, i - 1) + [Meaning(items[i - 1].value)]
  }

  /** The first i members, assigned one after the other. */
  ghost function EntriesMeaning(members: seq<Entry>, i: nat): seq<Member>
    requires i <= |members| && EntriesOk(members)
    decreases members, i
  {
    if i == 0 then []
    else
      var e := members[i - 1];
      Insert(EntriesMeaning(members, i - 1), CString(PiecesMeaning(e.name)), Meaning(e.value))
  }

  /** The value of the last of the first i members that has this name. */
  ghost function LastNamed(members: seq<Entry>, i: nat, name: string): Option<Json>
    requires i <= |members| && EntriesOk(members)
    decreases i
  {
    if i == 0 then None
    else if CString(PiecesMeaning(members[i - 1].name)) == name then Some(Meaning(members[i - 1].value))
    else LastNamed(members, i - 1, name)
  }

  /** An object has each name once, in order, with the value its last member of that name gives it. */
  lemma {:induction false} LastMemberWins(members: seq<Entry>, i: nat, name: string)
    requires i <= |members| && EntriesOk(members)
    ensures Ascending(EntriesMeaning(members, i)) && Find(EntriesMeaning(members, i), name) == LastNamed(members, i, name)
  {
    hide Find, Insert, Ascending, Meaning, PiecesMeaning, CString, Grammatical, PiecesOk, FillersOk, Blank;
    if i == 0 {
      NoMembers(name);
    } else {
      LastMemberWins(members, i - 1, name);
      InsertAssigns(EntriesMeaning(members, i - 1), CString(PiecesMeaning(members[i - 1].name)), Meaning(members[i - 1].value), name);
    }
  }

  lemma NoMembers(name: string)
    ensures Ascending([]) && Find([], name) == None
  {
  }

  // ----- words, numbers and strings -----

  lemma NumberChar(c: char)
    ensures InNumber(c) <==> c in NUMBER_CHARS
  {
  }

  lemma {:induction false} NumberEndAt(doc: string, cur: nat, end: nat)
    requires cur <= end <= |doc| && Delimited(doc, end)
    requires forall k | cur <= k < end :: InNumber(doc[k])
    ensures NumberEnd(doc, cur) == end
    decreases end - cur
  {
    if cur < end {
      NumberEndAt(doc, cur + 1, end);
    } else if cur < |doc| {
      NumberChar(doc[cur]);
    }
  }

  lemma NumberToken(text: string, doc: string, cur: nat)
    requires NumberOk(text) && HasAt(doc, cur, text) && Delimited(doc, cur + |text|)
    ensures NextReal(doc, cur) == Token(Kind.NumberToken, cur, cur + |text|) && doc[cur..cur + |text|] == text
  {
    hide NextReal, NumberEnd, StringEnd, CommentEnd, Delimited, NumberOk, InNumber;
    var end := cur + |text|;
    NumberStarts(text);
    CharsAt(doc, cur, text);
    assert doc[cur] == text[0];
    NumberChars(text, doc, cur);
    NumberEndAt(doc, cur + 1, end);
    TokenHere(doc, cur);
  }

  lemma NumberChars(text: string, doc: string, cur: nat)
    requires NumberOk(text) && HasAt(doc, cur, text)
    ensures cur + |text| <= |doc| && forall k | cur + 1 <= k < cur + |text| :: InNumber(doc[k])
  {
    hide InNumber;
    CharsAt(doc, cur, text);
    forall k | cur + 1 <= k < cur + |text| ensures InNumber(doc[k]) {
      assert doc[k] == text[k - cur];
      NumberChar(doc[k]);
    }
  }

  lemma NumberStarts(text: string)
    requires NumberOk(text)
    ensures text != "" && ('0' <= text[0] <= '9' || text[0] == '-') && text[0] !in SPACES && text[0] != '/'
  {
  }

  lemma NumberReads(text: string, doc: string, cur: nat)
    requires NumberOk(text) && HasAt(doc, cur, text) && Delimited(doc, cur + |text|)
    ensures IsNumberText(text) && ParseValue(doc, cur) == Read(DecodeNumber(text), cur + |text|)
  {
    hide NextReal, DecodeNumber, ParseItems, ParseMembers, StringOf, NumberOk, Delimited;
    NumberIsText(text);
    NumberToken(text, doc, cur);
  }

  lemma WordReads(v: Json, doc: string, cur: nat)
    requires (v.Null? || v.Bool?) && HasAt(doc, cur, WordText(v))
    ensures ParseValue(doc, cur) == Read(v, cur + |WordText(v)|)
  {
    hide ParseItems, ParseMembers, NextReal, NextToken, HasAt, DecodeNumber, StringOf;
    WordToken(v, doc, cur);
  }

  lemma WordToken(v: Json, doc: string, cur: nat)
    requires (v.Null? || v.Bool?) && HasAt(doc, cur, WordText(v))
    ensures NextReal(doc, cur) ==
            Token(if v.Null? then NullToken else if v.b then True else False, cur, cur + |WordText(v)|)
  {
    hide NextReal, StringEnd, NumberEnd, CommentEnd;
    var w := WordText(v);
    CharAt(doc, cur, w, 0);
    TokenHere(doc, cur);
    assert w == [w[0]] + w[1..];
    HasAtSplit(doc, cur, [w[0]], w[1..]);
  }

  lemma StringReads(ps: seq<Piece>, doc: string, cur: nat)
    requires PiecesOk(ps) && HasAt(doc, cur, LiteralText(ps))
    ensures ParseValue(doc, cur) == Read(Str(PiecesMeaning(ps)), cur + |LiteralText(ps)|)
  {
    hide ParseItems, ParseMembers, NextReal, NextToken, StringOf, LiteralText;
    LiteralReads(ps, doc, cur);
  }

  /** Only the next token decides what is read. */
  lemma SameAhead(doc: string, a: nat, b: nat)
    requires a <= |doc| && b <= |doc| && NextReal(doc, a) == NextReal(doc, b)
    ensures ParseValue(doc, a) == ParseValue(doc, b)
  {
    hide NextReal, ParseItems, ParseMembers, DecodeNumber, StringOf, SkipSpaces;
  }

  /** A value is read through the spaces and comments before it. */
  lemma ReadThrough(fs: seq<Filler>, doc: string, cur: nat)
    requires FillersOk(fs) && HasAt(doc, cur, FillersText(fs))
    ensures cur + |FillersText(fs)| <= |doc| && ParseValue(doc, cur) == ParseValue(doc, cur + |FillersText(fs)|)
  {
    hide NextReal, ParseValue, HasAt, FillersText, FillersOk;
    FillersSkipped(fs, doc, cur);
    SameAhead(doc, cur, cur + |FillersText(fs)|);
  }

  // ----- the reader gives the meaning -----

  /** A grammatical text is read to its end and as what it stands for. */
  lemma {:induction false} TextParses(t: Text, doc: string, cur: nat)
    requires Grammatical(t) && HasAt(doc, cur, Spelled(t)) && (t.Number? ==> Delimited(doc, cur + |Spelled(t)|))
    ensures ParseValue(doc, cur) == Read(Meaning(t), cur + |Spelled(t)|)
    decreases t, 0
  {
    hide ParseValue, HasAt, Delimited, DecodeNumber, PiecesMeaning, LiteralText, WordText, PiecesOk;
    match t
    case Word(v) => WordReads(v, doc, cur);
    case Number(text) => NumberReads(text, doc, cur);
    case Literal(ps) => StringReads(ps, doc, cur);
    case Array(blank, items) => ArrayParses(blank, items, doc, cur);
    case Object(inside, members, extra) => ObjectParses(inside, members, extra, doc, cur);
  }

  lemma ItemsAre(blank: string, items: seq<Item>)
    requires Grammatical(Array(blank, items))
    ensures Blank(blank) && ItemsOk(items)
  {
  }

  lemma EmptyArray(blank: string, doc: string, cur: nat)
    requires Blank(blank) && HasAt(doc, cur, "[" + (blank + "]"))
    ensures ParseValue(doc, cur) == Read(Arr([]), cur + |blank| + 2)
  {
    hide ParseItems, ParseMembers, NextReal, NextToken, StringOf, HasAt, Blank, DecodeNumber;
    MarkText(doc, cur, '[', blank + "]");
    MarkHere(doc, cur, '[');
    HasAtSplit(doc, cur + 1, blank, "]");
    assert "]" == "]" + "";
    MarkText(doc, cur + 1 + |blank|, ']', "");
    BlankSkipped(blank, doc, cur + 1);
  }

  /** Leaving the spaces out changes no token. */
  lemma SpacesAhead(doc: string, cur: nat)
    requires cur <= |doc|
    ensures var first := SkipSpaces(doc, cur);
            && NextReal(doc, first) == NextReal(doc, cur)
            && (MarkAt(doc, first, ']') ==> NextReal(doc, cur).kind == ArrayEnd)
  {
    hide NumberEnd, StringEnd, CommentEnd;
    SpacesSkipped(doc, cur);
    var first := SkipSpaces(doc, cur);
    assert SkipSpaces(doc, first) == first;
    assert NextToken(doc, first) == NextToken(doc, cur);
  }

  lemma SameItems(doc: string, a: nat, b: nat, items: seq<Json>)
    requires a <= |doc| && b <= |doc| && ParseValue(doc, a) == ParseValue(doc, b)
    ensures ParseItems(doc, a, items) == ParseItems(doc, b, items)
  {
    hide ParseValue, NextReal;
  }

  lemma NoValueHere(doc: string, cur: nat)
    requires cur <= |doc|
    ensures NextReal(doc, cur).kind == ArrayEnd ==> ParseValue(doc, cur).Fail?
  {
    hide NextReal, ParseItems, ParseMembers, DecodeNumber, StringOf, SkipSpaces;
  }

  /** Behind an opening bracket, unless a closing one follows, the items are read. */
  lemma ArrayOpens(doc: string, cur: nat)
    requires MarkAt(doc, cur, '[') && ParseValue(doc, cur + 1).Read?
    ensures ParseValue(doc, cur) == ParseItems(doc, cur + 1, [])
  {
    hide ParseMembers, ParseItems, StringOf, DecodeNumber, NextReal, NextToken, SkipSpaces;
    MarkHere(doc, cur, '[');
    var first := SkipSpaces(doc, cur + 1);
    SpacesAhead(doc, cur + 1);
    SameAhead(doc, first, cur + 1);
    SameItems(doc, first, cur + 1, []);
    NoValueHere(doc, cur + 1);
  }

  lemma {:induction false} ArrayParses(blank: string, items: seq<Item>, doc: string, cur: nat)
    requires Grammatical(Array(blank, items)) && HasAt(doc, cur, Spelled(Array(blank, items)))
    ensures ParseValue(doc, cur) == Read(Meaning(Array(blank, items)), cur + |Spelled(Array(blank, items))|)
    decreases items, |items| + 1
  {
    hide ParseValue, ParseItems, HasAt, Blank, Grammatical, ItemOk, ItemText;
    ItemsAre(blank, items);
    if items == [] {
      EmptyArray(blank, doc, cur);
    } else {
      MarkText(doc, cur, '[', ItemsText(items, 0));
      ItemsParse(items, 0, doc, cur + 1);
      ItemsRead(doc, cur + 1, []);
      ArrayOpens(doc, cur);
    }
  }

  lemma ItemsRead(doc: string, cur: nat, items: seq<Json>)
    requires cur <= |doc| && ParseItems(doc, cur, items).Read?
    ensures ParseValue(doc, cur).Read?
  {
  }

  lemma ItemPieces(item: Item, doc: string, cur: nat)
    requires ItemOk(item) && HasAt(doc, cur, ItemText(item))
    ensures var a := cur + |FillersText(item.before)|; var b := a + |Spelled(item.value)|;
            && HasAt(doc, cur, FillersText(item.before)) && HasAt(doc, a, Spelled(item.value)) && HasAt(doc, b, FillersText(item.after))
            && b + |FillersText(item.after)| == cur + |ItemText(item)|
  {
    hide HasAt, Spelled, Grammatical, FillersText, FillersOk;
    var before, value, after := FillersText(item.before), Spelled(item.value), FillersText(item.after);
    HasAtSplit(doc, cur, before + value, after);
    HasAtSplit(doc, cur, before, value);
  }

  /** The pieces of the text from item i on. */
  lemma ItemParts(items: seq<Item>, i: nat, doc: string, cur: nat)
    requires i < |items| && ItemsOk(items) && HasAt(doc, cur, ItemsText(items, i))
    ensures HasAt(doc, cur, ItemText(items[i]))
    ensures var mark := cur + |ItemText(items[i])|;
            if i + 1 == |items| then MarkAt(doc, mark, ']') && mark + 1 == cur + |ItemsText(items, i)|
            else MarkAt(doc, mark, ',') && HasAt(doc, mark + 1, ItemsText(items, i + 1))
                 && mark + 1 + |ItemsText(items, i + 1)| == cur + |ItemsText(items, i)|
  {
    hide HasAt, ItemText, ItemOk, MarkAt, ItemsText;
    var item, last := items[i], i + 1 == |items|;
    var mark, rest := if last then ']' else ',', if last then "" else ItemsText(items, i + 1);
    ItemThen(items, i);
    HasAtSplit(doc, cur, ItemText(item), [mark] + rest);
    MarkText(doc, cur + |ItemText(item)|, mark, rest);
  }

  lemma ItemThen(items: seq<Item>, i: nat)
    requires i < |items| && ItemsOk(items)
    ensures ItemsText(items, i) ==
            ItemText(items[i]) + if i + 1 == |items| then [']'] + "" else [','] + ItemsText(items, i + 1)
  {
    hide ItemText, ItemOk;
  }

  lemma {:induction false} ItemsParse(items: seq<Item>, i: nat, doc: string, cur: nat)
    requires i < |items| && ItemsOk(items) && HasAt(doc, cur, ItemsText(items, i))
    ensures cur <= |doc|
    ensures ParseItems(doc, cur, ItemsMeaning(items, i)) == Read(Arr(ItemsMeaning(items, |items|)), cur + |ItemsText(items, i)|)
    decreases items, |items| - i
  {
    hide ParseItems, ParseValue, HasAt, Spelled, Grammatical, FillersText, FillersOk, MarkAt, ItemsText, Meaning, NextReal, Delimited, ItemText;
    var item := items[i];
    ItemParts(items, i, doc, cur);
    ItemPieces(item, doc, cur);
    var a := cur + |FillersText(item.before)|;
    var b := a + |Spelled(item.value)|;
    var c := b + |FillersText(item.after)|;
    var mark := if i + 1 == |items| then ']' else ',';
    ReadThrough(item.before, doc, cur);
    EndsBefore(item.after, doc, b, mark);
    TextParses(item.value, doc, a);
    MarkBehind(item.after, doc, b, mark);
    ItemRound(doc, cur, ItemsMeaning(items, i), Meaning(item.value), b, c, mark);
    if i + 1 < |items| { ItemsParse(items, i + 1, doc, c + 1); }
  }

  /** One round of the item loop. */
  lemma ItemRound(doc: string, cur: nat, done: seq<Json>, v: Json, b: nat, c: nat, mark: char)
    requires cur <= |doc| && b <= |doc| && c < |doc| && ParseValue(doc, cur) == Read(v, b) && (mark == ',' || mark == ']')
    requires NextReal(doc, b) == Token(MarkKind(mark), c, c + 1)
    ensures ParseItems(doc, cur, done) == if mark == ']' then Read(Arr(done + [v]), c + 1) else ParseItems(doc, c + 1, done + [v])
  {
    hide ParseValue, NextReal;
  }

  // ----- objects -----

  lemma EntriesAre(inside: seq<Filler>, members: seq<Entry>, extra: Option<seq<Filler>>)
    requires Grammatical(Object(inside, members, extra))
    ensures FillersOk(inside) && EntriesOk(members) && ExtraOk(members, extra)
  {
  }

  /** Behind an opening brace the members are read. */
  lemma ObjectOpens(doc: string, cur: nat)
    requires MarkAt(doc, cur, '{')
    ensures ParseValue(doc, cur) == ParseMembers(doc, cur + 1, "", [])
  {
    hide ParseItems, ParseMembers, NextReal, NextToken, StringOf, DecodeNumber;
    MarkHere(doc, cur, '{');
  }

  /** A closing brace ends an object that has no member yet, or whose last name is empty. */
  lemma ObjectEnds(fs: seq<Filler>, doc: string, cur: nat, members: seq<Member>)
    requires FillersOk(fs) && HasAt(doc, cur, FillersText(fs) + "}")
    ensures cur <= |doc| && ParseMembers(doc, cur, "", members) == Read(Obj(members), cur + |FillersText(fs)| + 1)
  {
    hide NextReal, NextToken, HasAt, FillersText, FillersOk, ParseName;
    HasAtSplit(doc, cur, FillersText(fs), "}");
    assert "}" == "}" + "";
    MarkText(doc, cur + |FillersText(fs)|, '}', "");
    MarkBehind(fs, doc, cur, '}');
  }

  lemma {:induction false} ObjectParses(inside: seq<Filler>, members: seq<Entry>, extra: Option<seq<Filler>>, doc: string, cur: nat)
    requires Grammatical(Object(inside, members, extra)) && HasAt(doc, cur, Spelled(Object(inside, members, extra)))
    ensures ParseValue(doc, cur) == Read(Meaning(Object(inside, members, extra)), cur + |Spelled(Object(inside, members, extra))|)
    decreases members, |members| + 1
  {
    hide ParseValue, ParseMembers, HasAt, FillersOk, Grammatical, EntryOk, EntryText, FillersText, ExtraOk;
    EntriesAre(inside, members, extra);
    var rest := if members == [] then FillersText(inside) + "}" else EntriesText(members, 0, extra);
    MarkText(doc, cur, '{', rest);
    ObjectOpens(doc, cur);
    if members == [] { ObjectEnds(inside, doc, cur + 1, []); } else { EntriesParse(members, 0, extra, doc, cur + 1, ""); }
  }

  /** Where the parts of a member are. */
  ghost function Places(e: Entry, cur: nat): (p: (nat, nat, nat, nat, nat))
    requires EntryOk(e)
  {
    var name := cur + |FillersText(e.before)|;
    var colon := name + |LiteralText(e.name)| + |e.gap|;
    var value := colon + 1 + |FillersText(e.between)|;
    var after := value + |Spelled(e.value)|;
    (name, colon, value, after, after + |FillersText(e.after)|)
  }

  lemma NameParts(e: Entry, doc: string, cur: nat)
    requires EntryOk(e) && HasAt(doc, cur, NameText(e))
    ensures var (name, colon, _, _, _) := Places(e, cur);
            && HasAt(doc, cur, FillersText(e.before)) && HasAt(doc, name, LiteralText(e.name))
            && HasAt(doc, name + |LiteralText(e.name)|, e.gap) && MarkAt(doc, colon, ':')
            && colon + 1 == cur + |NameText(e)|
  {
    hide HasAt, Spelled, Grammatical, FillersText, FillersOk, MarkAt, LiteralText, PiecesOk, Blank;
    var before, name := FillersText(e.before), LiteralText(e.name);
    assert NameText(e) == before + name + e.gap + ([':'] + "");
    HasAtSplit(doc, cur, before + name + e.gap, [':'] + "");
    MarkText(doc, cur + |before + name + e.gap|, ':', "");
    HasAtSplit(doc, cur, before + name, e.gap);
    HasAtSplit(doc, cur, before, name);
  }

  lemma EntryPieces(e: Entry, doc: string, cur: nat)
    requires EntryOk(e) && HasAt(doc, cur, EntryText(e))
    ensures var (_, colon, value, after, mark) := Places(e, cur);
            && HasAt(doc, cur, NameText(e)) && colon + 1 == cur + |NameText(e)| && mark == cur + |EntryText(e)|
            && HasAt(doc, colon + 1, FillersText(e.between)) && HasAt(doc, value, Spelled(e.value)) && HasAt(doc, after, FillersText(e.after))
  {
    hide HasAt, Spelled, Grammatical, FillersText, FillersOk, LiteralText, PiecesOk, Blank;
    var between, value, after := FillersText(e.between), Spelled(e.value), FillersText(e.after);
    HasAtSplit(doc, cur, NameText(e) + between + value, after);
    HasAtSplit(doc, cur, NameText(e) + between, value);
    HasAtSplit(doc, cur, NameText(e), between);
  }

  lemma EntryThen(members: seq<Entry>, i: nat, extra: Option<seq<Filler>>)
    requires i < |members| && EntriesOk(members)
    ensures EntriesText(members, i, extra) ==
            EntryText(members[i]) +
            if i + 1 < |members| then [','] + EntriesText(members, i + 1, extra)
            else if extra.Some? then [','] + (FillersText(extra.value) + "}") else ['}'] + ""
  {
    hide EntryText, EntryOk, FillersText;
  }

  /** What stands behind member i. */
  lemma EntryParts(members: seq<Entry>, i: nat, extra: Option<seq<Filler>>, doc: string, cur: nat)
    requires i < |members| && EntriesOk(members) && HasAt(doc, cur, EntriesText(members, i, extra))
    ensures HasAt(doc, cur, EntryText(members[i]))
    ensures var mark, end := cur + |EntryText(members[i])|, cur + |EntriesText(members, i, extra)|;
            if i + 1 < |members| then
              MarkAt(doc, mark, ',') && HasAt(doc, mark + 1, EntriesText(members, i + 1, extra))
              && mark + 1 + |EntriesText(members, i + 1, extra)| == end
            else if extra.Some? then
              MarkAt(doc, mark, ',') && HasAt(doc, mark + 1, FillersText(extra.value) + "}")
              && mark + 1 + |FillersText(extra.value)| + 1 == end
            else MarkAt(doc, mark, '}') && mark + 1 == end
  {
    hide HasAt, EntryText, EntryOk, MarkAt, FillersText, EntriesText;
    var e, last := members[i], i + 1 == |members|;
    var rest := if !last then EntriesText(members, i + 1, extra) else if extra.Some? then FillersText(extra.value) + "}" else "";
    var mark := if last && extra.None? then '}' else ',';
    EntryThen(members, i, extra);
    HasAtSplit(doc, cur, EntryText(e), [mark] + rest);
    MarkText(doc, cur + |EntryText(e)|, mark, rest);
  }

  /** A member's name and colon are read through what stands between them. */
  lemma NameReads(e: Entry, doc: string, cur: nat)
    requires EntryOk(e) && HasAt(doc, cur, NameText(e))
    ensures cur <= |doc| && NextReal(doc, cur).kind == StringToken
    ensures ParseName(doc, NextReal(doc, cur)) == Read(PiecesMeaning(e.name), cur + |NameText(e)|)
  {
    hide HasAt, Spelled, Grammatical, FillersText, FillersOk, MarkAt, LiteralText, PiecesOk, Blank, NextReal, NextToken, StringOf, NameText;
    NameParts(e, doc, cur);
    var (name, colon, _, _, _) := Places(e, cur);
    FillersSkipped(e.before, doc, cur);
    LiteralReads(e.name, doc, name);
    BlankBefore(e.gap, doc, name + |LiteralText(e.name)|);
    MarkHere(doc, colon, ':');
  }

  /** Behind a member's value a comma or the closing brace is taken through spaces and comments. */
  lemma AfterIs(doc: string, cur: nat)
    requires cur <= |doc| && (NextReal(doc, cur).kind == Comma || NextReal(doc, cur).kind == ObjectEnd)
    ensures AfterMember(doc, cur) == Some(NextReal(doc, cur))
  {
    hide NextToken;
  }

  lemma {:induction false} EntriesParse(members: seq<Entry>, i: nat, extra: Option<seq<Filler>>, doc: string, cur: nat, last: string)
    requires i < |members| && EntriesOk(members) && ExtraOk(members, extra) && HasAt(doc, cur, EntriesText(members, i, extra))
    ensures cur <= |doc|
    ensures ParseMembers(doc, cur, last, EntriesMeaning(members, i)) ==
            Read(Obj(EntriesMeaning(members, |members|)), cur + |EntriesText(members, i, extra)|)
    decreases members, |members| - i
  {
    hide ParseMembers, ParseValue, HasAt, Spelled, Grammatical, FillersText, FillersOk, MarkAt, EntriesText, Meaning, NextReal, Delimited;
    hide NameText, LiteralText, PiecesOk, Blank, Insert, CString, PiecesMeaning, ParseName, AfterMember, EntryText;
    var e := members[i];
    EntryParts(members, i, extra, doc, cur);
    EntryPieces(e, doc, cur);
    var (_, colon, value, after, place) := Places(e, cur);
    var mark := if i + 1 == |members| && extra.None? then '}' else ',';
    NameReads(e, doc, cur);
    ReadThrough(e.between, doc, colon + 1);
    EndsBefore(e.after, doc, after, mark);
    TextParses(e.value, doc, value);
    MarkBehind(e.after, doc, after, mark);
    AfterIs(doc, after);
    MemberRound(doc, cur, last, EntriesMeaning(members, i), PiecesMeaning(e.name), colon + 1, Meaning(e.value), after, place, mark);
    if i + 1 < |members| {
      EntriesParse(members, i + 1, extra, doc, place + 1, PiecesMeaning(e.name));
    } else if extra.Some? {
      ObjectEnds(extra.value, doc, place + 1, EntriesMeaning(members, |members|));
    }
  }

  /** One round of the member loop. */
  lemma MemberRound(doc: string, cur: nat, last: string, done: seq<Member>, name: string, value: nat, v: Json, after: nat, place: nat,
                    mark: char)
    requires cur <= |doc| && value <= |doc| && after <= |doc| && place < |doc| && (mark == ',' || mark == '}')
    requires NextReal(doc, cur).kind == StringToken && ParseName(doc, NextReal(doc, cur)) == Read(name, value)
    requires ParseValue(doc, value) == Read(v, after)
    requires AfterMember(doc, after) == Some(Token(MarkKind(mark), place, place + 1))
    ensures var more := Insert(done, CString(name), v);
            ParseMembers(doc, cur, last, done) == if mark == '}' then Read(Obj(more), place + 1) else ParseMembers(doc, place + 1, name, more)
  {
    hide ParseValue, NextReal, ParseName, AfterMember, Insert, CString;
  }

  /** A whole document, with spaces and comments before the value and spaces behind it, reads as what it stands for. */
  lemma DocumentParses(before: seq<Filler>, t: Text, blank: string)
    requires FillersOk(before) && Grammatical(t) && Blank(blank)
    ensures ParseValue(FillersText(before) + Spelled(t) + blank, 0) == Read(Meaning(t), |FillersText(before)| + |Spelled(t)|)
  {
    hide ParseValue, Spelled, Grammatical, FillersText, FillersOk, Meaning;
    var a, w := FillersText(before), Spelled(t);
    var doc := a + w + blank;
    assert doc[0..|a|] == a && doc[|a|..|a| + |w|] == w;
    assert blank != "" ==> doc[|a| + |w|] == blank[0];
    ReadThrough(before, doc, 0);
    TextParses(t, doc, |a|);
  }
}
