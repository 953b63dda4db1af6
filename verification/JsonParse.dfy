/**
  What Reader makes of a text, as functions of the text and the position
  (lib/json/jsoncpp.cpp:274-735, 793-901). A failed read keeps no position:
  recovery after an error only decides how many more errors are reported.
 */
module JsonParse {
  import opened Wrappers
  import opened JsonText

  datatype Parsed<+T> = Fail | Read(value: T, next: nat)

  /** A C string reads as NUL at its end. */
  function At(doc: string, i: nat): char {
    if i < |doc| then doc[i] else '\0'
  }

  // ----- tokens -----

  datatype Kind =
    | ObjectBegin | ObjectEnd | ArrayBegin | ArrayEnd | StringToken | NumberToken
    | True | False | NullToken | Comma | Colon | Comment | EndOfStream | Error

  datatype Token = Token(kind: Kind, start: nat, end: nat)

  predicate IsSpace(c: char) {
    c == ' ' || c == '\t' || c == '\r' || c == '\n'
  }

  function SkipSpaces(doc: string, cur: nat): (r: nat)
    requires cur <= |doc|
    ensures cur <= r <= |doc|
    decreases |doc| - cur
  {
    if cur < |doc| && IsSpace(doc[cur]) then SkipSpaces(doc, cur + 1) else cur
  }

  /** Everything skipped is a space, and the stop is not. */
  lemma {:induction false} SpacesSkipped(doc: string, cur: nat)
    requires cur <= |doc|
    ensures var r := SkipSpaces(doc, cur);
      (forall k | cur <= k < r :: doc[k] in " \t\n\r") && (r < |doc| ==> doc[r] !in " \t\n\r")
    decreases |doc| - cur
  {
    if cur < |doc| && IsSpace(doc[cur]) { SpacesSkipped(doc, cur + 1); }
  }

  predicate InNumber(c: char) {
    '0' <= c <= '9' || c == '.' || c == 'e' || c == 'E' || c == '+' || c == '-'
  }

  function NumberEnd(doc: string, cur: nat): (r: nat)
    requires cur <= |doc|
    ensures cur <= r <= |doc|
    decreases |doc| - cur
  {
    if cur < |doc| && InNumber(doc[cur]) then NumberEnd(doc, cur + 1) else cur
  }

  /** The end of a string literal whose opening quote is behind, if it has one. */
  function StringEnd(doc: string, cur: nat): (r: Option<nat>)
    requires cur <= |doc|
    ensures r.Some? ==> cur < r.value <= |doc|
    decreases |doc| - cur
  {
    if cur == |doc| then None
    else if doc[cur] == '\\' then StringEnd(doc, if cur + 2 <= |doc| then cur + 2 else cur + 1)
    else if doc[cur] == '\"' then Some(cur + 1)
    else StringEnd(doc, cur + 1)
  }

  /** The end of a block comment: just past the first star and slash. */
  function BlockCommentEnd(doc: string, cur: nat): (r: Option<nat>)
    requires cur <= |doc|
    ensures r.Some? ==> cur <= r.value <= |doc|
    decreases |doc| - cur
  {
    if cur == |doc| then None
    else if doc[cur] == '*' && At(doc, cur + 1) == '/' then Some(cur + 2)
    else BlockCommentEnd(doc, cur + 1)
  }

  function LineCommentEnd(doc: string, cur: nat): (r: nat)
    requires cur <= |doc|
    ensures cur <= r <= |doc|
    decreases |doc| - cur
  {
    if cur == |doc| then cur
    else if doc[cur] == '\r' || doc[cur] == '\n' then cur + 1
    else LineCommentEnd(doc, cur + 1)
  }

  function CommentEnd(doc: string, cur: nat): (r: Option<nat>)
    requires cur <= |doc|
    ensures r.Some? ==> cur <= r.value <= |doc|
  {
    if At(doc, cur) == '*' then BlockCommentEnd(doc, cur + 1)
    else if At(doc, cur) == '/' then Some(LineCommentEnd(doc, cur + 1))
    else None
  }

  /** Where the scan of something that is no comment stops. */
  function NotCommentEnd(doc: string, cur: nat): (r: nat)
    requires cur <= |doc|
    ensures cur <= r <= |doc|
  {
    if At(doc, cur) == '*' || cur == |doc| then |doc| else cur + 1
  }

  predicate HasAt(doc: string, cur: nat, s: string) {
    cur + |s| <= |doc| && doc[cur..cur + |s|] == s
  }

  /** A token that is right only if its text ends where `end` says. */
  function Checked(kind: Kind, start: nat, end: Option<nat>, failed: nat): Token {
    match end
    case Some(e) => Token(kind, start, e)
    case None => Token(Error, start, failed)
  }

  function Literal(doc: string, kind: Kind, start: nat, rest: string): Token
    requires start < |doc|
  {
    if HasAt(doc, start + 1, rest) then Token(kind, start, start + 1 + |rest|) else Token(Error, start, start + 1)
  }

  /** A digit or a minus sign, and all the number characters after it. */
  predicate NumberShape(doc: string, t: Token) {
    && t.start < t.end <= |doc| && t.end == NumberEnd(doc, t.start + 1)
    && ('0' <= doc[t.start] <= '9' || doc[t.start] == '-')
  }

  function NextToken(doc: string, cur: nat): (t: Token)
    requires cur <= |doc|
    ensures cur <= t.start <= t.end <= |doc|
    ensures t.kind != EndOfStream && t.kind != Error ==> t.start < t.end
    ensures t.kind == StringToken ==> t.start + 2 <= t.end
    ensures t.kind == NumberToken ==> NumberShape(doc, t)
  {
    var start := SkipSpaces(doc, cur);
    if start == |doc| then Token(EndOfStream, start, start)
    else
      var next := start + 1;
      match doc[start]
      case '{' => Token(ObjectBegin, start, next)
      case '}' => Token(ObjectEnd, start, next)
      case '[' => Token(ArrayBegin, start, next)
      case ']' => Token(ArrayEnd, start, next)
      case '\"' => Checked(StringToken, start, StringEnd(doc, next), |doc|)
      case '/' => Checked(Comment, start, CommentEnd(doc, next), NotCommentEnd(doc, next))
      case 't' => Literal(doc, True, start, "rue")
      case 'f' => Literal(doc, False, start, "alse")
      case 'n' => Literal(doc, NullToken, start, "ull")
      case ',' => Token(Comma, start, next)
      case ':' => Token(Colon, start, next)
      case '\0' => Token(EndOfStream, start, next)
      case c =>
        if '0' <= c <= '9' || c == '-' then Token(NumberToken, start, NumberEnd(doc, next))
        else Token(Error, start, next)
  }

  /** The character at k is escaped: the one before it is a backslash that is not escaped itself. */
  predicate Escapes(doc: string, from: nat, k: nat)
    requires from <= k <= |doc|
    decreases k - from
  {
    k > from && doc[k - 1] == '\\' && !Escapes(doc, from, k - 1)
  }

  /** The closing quote is the first one no backslash escapes. */
  lemma {:induction false} StringScanned(doc: string, from: nat, cur: nat)
    requires from <= cur <= |doc| && !Escapes(doc, from, cur)
    ensures match StringEnd(doc, cur)
      case Some(end) =>
        cur < end && doc[end - 1] == '\"' && !Escapes(doc, from, end - 1) &&
        forall k | cur <= k < end - 1 :: doc[k] == '\"' ==> Escapes(doc, from, k)
      case None => forall k | cur <= k < |doc| :: doc[k] == '\"' ==> Escapes(doc, from, k)
    decreases |doc| - cur
  {
    if cur < |doc| {
      if doc[cur] == '\\' {
        if cur + 2 <= |doc| { StringScanned(doc, from, cur + 2); }
      } else if doc[cur] != '\"' {
        StringScanned(doc, from, cur + 1);
      }
    }
  }

  /** What the text of each token is, and that only spaces come before it. */
  lemma TokenText(doc: string, cur: nat)
    requires cur <= |doc|
    ensures var t := NextToken(doc, cur);
      && (forall k | cur <= k < t.start :: doc[k] in " \t\n\r")
      && (t.start < |doc| ==> doc[t.start] !in " \t\n\r")
      && match t.kind
         case ObjectBegin => doc[t.start..t.end] == "{"
         case ObjectEnd => doc[t.start..t.end] == "}"
         case ArrayBegin => doc[t.start..t.end] == "["
         case ArrayEnd => doc[t.start..t.end] == "]"
         case Comma => doc[t.start..t.end] == ","
         case Colon => doc[t.start..t.end] == ":"
         case True => doc[t.start..t.end] == "true"
         case False => doc[t.start..t.end] == "false"
         case NullToken => doc[t.start..t.end] == "null"
         case _ => true
  {
    hide SkipSpaces, NumberEnd, CommentEnd, StringEnd, NumberShape;
    SpacesSkipped(doc, cur);
    var t := NextToken(doc, cur);
    if t.kind == True || t.kind == False || t.kind == NullToken {
      assert doc[t.start..t.end] == [doc[t.start]] + doc[t.start + 1..t.end];
    }
  }

  /** The next token that is not a comment. */
  function NextReal(doc: string, cur: nat): (t: Token)
    requires cur <= |doc|
    ensures cur <= t.start <= t.end <= |doc| && t.kind != Comment
    ensures t.kind != EndOfStream && t.kind != Error ==> t.start < t.end
    ensures t.kind == StringToken ==> t.start + 2 <= t.end
    ensures t.kind == NumberToken ==> NumberShape(doc, t)
    decreases |doc| - cur
  {
    var t := NextToken(doc, cur);
    if t.kind == Comment then NextReal(doc, t.end) else t
  }

  // ----- numbers -----

  predicate AllDigits(text: string, from: nat) {
    forall k :: from <= k < |text| ==> '0' <= text[k] <= '9'
  }

  /**
    The integer a run of digits stands for, or nothing when it would exceed
    max; then the text is read as a double.
   */
  function Accumulate(text: string, i: nat, value: nat, max: nat): Option<nat>
    requires i <= |text| && AllDigits(text, i)
    decreases |text| - i
  {
    if i == |text| then Some(value)
    else
      var digit := text[i] as int - '0' as int;
      var threshold := max / 10;
      if value >= threshold && (value > threshold || i + 1 != |text| || digit > max % 10) then None
      else Accumulate(text, i + 1, value * 10 + digit, max)
  }

  predicate DoubleMark(c: char, first: bool) {
    c == '.' || c == 'e' || c == 'E' || c == '+' || (c == '-' && !first)
  }

  predicate LooksDouble(text: string) {
    exists k :: 0 <= k < |text| && DoubleMark(text[k], k == 0)
  }

  predicate IsNumberText(text: string) {
    text != [] && forall k :: 0 <= k < |text| ==> InNumber(text[k])
  }

  /** What a number token stands for. Text read as a double stays text. */
  function DecodeNumber(text: string): Json
    requires IsNumberText(text)
  {
    if LooksDouble(text) then Real(text)
    else
      var negative := text[0] == '-';
      var max := if negative then INT64_BOUND else UINT64_BOUND - 1;
      var first := if negative then 1 else 0;
      assert forall k :: first <= k < |text| ==> InNumber(text[k]) && !DoubleMark(text[k], k == 0);
      match Accumulate(text, first, 0, max)
      case None => Real(text)
      case Some(value) => if negative then Int(0 - value) else if value <= MAX_INT then Int(value) else UInt(value)
  }

  /** A number token takes all the number characters there are. */
  lemma {:induction false} NumberScanned(doc: string, cur: nat)
    requires cur <= |doc|
    ensures var r := NumberEnd(doc, cur);
      (forall k :: cur <= k < r ==> InNumber(doc[k])) && (r < |doc| ==> !InNumber(doc[r]))
    decreases |doc| - cur
  {
    if cur < |doc| && InNumber(doc[cur]) { NumberScanned(doc, cur + 1); }
  }

  /** The characters of a number token. */
  function NumberText(doc: string, t: Token): (text: string)
    requires NumberShape(doc, t)
    ensures IsNumberText(text)
  {
    NumberScanned(doc, t.start + 1);
    doc[t.start..t.end]
  }

  // ----- strings -----

  function HexValue(c: char): (r: Option<nat>)
    ensures r.Some? ==> r.value < 16
  {
    if '0' <= c <= '9' then Some(c as int - '0' as int)
    else if 'a' <= c <= 'f' then Some(c as int - 'a' as int + 10)
    else if 'A' <= c <= 'F' then Some(c as int - 'A' as int + 10)
    else None
  }

  /** Four hexadecimal digits. */
  function EscapeSequence(doc: string, cur: nat, end: nat): (r: Parsed<nat>)
    requires cur <= end <= |doc|
    ensures r.Read? ==> r.next == cur + 4 <= end && r.value < 0x10000
  {
    if end - cur < 4 then Fail
    else
      var a, b, c, d := HexValue(doc[cur]), HexValue(doc[cur + 1]), HexValue(doc[cur + 2]), HexValue(doc[cur + 3]);
      if a.None? || b.None? || c.None? || d.None? then Fail
      else Read(((a.value * 16 + b.value) * 16 + c.value) * 16 + d.value, cur + 4)
  }

  /** One code point: an escape sequence, or two for a surrogate pair. */
  function CodePoint(doc: string, cur: nat, end: nat): (r: Parsed<nat>)
    requires cur <= end <= |doc|
    ensures r.Read? ==> cur < r.next <= end && r.value < 0x110000
  {
    match EscapeSequence(doc, cur, end)
    case Fail => Fail
    case Read(unit, next) =>
      if !(0xD800 <= unit <= 0xDBFF) then Read(unit, next)
      else if end - next < 6 || doc[next] != '\\' || doc[next + 1] != 'u' then Fail
      else
        match EscapeSequence(doc, next + 2, end)
        case Fail => Fail
        case Read(second, after) => Read(0x10000 + (unit % 0x400) * 0x400 + second % 0x400, after)
  }

  function Utf8(cp: nat): string
    requires cp < 0x110000
  {
    if cp <= 0x7f then [cp as char]
    else if cp <= 0x7ff then [(0xC0 + cp / 0x40) as char, (0x80 + cp % 0x40) as char]
    else if cp <= 0xffff then
      [(0xE0 + cp / 0x1000) as char, (0x80 + cp / 0x40 % 0x40) as char, (0x80 + cp % 0x40) as char]
    else
      [(0xF0 + cp / 0x40000) as char, (0x80 + cp / 0x1000 % 0x40) as char, (0x80 + cp / 0x40 % 0x40) as char,
       (0x80 + cp % 0x40) as char]
  }

  function Unescape(c: char): Option<char> {
    match c
    case '\"' => Some('\"')
    case '/' => Some('/')
    case '\\' => Some('\\')
    case 'b' => Some(8 as char)
    case 'f' => Some(12 as char)
    case 'n' => Some('\n')
    case 'r' => Some('\r')
    case 't' => Some('\t')
    case _ => None
  }

  /** The string between two quotes, escapes replaced. */
  function DecodeString(doc: string, cur: nat, end: nat, done: string): Option<string>
    requires cur <= end <= |doc|
    decreases end - cur
  {
    if cur == end || doc[cur] == '\"' then Some(done)
    else if doc[cur] != '\\' then DecodeString(doc, cur + 1, end, done + [doc[cur]])
    else if cur + 1 == end then None
    else if doc[cur + 1] == 'u' then
      match CodePoint(doc, cur + 2, end)
      case Fail => None
      case Read(cp, next) => DecodeString(doc, next, end, done + Utf8(cp))
    else
      match Unescape(doc[cur + 1])
      case None => None
      case Some(c) => DecodeString(doc, cur + 2, end, done + [c])
  }

  function StringOf(doc: string, t: Token): Option<string>
    requires t.start + 2 <= t.end <= |doc|
  {
    DecodeString(doc, t.start + 1, t.end - 1, "")
  }

  // ----- values -----

  /** Assign a member of a map kept in name order. */
  function Insert(members: seq<Member>, name: string, value: Json): seq<Member> {
    if members == [] then [Member(name, value)]
    else if members[0].name == name then [Member(name, value)] + members[1..]
    else if NameLess(name, members[0].name) then [Member(name, value)] + members
    else [members[0]] + Insert(members[1..], name, value)
  }

  /** The value a name has. */
  function Find(members: seq<Member>, name: string): Option<Json> {
    if members == [] then None
    else if members[0].name == name then Some(members[0].value)
    else Find(members[1..], name)
  }

  /** An assignment gives the name its new value and leaves the other names theirs; the order stays. */
  lemma {:induction false} InsertAssigns(members: seq<Member>, name: string, value: Json, other: string)
    requires Ascending(members)
    ensures Ascending(Insert(members, name, value))
    ensures Find(Insert(members, name, value), other) == if other == name then Some(value) else Find(members, other)
    ensures forall m | m in Insert(members, name, value) :: m.name == name || m in members
  {
    hide NameLess;
    if members != [] && members[0].name != name && !NameLess(name, members[0].name) {
      InsertAssigns(members[1..], name, value, other);
      NameLessTotal(name, members[0].name);
      var r := Insert(members[1..], name, value);
      forall j | 0 <= j < |r| ensures NameLess(members[0].name, r[j].name) {
        assert r[j] in r;
        if r[j].name != name { BeforeRest(members, r[j]); }
      }
    } else if members != [] && members[0].name == name {
      assert forall i | 0 <= i < |members| :: Insert(members, name, value)[i].name == members[i].name;
    } else {
      InsertFirst(members, name, value);
    }
  }

  lemma BeforeRest(members: seq<Member>, m: Member)
    requires Ascending(members) && members != [] && m in members[1..]
    ensures NameLess(members[0].name, m.name)
  {
    hide NameLess;
    var j :| 0 <= j < |members| - 1 && members[1..][j] == m;
    assert members[j + 1] == m;
  }

  lemma InsertFirst(members: seq<Member>, name: string, value: Json)
    requires Ascending(members) && (members == [] || NameLess(name, members[0].name))
    ensures Ascending([Member(name, value)] + members)
    ensures forall other :: Find([Member(name, value)] + members, other) == if other == name then Some(value) else Find(members, other)
  {
    hide NameLess;
    var r := [Member(name, value)] + members;
    assert r[1..] == members;
    forall j | 0 < j < |r| ensures NameLess(name, r[j].name) {
      if j > 1 { NameLessTransitive(name, members[0].name, members[j - 1].name); }
    }
  }

  function ParseValue(doc: string, cur: nat): (r: Parsed<Json>)
    requires cur <= |doc|
    ensures r.Read? ==> cur < r.next <= |doc|
    decreases |doc| - cur, 0
  {
    var t := NextReal(doc, cur);
    match t.kind
    case ObjectBegin => ParseMembers(doc, t.end, "", [])
    case ArrayBegin =>
      var first := SkipSpaces(doc, t.end);
      if At(doc, first) == ']' then Read(Arr([]), first + 1) else ParseItems(doc, first, [])
    case NumberToken => Read(DecodeNumber(NumberText(doc, t)), t.end)
    case StringToken =>
      (match StringOf(doc, t)
       case None => Fail
       case Some(s) => Read(Str(s), t.end))
    case True => Read(Bool(true), t.end)
    case False => Read(Bool(false), t.end)
    case NullToken => Read(Null, t.end)
    case _ => Fail
  }

  /** The items of an array from the next one on, after those read so far. */
  function ParseItems(doc: string, cur: nat, items: seq<Json>): (r: Parsed<Json>)
    requires cur <= |doc|
    ensures r.Read? ==> cur < r.next <= |doc|
    decreases |doc| - cur, 1
  {
    match ParseValue(doc, cur)
    case Fail => Fail
    case Read(v, next) =>
      var t := NextReal(doc, next);
      if t.kind == Comma then ParseItems(doc, t.end, items + [v])
      else if t.kind == ArrayEnd then Read(Arr(items + [v]), t.end)
      else Fail
  }

  /** A member's name and the colon behind it. */
  function ParseName(doc: string, t: Token): (r: Parsed<string>)
    requires t.end <= |doc| && (t.kind == StringToken ==> t.start + 2 <= t.end)
    ensures r.Read? ==> t.end < r.next <= |doc|
  {
    if t.kind != StringToken then Fail
    else
      match StringOf(doc, t)
      case None => Fail
      case Some(name) =>
        var colon := NextToken(doc, t.end);
        if colon.kind != Colon then Fail else Read(name, colon.end)
  }

  /**
    The token behind a member. What it is gets checked before comments are
    skipped, and not again after.
   */
  function AfterMember(doc: string, cur: nat): (r: Option<Token>)
    requires cur <= |doc|
    ensures r.Some? ==> cur < r.value.end <= |doc|
  {
    var comma := NextToken(doc, cur);
    if comma.kind == Comment then Some(NextReal(doc, comma.end))
    else if comma.kind == ObjectEnd || comma.kind == Comma then Some(comma)
    else None
  }

  /** The members of an object from the next one on; `last` is the name read before. */
  function ParseMembers(doc: string, cur: nat, last: string, members: seq<Member>): (r: Parsed<Json>)
    requires cur <= |doc|
    ensures r.Read? ==> cur < r.next <= |doc|
    decreases |doc| - cur, 1
  {
    var t := NextReal(doc, cur);
    if t.kind == ObjectEnd && last == "" then Read(Obj(members), t.end)
    else
      match ParseName(doc, t)
      case Fail => Fail
      case Read(name, value) =>
        match ParseValue(doc, value)
        case Fail => Fail
        case Read(v, next) =>
          var more := Insert(members, CString(name), v);
          match AfterMember(doc, next)
          case None => Fail
          case Some(after) =>
            if after.kind == ObjectEnd then Read(Obj(more), after.end)
            else ParseMembers(doc, after.end, name, more)
  }
}
