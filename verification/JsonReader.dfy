/** Reader (lib/json/jsoncpp.cpp:274-735, 793-901): the cursor, against the parsing functions. */
module JsonReader {
  import opened Wrappers
  import opened JsonText
  import opened JsonParse
  import opened JsonRoundTrip
  import opened JsonWriter

  /** A value read agrees with the one described, and leaves the cursor behind it. */
  predicate Yields(r: Option<Json>, expected: Parsed<Json>, cur: nat) {
    match expected
    case Fail => r.None?
    case Read(v, next) => r == Some(v) && cur == next
  }

  method DecodeNumberText(text: string) returns (decoded: Json)
    requires IsNumberText(text)
    ensures decoded == DecodeNumber(text)
  {
    hide Accumulate, InNumber;
    var isDouble, i := false, 0;
    while i < |text|
      invariant 0 <= i <= |text| && (isDouble <==> exists k :: 0 <= k < i && DoubleMark(text[k], k == 0))
    {
      isDouble := isDouble || DoubleMark(text[i], i == 0);
      i := i + 1;
    }
    if isDouble { return Real(text); }
    var isNegative := text[0] == '-';
    var max := if isNegative then INT64_BOUND else UINT64_BOUND - 1;
    var current: nat := if isNegative then 1 else 0;
    OnlyDigits(text, current);
    ghost var all := Accumulate(text, current, 0, max);
    var value: nat := 0;
    while current < |text|
      invariant current <= |text| && AllDigits(text, current)
      invariant value <= max && Accumulate(text, current, value, max) == all
    {
      Accumulated(text, current, value, max);
      var digit := text[current] as int - '0' as int;
      current := current + 1;
      if value >= max / 10 {
        if value > max / 10 || current != |text| || digit > max % 10 { return Real(text); }
      }
      Guard(value, digit, max);
      value := value * 10 + digit;
    }
    Accumulated(text, current, value, max);
    if isNegative { return Int(0 - value); }
    if value <= MAX_INT { return Int(value); }
    return UInt(value);
  }

  lemma OnlyDigits(text: string, first: nat)
    requires IsNumberText(text) && !LooksDouble(text) && first == if text[0] == '-' then 1 else 0
    ensures AllDigits(text, first)
  {
    forall k | first <= k < |text| ensures '0' <= text[k] <= '9' {
      assert InNumber(text[k]) && !DoubleMark(text[k], k == 0);
    }
  }

  /** One step of Accumulate. */
  lemma Accumulated(text: string, i: nat, value: nat, max: nat)
    requires i <= |text| && AllDigits(text, i)
    ensures i == |text| ==> Accumulate(text, i, value, max) == Some(value)
    ensures i < |text| ==>
      var digit := text[i] as int - '0' as int;
      0 <= digit < 10 && AllDigits(text, i + 1) &&
      Accumulate(text, i, value, max) ==
      if value >= max / 10 && (value > max / 10 || i + 1 != |text| || digit > max % 10) then None
      else Accumulate(text, i + 1, value * 10 + digit, max)
  {
  }

  method DecodeStringText(doc: string, start: nat, end: nat) returns (decoded: Option<string>)
    requires start <= end <= |doc|
    ensures decoded == DecodeString(doc, start, end, "")
  {
    hide CodePoint, Unescape, Utf8;
    var current := start;
    var done := "";
    while current != end
      invariant start <= current <= end
      invariant DecodeString(doc, current, end, done) == DecodeString(doc, start, end, "")
      decreases end - current
    {
      var c := doc[current];
      current := current + 1;
      if c == '\"' { return Some(done); }
      if c == '\\' {
        if current == end { return None; }
        var escape := doc[current];
        current := current + 1;
        if escape == 'u' {
          var unicode := CodePoint(doc, current, end);
          if unicode.Fail? { return None; }
          current := unicode.next;
          done := done + Utf8(unicode.value);
        } else {
          var plain := Unescape(escape);
          if plain.None? { return None; }
          done := done + [plain.value];
        }
      } else {
        done := done + [c];
      }
    }
    return Some(done);
  }

  class Reader {
    const doc: string
    var cur: nat

    constructor (document: string)
      ensures doc == document && cur == 0
    {
      doc, cur := document, 0;
    }

    method SkipSpaces()
      requires cur <= |doc|
      modifies this
      ensures cur == JsonParse.SkipSpaces(doc, old(cur))
    {
      while cur < |doc| && IsSpace(doc[cur])
        invariant cur <= |doc| && JsonParse.SkipSpaces(doc, cur) == JsonParse.SkipSpaces(doc, old(cur))
      {
        cur := cur + 1;
      }
    }

    method Match(pattern: string) returns (ok: bool)
      requires cur <= |doc|
      modifies this
      ensures ok == HasAt(doc, old(cur), pattern)
      ensures cur == (if ok then old(cur) + |pattern| else old(cur)) <= |doc|
    {
      if |doc| - cur < |pattern| { return false; }
      var index := |pattern|;
      while index > 0
        invariant 0 <= index <= |pattern| && cur == old(cur)
        invariant forall k :: index <= k < |pattern| ==> doc[cur + k] == pattern[k]
      {
        index := index - 1;
        if doc[cur + index] != pattern[index] {
          assert doc[cur..cur + |pattern|][index] != pattern[index];
          return false;
        }
      }
      cur := cur + |pattern|;
      return true;
    }

    method ReadNumber()
      requires cur <= |doc|
      modifies this
      ensures cur == NumberEnd(doc, old(cur))
    {
      while cur < |doc| && InNumber(doc[cur])
        invariant cur <= |doc| && NumberEnd(doc, cur) == NumberEnd(doc, old(cur))
      {
        cur := cur + 1;
      }
    }

    method ReadString() returns (ok: bool)
      requires cur <= |doc|
      modifies this
      ensures old(cur) <= cur <= |doc|
      ensures var end := StringEnd(doc, old(cur)); ok == end.Some? && cur == if ok then end.value else |doc|
    {
      var c := '\0';
      while cur < |doc|
        invariant old(cur) <= cur <= |doc| && c != '\"'
        invariant StringEnd(doc, cur) == StringEnd(doc, old(cur))
        decreases |doc| - cur
      {
        c := doc[cur];
        cur := cur + 1;
        if c == '\\' {
          if cur < |doc| { cur := cur + 1; }
        } else if c == '\"' {
          return true;
        }
      }
      return false;
    }

    method ReadComment() returns (ok: bool)
      requires cur <= |doc|
      modifies this
      ensures old(cur) <= cur <= |doc|
      ensures var end := CommentEnd(doc, old(cur));
        ok == end.Some? && cur == if ok then end.value else NotCommentEnd(doc, old(cur))
    {
      var c := At(doc, cur);
      if cur < |doc| { cur := cur + 1; }
      if c == '*' {
        while cur < |doc|
          invariant old(cur) <= cur <= |doc| && BlockCommentEnd(doc, cur) == CommentEnd(doc, old(cur))
        {
          c := doc[cur];
          cur := cur + 1;
          if c == '*' && At(doc, cur) == '/' {
            cur := cur + 1;
            return true;
          }
        }
        return false;
      } else if c == '/' {
        while cur < |doc|
          invariant old(cur) <= cur <= |doc| && Some(LineCommentEnd(doc, cur)) == CommentEnd(doc, old(cur))
        {
          c := doc[cur];
          cur := cur + 1;
          if c == '\r' || c == '\n' { return true; }
        }
        return true;
      }
      return false;
    }

    method ReadToken() returns (t: Token)
      requires cur <= |doc|
      modifies this
      ensures old(cur) <= cur <= |doc| && t == NextToken(doc, old(cur)) && cur == t.end
    {
      hide JsonParse.SkipSpaces, StringEnd, CommentEnd, NumberEnd, HasAt;
      SkipSpaces();
      var start := cur;
      if cur == |doc| { return Token(EndOfStream, start, start); }
      var c := doc[cur];
      cur := cur + 1;
      var kind, ok := Error, true;
      match c {
      case '{' => kind := ObjectBegin;
      case '}' => kind := ObjectEnd;
      case '[' => kind := ArrayBegin;
      case ']' => kind := ArrayEnd;
      case '\"' => kind := StringToken; ok := ReadString();
      case '/' => kind := Comment; ok := ReadComment();
      case 't' => kind := True; ok := Match("rue");
      case 'f' => kind := False; ok := Match("alse");
      case 'n' => kind := NullToken; ok := Match("ull");
      case ',' => kind := Comma;
      case ':' => kind := Colon;
      case '\0' => kind := EndOfStream;
      case _ =>
        if '0' <= c <= '9' || c == '-' {
          kind := NumberToken;
          ReadNumber();
        }
      }
      if !ok { kind := Error; }
      t := Token(kind, start, cur);
    }

    /** Read tokens until one is not a comment. */
    method SkipCommentTokens() returns (t: Token)
      requires cur <= |doc|
      modifies this
      ensures old(cur) <= cur <= |doc| && t == NextReal(doc, old(cur)) && cur == t.end
    {
      hide NextToken;
      t := ReadToken();
      while t.kind == Comment
        invariant old(cur) <= cur <= |doc|
        invariant cur == t.end
        invariant (if t.kind == Comment then NextReal(doc, cur) else t) == NextReal(doc, old(cur))
        decreases |doc| - cur, if t.kind == Comment then 1 else 0
      {
        t := ReadToken();
      }
    }

    method ReadValue() returns (r: Option<Json>)
      requires cur <= |doc|
      modifies this
      ensures old(cur) <= cur <= |doc| && Yields(r, ParseValue(doc, old(cur)), cur)
      decreases |doc| - cur, 0
    {
      hide NextReal, NextToken, ParseItems, ParseMembers, JsonParse.SkipSpaces, DecodeNumber, DecodeString, NumberShape;
      var t := SkipCommentTokens();
      match t.kind {
      case ObjectBegin => r := ReadObject();
      case ArrayBegin => r := ReadArray();
      case NumberToken =>
        var decoded := DecodeNumberText(NumberText(doc, t));
        r := Some(decoded);
      case StringToken =>
        var decoded := DecodeStringText(doc, t.start + 1, t.end - 1);
        r := if decoded.None? then None else Some(Str(decoded.value));
      case True => r := Some(Bool(true));
      case False => r := Some(Bool(false));
      case NullToken => r := Some(Null);
      case _ => r := None;
      }
    }

    /** From just behind the opening bracket. */
    method ReadArray() returns (r: Option<Json>)
      requires cur <= |doc|
      modifies this
      ensures old(cur) <= cur <= |doc|
      ensures var first := JsonParse.SkipSpaces(doc, old(cur));
        Yields(r, if At(doc, first) == ']' then Read(Arr([]), first + 1) else ParseItems(doc, first, []), cur)
      decreases |doc| - cur, 2
    {
      hide NextReal, NextToken, ParseValue, JsonParse.SkipSpaces;
      SkipSpaces();
      if At(doc, cur) == ']' {
        cur := cur + 1;
        return Some(Arr([]));
      }
      ghost var first := cur;
      var items := [];
      while true
        invariant old(cur) <= first <= cur <= |doc| && ParseItems(doc, cur, items) == ParseItems(doc, first, [])
        decreases |doc| - cur
      {
        var item := ReadValue();
        if item.None? { return None; }
        items := items + [item.value];
        var t := SkipCommentTokens();
        if t.kind != Comma && t.kind != ArrayEnd { return None; }
        if t.kind == ArrayEnd { return Some(Arr(items)); }
      }
    }

    /** A member's name, and the colon. */
    method ReadName(t: Token) returns (name: Option<string>)
      requires cur == t.end <= |doc| && (t.kind == StringToken ==> t.start + 2 <= t.end)
      modifies this
      ensures old(cur) <= cur <= |doc|
      ensures match ParseName(doc, t)
        case Fail => name.None?
        case Read(s, next) => name == Some(s) && cur == next
    {
      hide NextToken, DecodeString;
      if t.kind != StringToken { return None; }
      name := DecodeStringText(doc, t.start + 1, t.end - 1);
      if name.None? { return; }
      var colon := ReadToken();
      if colon.kind != Colon { return None; }
    }

    /** The token behind a member, comments skipped. */
    method ReadComma() returns (after: Option<Token>)
      requires cur <= |doc|
      modifies this
      ensures old(cur) <= cur <= |doc| && after == AfterMember(doc, old(cur))
      ensures after.Some? ==> cur == after.value.end
    {
      hide NextToken, NextReal;
      var comma := ReadToken();
      if comma.kind != ObjectEnd && comma.kind != Comma && comma.kind != Comment { return None; }
      if comma.kind == Comment { comma := SkipCommentTokens(); }
      return Some(comma);
    }

    /** From just behind the opening brace. */
    method ReadObject() returns (r: Option<Json>)
      requires cur <= |doc|
      modifies this
      ensures old(cur) <= cur <= |doc| && Yields(r, ParseMembers(doc, old(cur), "", []), cur)
      decreases |doc| - cur, 2
    {
      hide NextReal, NextToken, ParseValue, ParseName, AfterMember, Insert, CString;
      var last, members := "", [];
      while true
        invariant old(cur) <= cur <= |doc|
        invariant ParseMembers(doc, cur, last, members) == ParseMembers(doc, old(cur), "", [])
        decreases |doc| - cur
      {
        var t := SkipCommentTokens();
        if t.kind == ObjectEnd && last == "" { return Some(Obj(members)); }
        var name := ReadName(t);
        if name.None? { return None; }
        var value := ReadValue();
        if value.None? { return None; }
        last, members := name.value, Insert(members, CString(name.value), value.value);
        var after := ReadComma();
        if after.None? { return None; }
        if after.value.kind == ObjectEnd { return Some(Obj(members)); }
      }
    }

    /** The root value; whatever follows it is not looked at beyond one token. */
    method Parse() returns (r: Option<Json>)
      requires cur <= |doc|
      modifies this
      ensures cur <= |doc| && (r.None? <==> ParseValue(doc, old(cur)).Fail?)
      ensures r.Some? ==> r.value == ParseValue(doc, old(cur)).value
    {
      hide ParseValue;
      r := ReadValue();
      var t := SkipCommentTokens();
    }
  }

  /** A document written by the writer and read by the reader. */
  method WriteThenRead(v: Json) returns (r: Option<Json>)
    requires Valid(v)
    ensures r == Some(Retag(v))
  {
    hide Valid, Writable, Write, ParseValue, Retag;
    ValidIsWritable(v);
    var writer := new FastWriter();
    var text := writer.WriteDocument(v);
    RoundTrip(v);
    var reader := new Reader(text);
    r := reader.Parse();
  }
}
