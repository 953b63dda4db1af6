/** FastWriter (lib/json/jsoncpp.cpp:143-158, 3003-3031, 3075-3208), proved to write Write(v). */
module JsonWriter {
  import opened JsonText

  // ----- integers -----

  function Ten(k: nat): nat {
    if k == 0 then 1 else 10 * Ten(k - 1)
  }

  /** 3 * sizeof(LargestUInt) + 1. */
  const BUFFER_SIZE: nat := 25

  /** Twenty digits hold every 64-bit number. */
  lemma TwentyDigits()
    ensures UINT64_BOUND <= Ten(20)
  {
    assert Ten(5) == 100_000;
    assert Ten(10) == 10_000_000_000;
    assert Ten(15) == 1_000_000_000_000_000;
    assert Ten(20) == 100_000_000_000_000_000_000;
  }

  /** Fill the buffer backwards; the digits start at the returned place and end before the NUL. */
  method UintToString(value: nat, buffer: array<char>) returns (current: nat)
    requires value < UINT64_BOUND && buffer.Length == BUFFER_SIZE
    modifies buffer
    ensures 0 < current < BUFFER_SIZE - 1
    ensures buffer[current..BUFFER_SIZE - 1] == Digits(value) && buffer[BUFFER_SIZE - 1] == '\0'
  {
    hide Digits, Ten;
    TwentyDigits();
    current := BUFFER_SIZE - 1;
    buffer[current] := '\0';
    current := current - 1;
    buffer[current] := Digit(value % 10);
    var rest: nat := value / 10;
    DigitsStart(value);
    TenStep(20);
    while rest != 0
      invariant 4 <= current < BUFFER_SIZE - 1 && rest < Ten(current - 4)
      invariant buffer[BUFFER_SIZE - 1] == '\0'
      invariant (if rest == 0 then "" else Digits(rest)) + buffer[current..BUFFER_SIZE - 1] == Digits(value)
      decreases rest
    {
      TenStep(current - 4);
      DigitsStart(rest);
      ghost var suffix := buffer[current..BUFFER_SIZE - 1];
      current := current - 1;
      buffer[current] := Digit(rest % 10);
      assert buffer[current..BUFFER_SIZE - 1] == [Digit(rest % 10)] + suffix;
      rest := rest / 10;
    }
  }

  lemma DigitsStart(n: nat)
    ensures Digits(n) == (if n / 10 == 0 then "" else Digits(n / 10)) + [Digit(n % 10)]
  {
  }

  lemma TenStep(k: nat)
    ensures k == 0 ==> Ten(k) == 1
    ensures k > 0 ==> Ten(k) == 10 * Ten(k - 1)
  {
  }

  /** valueToString of a signed or unsigned 64-bit integer; its negation must exist. */
  method ValueToString(value: int) returns (s: string)
    requires value + INT64_BOUND > 0 && value < UINT64_BOUND
    ensures s == Decimal(value)
  {
    hide Digits;
    var buffer := new char[BUFFER_SIZE];
    var magnitude := if value < 0 then -value else value;
    var current := UintToString(magnitude, buffer);
    if value < 0 {
      current := current - 1;
      buffer[current] := '-';
      assert buffer[current + 1..BUFFER_SIZE - 1] == Digits(magnitude);
      assert buffer[current..BUFFER_SIZE - 1] == "-" + Digits(magnitude);
    }
    s := buffer[current..BUFFER_SIZE - 1];
  }

  // ----- strings -----

  method ContainsControlCharacter(s: string) returns (found: bool)
    ensures found <==> exists k :: 0 <= k < |s| && IsControl(s[k])
  {
    var k := 0;
    while k < |s|
      invariant 0 <= k <= |s| && forall j :: 0 <= j < k ==> !IsControl(s[j])
    {
      if IsControl(s[k]) { return true; }
      k := k + 1;
    }
    return false;
  }

  /** The characters strpbrk looks for. */
  predicate IsSpecial(c: char) {
    c == '\"' || c == '\\' || c == 8 as char || c == 12 as char || c == '\n' || c == '\r' || c == '\t'
  }

  lemma {:induction false} PlainText(s: string)
    requires forall k :: 0 <= k < |s| ==> !IsSpecial(s[k]) && !IsControl(s[k])
    ensures Escaped(s) == s
  {
    if s != [] { PlainText(s[1..]); }
  }

  lemma {:induction false} EscapedPush(s: string, c: char)
    ensures Escaped(s + [c]) == Escaped(s) + EscapeChar(c)
  {
    hide EscapeChar;
    if s == [] {
      assert s + [c] == [c];
    } else {
      EscapedPush(s[1..], c);
      assert (s + [c])[1..] == s[1..] + [c];
    }
  }

  method ValueToQuotedString(value: string) returns (result: string)
    ensures result == Quoted(value)
  {
    hide Escaped, EscapeChar, CString;
    var s := CString(value);
    var control := ContainsControlCharacter(s);
    if (forall k :: 0 <= k < |s| ==> !IsSpecial(s[k])) && !control {
      PlainText(s);
      return "\"" + s + "\"";
    }
    result := "\"";
    var i := 0;
    EscapedEmpty();
    while i < |s|
      invariant 0 <= i <= |s| && result == "\"" + Escaped(s[..i])
    {
      EscapedPush(s[..i], s[i]);
      assert s[..i + 1] == s[..i] + [s[i]];
      result := result + EscapeChar(s[i]);
      i := i + 1;
    }
    assert s[..i] == s;
    result := result + "\"";
  }

  lemma EscapedEmpty()
    ensures Escaped("") == ""
  {
  }

  // ----- values -----

  /** Every integer has a width the writer can print. */
  ghost predicate Writable(v: Json) {
    match v
    case Int(n) => n + INT64_BOUND > 0 && n < INT64_BOUND
    case UInt(u) => u < UINT64_BOUND
    case Arr(items) => forall i :: 0 <= i < |items| ==> Writable(items[i])
    case Obj(members) => forall i :: 0 <= i < |members| ==> Writable(members[i].value)
    case _ => true
  }

  lemma ValidIsWritable(v: Json)
    requires Valid(v)
    ensures Writable(v)
  {
  }

  class FastWriter {
    var document: string

    constructor ()
      ensures document == ""
    {
      document := "";
    }

    method WriteValue(v: Json)
      requires Writable(v)
      modifies this
      ensures document == old(document) + Write(v)
      decreases v, 0
    {
      match v
      case Null => document := document + "null";
      case Bool(b) => document := document + (if b then "true" else "false");
      case Int(n) => var s := ValueToString(n); document := document + s;
      case UInt(u) => var s := ValueToString(u); document := document + s;
      case Real(text) => document := document + text;
      case Str(s) => var q := ValueToQuotedString(s); document := document + q;
      case Arr(items) => WriteArray(items);
      case Obj(members) => WriteObject(members);
    }

    method WriteArray(items: seq<Json>)
      requires forall i :: 0 <= i < |items| ==> Writable(items[i])
      modifies this
      ensures document == old(document) + Write(Arr(items))
      decreases items, 0
    {
      hide Writable, Write;
      ghost var before := document + "[";
      document := document + "[";
      var i := 0;
      while i < |items|
        invariant 0 <= i <= |items| && document + WriteItems(items, i) == before + WriteItems(items, 0)
      {
        ghost var start := document;
        NextItem(items, i);
        if i > 0 { document := document + ","; }
        WriteValue(items[i]);
        Moved(document, start, (if i > 0 then "," else "") + Write(items[i]), WriteItems(items, i + 1));
        i := i + 1;
      }
      ArrayWritten(items);
      Closed(document, old(document), WriteItems(items, 0), "[", "]");
      document := document + "]";
    }

    method WriteObject(members: seq<Member>)
      requires forall i :: 0 <= i < |members| ==> Writable(members[i].value)
      modifies this
      ensures document == old(document) + Write(Obj(members))
      decreases members, 0
    {
      hide Writable, Write, Quoted;
      ghost var before := document + "{";
      document := document + "{";
      var i := 0;
      while i < |members|
        invariant 0 <= i <= |members| && document + WriteMembers(members, i) == before + WriteMembers(members, 0)
      {
        ghost var start := document;
        NextMember(members, i);
        if i > 0 { document := document + ","; }
        var q := ValueToQuotedString(members[i].name);
        document := document + q;
        document := document + ":";
        WriteValue(members[i].value);
        Moved(document, start, (if i > 0 then "," else "") + q + ":" + Write(members[i].value), WriteMembers(members, i + 1));
        i := i + 1;
      }
      ObjectWritten(members);
      Closed(document, old(document), WriteMembers(members, 0), "{", "}");
      document := document + "}";
    }

    method WriteDocument(v: Json) returns (text: string)
      requires Writable(v)
      modifies this
      ensures text == document == Write(v) + "\n"
    {
      hide Writable, Write;
      document := "";
      WriteValue(v);
      document := document + "\n";
      return document;
    }
  }

  /** What was just written moves from the text to come to the document. */
  lemma Moved(document: string, start: string, text: string, rest: string)
    requires document == start + text
    ensures document + rest == start + (text + rest)
  {
  }

  lemma Closed(document: string, start: string, inner: string, open: string, close: string)
    requires document + "" == start + open + inner
    ensures document + close == start + (open + inner + close)
  {
    assert document + "" == document;
  }

  lemma NextItem(items: seq<Json>, i: nat)
    requires i < |items|
    ensures WriteItems(items, i) == ((if i > 0 then "," else "") + Write(items[i])) + WriteItems(items, i + 1)
  {
    hide Write;
  }

  lemma NextMember(members: seq<Member>, i: nat)
    requires i < |members|
    ensures var text := (if i > 0 then "," else "") + Quoted(members[i].name) + ":" + Write(members[i].value);
      WriteMembers(members, i) == text + WriteMembers(members, i + 1)
  {
    hide Write, Quoted;
  }

  lemma ArrayWritten(items: seq<Json>)
    ensures Write(Arr(items)) == "[" + WriteItems(items, 0) + "]" && WriteItems(items, |items|) == ""
  {
  }

  lemma ObjectWritten(members: seq<Member>)
    ensures Write(Obj(members)) == "{" + WriteMembers(members, 0) + "}" && WriteMembers(members, |members|) == ""
  {
  }
}
