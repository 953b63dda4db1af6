/**
  JSON values and the text FastWriter gives them
  (lib/json/jsoncpp.cpp:127-158, 3003-3031, 3075-3208; RFC 8259, sections 3 to 7).
 */
module JsonText {

  /** Object members are kept in the order of a std::map over their names. */
  datatype Json =
    | Null
    | Bool(b: bool)
    | Int(n: int)
    | UInt(u: nat)
    | Real(text: string)
    | Str(s: string)
    | Arr(items: seq<Json>)
    | Obj(members: seq<Member>)

  datatype Member = Member(name: string, value: Json)

  const INT64_BOUND: nat := 0x8000_0000_0000_0000
  const UINT64_BOUND: nat := 0x1_0000_0000_0000_0000
  const MAX_INT: nat := 0x7fff_ffff

  // ----- names -----

  /** strcmp order. */
  predicate NameLess(a: string, b: string) {
    if b == [] then false
    else if a == [] then true
    else a[0] < b[0] || (a[0] == b[0] && NameLess(a[1..], b[1..]))
  }

  /** Names are compared at the first place where they differ; a name comes before its own extensions. */
  lemma {:induction false} NameOrderIs(a: string, b: string, p: nat)
    requires p <= |a| && p <= |b| && a[..p] == b[..p]
    ensures p == |a| < |b| ==> NameLess(a, b)
    ensures p < |a| && p < |b| && a[p] < b[p] ==> NameLess(a, b)
    ensures p == |b| ==> !NameLess(a, b)
    ensures p < |a| && p < |b| && a[p] > b[p] ==> !NameLess(a, b)
  {
    if p > 0 {
      assert a[0] == a[..p][0] == b[..p][0] == b[0];
      assert a[1..][..p - 1] == a[..p][1..] && b[1..][..p - 1] == b[..p][1..];
      NameOrderIs(a[1..], b[1..], p - 1);
    }
  }

  /** Any two names are equal or ordered. */
  lemma {:induction false} NameLessTotal(a: string, b: string)
    ensures a == b || NameLess(a, b) || NameLess(b, a)
  {
    if a != [] && b != [] && a[0] == b[0] {
      NameLessTotal(a[1..], b[1..]);
      assert a == [a[0]] + a[1..] && b == [b[0]] + b[1..];
    }
  }

  lemma {:induction false} NameLessTransitive(a: string, b: string, c: string)
    requires NameLess(a, b) && NameLess(b, c)
    ensures NameLess(a, c)
  {
    if a != [] && a[0] == b[0] == c[0] { NameLessTransitive(a[1..], b[1..], c[1..]); }
  }

  lemma {:induction false} NameLessIrreflexive(a: string)
    ensures !NameLess(a, a)
  {
    if a != [] { NameLessIrreflexive(a[1..]); }
  }

  /** The part of a string a C string keeps. */
  function CString(s: string): string {
    if s == [] || s[0] == '\0' then [] else [s[0]] + CString(s[1..])
  }

  /** Everything before the first NUL. */
  lemma {:induction false} CStringIs(s: string)
    ensures CString(s) <= s && '\0' !in CString(s) && (CString(s) == s || s[|CString(s)|] == '\0')
  {
    if s != [] && s[0] != '\0' {
      CStringIs(s[1..]);
      assert s == [s[0]] + s[1..];
    }
  }

  lemma {:induction false} CStringWhole(s: string)
    requires '\0' !in s
    ensures CString(s) == s
  {
    if s != [] { CStringWhole(s[1..]); }
  }

  // ----- what the round trip covers -----

  ghost predicate Ascending(members: seq<Member>) {
    forall i, j :: 0 <= i < j < |members| ==> NameLess(members[i].name, members[j].name)
  }

  /** Integers strictly between -2^63 and 2^64, strings without NUL, names distinct and in order. */
  ghost predicate Valid(v: Json) {
    match v
    case Int(n) => n + INT64_BOUND > 0 && n < INT64_BOUND
    case UInt(u) => u < UINT64_BOUND
    case Real(_) => false
    case Str(s) => '\0' !in s
    case Arr(items) => forall i :: 0 <= i < |items| ==> Valid(items[i])
    case Obj(members) =>
      Ascending(members) && forall i :: 0 <= i < |members| ==> '\0' !in members[i].name && Valid(members[i].value)
    case _ => true
  }

  /** The tag a number has once read: signed when it is negative or fits an int. */
  function Tagged(n: int): Json
    requires n < UINT64_BOUND
  {
    if n <= MAX_INT then Int(n) else UInt(n)
  }

  /** The same tree with every integer tagged as the reader tags it. */
  function Retag(v: Json): Json
    requires Valid(v)
  {
    match v
    case Int(n) => Tagged(n)
    case UInt(u) => Tagged(u)
    case Arr(items) => Arr(seq(|items|, i requires 0 <= i < |items| => Retag(items[i])))
    case Obj(members) =>
      Obj(seq(|members|, i requires 0 <= i < |members| => Member(members[i].name, Retag(members[i].value))))
    case _ => v
  }

  // ----- text -----

  function Digit(d: nat): char
    requires d < 10
  {
    ('0' as int + d) as char
  }

  function Digits(n: nat): (s: string)
    ensures |s| > 0
  {
    (if n < 10 then "" else Digits(n / 10)) + [Digit(n % 10)]
  }

  function Decimal(n: int): string {
    if n < 0 then "-" + Digits(-n) else Digits(n)
  }

  predicate IsControl(c: char) {
    '\0' < c <= 0x1F as char
  }

  function HexDigit(d: nat): char
    requires d < 16
  {
    if d < 10 then ('0' as int + d) as char else ('A' as int + d - 10) as char
  }

  function EscapeChar(c: char): (e: string)
    ensures |e| > 0
  {
    if c == '\"' then "\\\""
    else if c == '\\' then "\\\\"
    else if c == 8 as char then "\\b"
    else if c == 12 as char then "\\f"
    else if c == '\n' then "\\n"
    else if c == '\r' then "\\r"
    else if c == '\t' then "\\t"
    else if IsControl(c) then "\\u00" + [HexDigit(c as int / 16), HexDigit(c as int % 16)]
    else [c]
  }

  /** Quotes, backslashes and control characters are escaped, and nothing else is. */
  lemma EscapesExactly(c: char)
    requires c != '\0'
    ensures EscapeChar(c) == [c] <==> c >= ' ' && c != '\"' && c != '\\'
    ensures forall e | e in EscapeChar(c) :: e >= ' '
  {
    if IsControl(c) {
      HexDigitIs(c as int / 16);
      HexDigitIs(c as int % 16);
    }
  }

  /** Hexadecimal digits are written in upper case. */
  lemma HexDigitIs(d: nat)
    requires d < 16
    ensures HexDigit(d) == "0123456789ABCDEF"[d]
  {
  }

  /** A written string has no control characters. */
  lemma {:induction false} WrittenInOneLine(s: string)
    requires '\0' !in s
    ensures forall e | e in Quoted(s) :: e >= ' '
  {
    hide EscapeChar;
    CStringWhole(s);
    EscapedInOneLine(s);
  }

  lemma {:induction false} EscapedInOneLine(s: string)
    requires '\0' !in s
    ensures forall e | e in Escaped(s) :: e >= ' '
  {
    hide EscapeChar;
    if s != [] {
      EscapesExactly(s[0]);
      EscapedInOneLine(s[1..]);
    }
  }

  function Escaped(s: string): string {
    if s == [] then [] else EscapeChar(s[0]) + Escaped(s[1..])
  }

  function Quoted(s: string): string {
    "\"" + Escaped(CString(s)) + "\""
  }

  /** The text of a value, on one line. */
  function Write(v: Json): string
    decreases v
  {
    match v
    case Null => "null"
    case Bool(b) => if b then "true" else "false"
    case Int(n) => Decimal(n)
    case UInt(u) => Decimal(u)
    case Real(text) => text
    case Str(s) => Quoted(s)
    case Arr(items) => "[" + WriteItems(items, 0) + "]"
    case Obj(members) => "{" + WriteMembers(members, 0) + "}"
  }

  /** The items from i on, each but the first after a comma. */
  function WriteItems(items: seq<Json>, i: nat): string
    requires i <= |items|
    decreases items, |items| - i
  {
    if i == |items| then ""
    else (if i > 0 then "," else "") + Write(items[i]) + WriteItems(items, i + 1)
  }

  function WriteMembers(members: seq<Member>, i: nat): string
    requires i <= |members|
    decreases members, |members| - i
  {
    if i == |members| then ""
    else
      (if i > 0 then "," else "") + Quoted(members[i].name) + ":" + Write(members[i].value)
      + WriteMembers(members, i + 1)
  }
}
