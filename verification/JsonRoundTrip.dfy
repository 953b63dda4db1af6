/**
  Reading back what was written: the writer's text is one of the grammar's, and
  stands for the same value, with integers tagged as the reader tags them.
 */
module JsonRoundTrip {
  import opened Wrappers
  import opened JsonText
  import opened JsonParse
  import opened JsonStrings
  import opened JsonGrammar

  // ----- numbers -----

  lemma {:induction false} DigitsAreDigits(n: nat)
    ensures AllDigits(Digits(n), 0)
  {
    if n >= 10 { DigitsAreDigits(n / 10); }
  }

  /** The number that digits stand for, however large. */
  ghost function Numeral(text: string, i: nat, value: nat): nat
    requires i <= |text| && AllDigits(text, i)
    decreases |text| - i
  {
    if i == |text| then value else Numeral(text, i + 1, value * 10 + (text[i] as int - '0' as int))
  }

  lemma {:induction false} NumeralGrows(text: string, i: nat, value: nat)
    requires i <= |text| && AllDigits(text, i)
    ensures Numeral(text, i, value) >= value
    ensures i < |text| ==> Numeral(text, i, value) >= value * 10
    decreases |text| - i
  {
    if i < |text| { NumeralGrows(text, i + 1, value * 10 + (text[i] as int - '0' as int)); }
  }

  /** The integer path is taken exactly when the number is within max, and then it gives the number. */
  lemma {:induction false} IntegerPathExact(text: string, i: nat, value: nat, max: nat)
    requires i <= |text| && AllDigits(text, i) && value <= max && max >= 10
    ensures Accumulate(text, i, value, max) ==
            if Numeral(text, i, value) <= max then Some(Numeral(text, i, value)) else None
    decreases |text| - i
  {
    if i < |text| {
      var digit := text[i] as int - '0' as int;
      var next := value * 10 + digit;
      NumeralGrows(text, i, value);
      NumeralGrows(text, i + 1, next);
      Guard(value, digit, max);
      if next <= max { IntegerPathExact(text, i + 1, next, max); }
    }
  }

  /** The guard against threshold and last digit decides whether the next value fits. */
  lemma Guard(value: nat, digit: nat, max: nat)
    requires max >= 10 && digit < 10
    ensures value * 10 + digit <= max <==> !(value >= max / 10 && (value > max / 10 || digit > max % 10))
    ensures value >= max / 10 ==> (value * 10 + digit) * 10 > max
  {
  }

  lemma DigitsSplit(n: nat)
    ensures Digits(n) == (if n < 10 then "" else Digits(n / 10)) + [Digit(n % 10)]
    ensures n < 10 ==> Digits(n) == [Digit(n)]
  {
  }

  /** The digits of n stand for n. */
  lemma {:induction false} DigitsRead(n: nat, text: string, i: nat)
    requires HasAt(text, i, Digits(n)) && AllDigits(text, i)
    ensures Numeral(text, i, 0) == Numeral(text, i + |Digits(n)|, n)
  {
    hide HasAt, Digits;
    DigitsSplit(n);
    if n < 10 {
      CharAt(text, i, Digits(n), 0);
    } else {
      var p := |Digits(n / 10)|;
      HasAtSplit(text, i, Digits(n / 10), [Digit(n % 10)]);
      CharAt(text, i, Digits(n), p);
      DigitsRead(n / 10, text, i);
    }
  }

  lemma DecimalDecodes(n: int)
    requires n + INT64_BOUND > 0 && n < UINT64_BOUND
    ensures IsNumberText(Decimal(n)) && DecodeNumber(Decimal(n)) == Tagged(n)
  {
    hide Digits;
    var text := Decimal(n);
    var magnitude := if n < 0 then -n else n;
    var first := if n < 0 then 1 else 0;
    var max := if n < 0 then INT64_BOUND else UINT64_BOUND - 1;
    DigitsAreDigits(magnitude);
    assert text[first..] == Digits(magnitude);
    assert HasAt(text, first, Digits(magnitude));
    forall k | first <= k < |text| ensures '0' <= text[k] <= '9' {
      assert text[k] == Digits(magnitude)[k - first];
    }
    DigitsRead(magnitude, text, first);
    IntegerPathExact(text, first, 0, max);
  }

  // ----- strings -----

  /** How the writer spells a character. */
  function PieceFor(c: char): Piece {
    if c == '\"' then Short(0)
    else if c == '\\' then Short(1)
    else if c == 8 as char then Short(3)
    else if c == 12 as char then Short(4)
    else if c == '\n' then Short(5)
    else if c == '\r' then Short(6)
    else if c == '\t' then Short(7)
    else if IsControl(c) then Unicode(c as int, "00" + [HexDigit(c as int / 16), HexDigit(c as int % 16)], "", 0)
    else Plain(c)
  }

  lemma WrittenHex(d: nat)
    requires d < 16
    ensures HexIs(HexDigit(d), d)
  {
    HexDigitIs(d);
  }

  lemma ControlIs(c: char)
    requires IsControl(c)
    ensures SpellsUnit("00" + [HexDigit(c as int / 16), HexDigit(c as int % 16)], c as int) && Utf8(c as int) == [c]
  {
    hide HexIs, HexDigit;
    ZeroIs();
    WrittenHex(c as int / 16);
    WrittenHex(c as int % 16);
    var s := "00" + [HexDigit(c as int / 16), HexDigit(c as int % 16)];
    assert s[0] == '0' && s[1] == '0' && s[2] == HexDigit(c as int / 16) && s[3] == HexDigit(c as int % 16);
  }

  lemma PieceForIs(c: char)
    ensures PieceOk(PieceFor(c)) && PieceText(PieceFor(c)) == EscapeChar(c) && PieceMeaning(PieceFor(c)) == [c]
  {
    hide SpellsUnit, HexDigit, Utf8;
    if IsControl(c) {
      ControlIs(c);
      var h := [HexDigit(c as int / 16), HexDigit(c as int % 16)];
      assert "\\u" + ("00" + h) + "" == "\\u00" + h;
    }
  }

  lemma ZeroIs()
    ensures HexIs('0', 0)
  {
  }

  function PiecesFor(s: string): (ps: seq<Piece>)
    ensures |ps| == |s|
  {
    seq(|s|, i requires 0 <= i < |s| => PieceFor(s[i]))
  }

  lemma {:induction false} PiecesForIs(s: string)
    ensures PiecesOk(PiecesFor(s)) && PiecesText(PiecesFor(s)) == Escaped(s) && PiecesMeaning(PiecesFor(s)) == s
  {
    hide PieceFor, PieceOk, PieceText, PieceMeaning, EscapeChar;
    forall i | 0 <= i < |s| ensures PieceOk(PiecesFor(s)[i]) { PieceForIs(s[i]); }
    if s != [] {
      PieceForIs(s[0]);
      PiecesForIs(s[1..]);
      assert PiecesFor(s)[1..] == PiecesFor(s[1..]);
      assert s == [s[0]] + s[1..];
    }
  }

  /** A quoted string is a literal that stands for the string. */
  lemma QuotedIs(s: string)
    requires '\0' !in s
    ensures PiecesOk(PiecesFor(s)) && LiteralText(PiecesFor(s)) == Quoted(s) && PiecesMeaning(PiecesFor(s)) == s
  {
    hide PiecesText, PiecesMeaning, Escaped;
    CStringWhole(s);
    PiecesForIs(s);
  }

  /** The closing quote found is the one written. */
  lemma StringScanned(s: string, doc: string, cur: nat)
    requires HasAt(doc, cur, Escaped(s) + "\"")
    ensures StringEnd(doc, cur) == Some(cur + |Escaped(s)| + 1)
  {
    hide Escaped, PiecesText, HasAt, StringEnd, PiecesOk;
    PiecesForIs(s);
    PiecesScanned(PiecesFor(s), doc, cur);
  }

  /** Decoding inverts escaping. */
  lemma StringDecoded(s: string, doc: string, cur: nat, end: nat, done: string)
    requires HasAt(doc, cur, Escaped(s)) && end == cur + |Escaped(s)|
    ensures DecodeString(doc, cur, end, done) == Some(done + s)
  {
    hide Escaped, PiecesText, PiecesMeaning, DecodeString, PiecesOk;
    PiecesForIs(s);
    PiecesDecoded(PiecesFor(s), doc, cur, end, done);
  }

  /** A quoted string is one token, and decodes to the string. */
  lemma QuotedReads(s: string, doc: string, cur: nat)
    requires '\0' !in s && HasAt(doc, cur, Quoted(s))
    ensures var t := NextReal(doc, cur);
      t == Token(StringToken, cur, cur + |Quoted(s)|) && StringOf(doc, t) == Some(s)
    ensures NextToken(doc, cur) == NextReal(doc, cur)
  {
    hide Quoted, LiteralText, PiecesMeaning, NextToken, NextReal, StringOf, PiecesOk, HasAt;
    QuotedIs(s);
    LiteralReads(PiecesFor(s), doc, cur);
  }

  // ----- values -----

  /** The writer's text of a value, as a tree: no spaces anywhere. */
  ghost function Written(v: Json): Text
    requires Valid(v)
  {
    match v
    case Int(n) => Number(Decimal(n))
    case UInt(u) => Number(Decimal(u))
    case Str(s) => Literal(PiecesFor(s))
    case Arr(items) => Array("", seq(|items|, i requires 0 <= i < |items| => Item([], Written(items[i]), [])))
    case Obj(members) =>
      Object([], seq(|members|, i requires 0 <= i < |members| =>
                                  Entry([], PiecesFor(members[i].name), "", [], Written(members[i].value), [])), None)
    case _ => Word(v)
  }

  ghost predicate AllValid(items: seq<Json>) {
    forall i | 0 <= i < |items| :: Valid(items[i])
  }

  ghost predicate MembersValid(members: seq<Member>) {
    Ascending(members) && forall i | 0 <= i < |members| :: '\0' !in members[i].name && Valid(members[i].value)
  }

  ghost function WrittenItems(items: seq<Json>): (r: seq<Item>)
    requires AllValid(items)
    ensures |r| == |items|
  {
    seq(|items|, i requires 0 <= i < |items| => Item([], Written(items[i]), []))
  }

  ghost function WrittenMembers(members: seq<Member>): (r: seq<Entry>)
    requires MembersValid(members)
    ensures |r| == |members|
  {
    seq(|members|, i requires 0 <= i < |members| => Entry([], PiecesFor(members[i].name), "", [], Written(members[i].value), []))
  }

  /** The writer's text is grammatical and stands for the value. */
  ghost predicate WritesWell(v: Json)
    requires Valid(v)
  {
    Grammatical(Written(v)) && Spelled(Written(v)) == Write(v) && Meaning(Written(v)) == Retag(v)
  }

  lemma {:induction false} WrittenIs(v: Json)
    requires Valid(v)
    ensures WritesWell(v)
  {
    match v
    case Int(n) => NumberWritten(v, n);
    case UInt(u) => NumberWritten(v, u);
    case Str(s) => StringWritten(s);
    case Arr(items) =>
      forall i | 0 <= i < |items| ensures Valid(items[i]) && WritesWell(items[i]) { WrittenIs(items[i]); }
      ArrayWritten(items);
    case Obj(members) =>
      forall i | 0 <= i < |members| ensures Valid(members[i].value) && WritesWell(members[i].value) { WrittenIs(members[i].value); }
      ObjectWritten(members);
    case _ =>
  }

  lemma NumberWritten(v: Json, n: int)
    requires Valid(v) && (v == Int(n) || (n >= 0 && v == UInt(n)))
    ensures WritesWell(v)
  {
    hide Decimal, DecodeNumber, NumberOk;
    NumberIs(n);
  }

  lemma NumberIs(n: int)
    requires n + INT64_BOUND > 0 && n < UINT64_BOUND
    ensures NumberOk(Decimal(n)) && IsNumberText(Decimal(n)) && DecodeNumber(Decimal(n)) == Tagged(n)
  {
    hide DecodeNumber, InNumber, Digits;
    DecimalDecodes(n);
    var text := Decimal(n);
    forall i | 0 <= i < |text| ensures text[i] in NUMBER_CHARS {
      assert InNumber(text[i]);
      NumberChar(text[i]);
    }
    DigitsAreDigits(if n < 0 then -n else n);
    DigitIn(text[0]);
  }

  lemma DigitIn(c: char)
    requires '0' <= c <= '9' || c == '-'
    ensures c == '-' || c in "0123456789"
  {
  }

  lemma StringWritten(s: string)
    requires Valid(Str(s))
    ensures WritesWell(Str(s))
  {
    hide PiecesOk, LiteralText, Quoted, PiecesMeaning, PiecesFor;
    QuotedIs(s);
  }

  lemma NothingBetween()
    ensures Blank("") && FillersText([]) == "" && FillersOk([])
  {
  }

  // ----- arrays -----

  lemma ArrayWritten(items: seq<Json>)
    requires Valid(Arr(items)) && AllValid(items) && forall i | 0 <= i < |items| :: WritesWell(items[i])
    ensures WritesWell(Arr(items))
  {
    hide WrittenItems, ItemsText, ItemsMeaning, ItemOk, WriteItems, Blank, WritesWell, RetagItems, Retag;
    ItemsWritten(items);
    ItemsMean(items, |items|);
    RetagArray(items);
    NothingBetween();
    var t := Array("", WrittenItems(items));
    assert Grammatical(t);
    assert Spelled(t) == Write(Arr(items)) by { ArrayText(items); }
    assert RetagItems(items)[..|items|] == RetagItems(items);
    assert Meaning(t) == Retag(Arr(items));
    WritesAs(Arr(items), t);
  }

  lemma WritesAs(v: Json, t: Text)
    requires Valid(v) && Written(v) == t && Grammatical(t) && Spelled(t) == Write(v) && Meaning(t) == Retag(v)
    ensures WritesWell(v)
  {
  }

  lemma RetagArray(items: seq<Json>)
    requires Valid(Arr(items)) && AllValid(items)
    ensures Retag(Arr(items)) == Arr(RetagItems(items)) && Written(Arr(items)) == Array("", WrittenItems(items))
  {
    hide Valid;
    assert Retag(Arr(items)).items == RetagItems(items);
    assert Written(Arr(items)).items == WrittenItems(items);
  }

  lemma TightArray(ts: seq<Item>)
    requires ItemsOk(ts)
    ensures Grammatical(Array("", ts)) && Spelled(Array("", ts)) == "[" + if ts == [] then "]" else ItemsText(ts, 0)
  {
    hide ItemsText, ItemOk;
    assert "" + "]" == "]";
  }

  lemma ArrayText(items: seq<Json>)
    requires AllValid(items) && forall i | 0 <= i < |items| :: WritesWell(items[i])
    ensures Grammatical(Array("", WrittenItems(items))) && Spelled(Array("", WrittenItems(items))) == Write(Arr(items))
  {
    hide WrittenItems, ItemsText, ItemOk, WritesWell, Spelled, Grammatical, AllValid;
    ItemsWritten(items);
    TightArray(WrittenItems(items));
    if items != [] { ItemsSpell(items, 0); }
    ItemsOpen(items);
  }

  lemma ItemsOpen(items: seq<Json>)
    ensures Write(Arr(items)) == "[" + if items == [] then "]" else Write(items[0]) + WriteItems(items, 1) + "]"
  {
    if items != [] { assert WriteItems(items, 0) == "" + Write(items[0]) + WriteItems(items, 1); }
  }

  lemma ItemsWritten(items: seq<Json>)
    requires AllValid(items) && forall i | 0 <= i < |items| :: WritesWell(items[i])
    ensures ItemsOk(WrittenItems(items))
    ensures forall i | 0 <= i < |items| :: ItemText(WrittenItems(items)[i]) == Write(items[i])
  {
    hide Blank, FillersText, FillersOk, Spelled, Grammatical, Write, Written, Meaning, Retag, Valid;
    NothingBetween();
    forall i | 0 <= i < |items| ensures ItemOk(WrittenItems(items)[i]) && ItemText(WrittenItems(items)[i]) == Write(items[i]) {
      assert WritesWell(items[i]);
    }
  }

  lemma {:induction false} ItemsSpell(items: seq<Json>, i: nat)
    requires i < |items| && AllValid(items) && forall j | 0 <= j < |items| :: WritesWell(items[j])
    ensures ItemsOk(WrittenItems(items))
    ensures ItemsText(WrittenItems(items), i) == Write(items[i]) + WriteItems(items, i + 1) + "]"
    decreases |items| - i
  {
    hide ItemText, ItemOk, Write, WrittenItems, Valid, WritesWell;
    ItemsWritten(items);
    if i + 1 < |items| { ItemsSpell(items, i + 1); }
  }

  ghost function RetagItems(items: seq<Json>): (r: seq<Json>)
    requires AllValid(items)
    ensures |r| == |items|
  {
    seq(|items|, i requires 0 <= i < |items| => Retag(items[i]))
  }

  lemma {:induction false} ItemsMean(items: seq<Json>, i: nat)
    requires i <= |items| && AllValid(items) && forall j | 0 <= j < |items| :: WritesWell(items[j])
    ensures ItemsOk(WrittenItems(items)) && ItemsMeaning(WrittenItems(items), i) == RetagItems(items)[..i]
  {
    hide Written, Grammatical, Meaning, Retag, Valid, Spelled, Write;
    ItemsWritten(items);
    if i > 0 {
      ItemsMean(items, i - 1);
      assert WritesWell(items[i - 1]);
      assert RetagItems(items)[..i] == RetagItems(items)[..i - 1] + [Retag(items[i - 1])];
    }
  }

  // ----- objects -----

  lemma ObjectWritten(members: seq<Member>)
    requires Valid(Obj(members)) && MembersValid(members) && forall i | 0 <= i < |members| :: WritesWell(members[i].value)
    ensures WritesWell(Obj(members))
  {
    hide WrittenMembers, EntriesText, EntriesMeaning, EntryOk, WriteMembers, FillersText, FillersOk, WritesWell, RetagMembers, Retag;
    hide MembersValid;
    MembersWritten(members);
    MembersMean(members, |members|);
    RetagObject(members);
    NothingBetween();
    var t := Object([], WrittenMembers(members), None);
    assert Grammatical(t);
    assert Spelled(t) == Write(Obj(members)) by { ObjectText(members); }
    assert RetagMembers(members)[..|members|] == RetagMembers(members);
    assert Meaning(t) == Retag(Obj(members));
    WritesAs(Obj(members), t);
  }

  lemma RetagObject(members: seq<Member>)
    requires Valid(Obj(members)) && MembersValid(members)
    ensures Retag(Obj(members)) == Obj(RetagMembers(members)) && Written(Obj(members)) == Object([], WrittenMembers(members), None)
  {
    hide Valid, Ascending;
    assert Retag(Obj(members)).members == RetagMembers(members);
    assert Written(Obj(members)).members == WrittenMembers(members);
  }

  lemma TightObject(ts: seq<Entry>)
    requires EntriesOk(ts)
    ensures Grammatical(Object([], ts, None)) && Spelled(Object([], ts, None)) == "{" + if ts == [] then "}" else EntriesText(ts, 0, None)
  {
    hide EntriesText, EntryOk;
    assert FillersText([]) + "}" == "}";
  }

  lemma ObjectText(members: seq<Member>)
    requires MembersValid(members) && forall i | 0 <= i < |members| :: WritesWell(members[i].value)
    ensures Grammatical(Object([], WrittenMembers(members), None)) && Spelled(Object([], WrittenMembers(members), None)) == Write(Obj(members))
  {
    hide WrittenMembers, EntriesText, EntryOk, WritesWell, MembersValid, Spelled, Grammatical;
    MembersWritten(members);
    TightObject(WrittenMembers(members));
    if members != [] { MembersSpell(members, 0); }
    MembersOpen(members);
  }

  lemma MembersOpen(members: seq<Member>)
    ensures Write(Obj(members)) ==
            "{" + if members == [] then "}"
                  else Quoted(members[0].name) + ":" + Write(members[0].value) + WriteMembers(members, 1) + "}"
  {
    hide Quoted;
    if members != [] {
      assert WriteMembers(members, 0) == "" + Quoted(members[0].name) + ":" + Write(members[0].value) + WriteMembers(members, 1);
    }
  }

  lemma MembersWritten(members: seq<Member>)
    requires MembersValid(members) && forall i | 0 <= i < |members| :: WritesWell(members[i].value)
    ensures EntriesOk(WrittenMembers(members))
    ensures forall i | 0 <= i < |members| ::
              EntryText(WrittenMembers(members)[i]) == Quoted(members[i].name) + ":" + Write(members[i].value)
  {
    hide Blank, FillersText, FillersOk, Spelled, Grammatical, Write, Written, Meaning, Retag, Valid, PiecesFor, LiteralText, Quoted;
    hide PiecesMeaning, PiecesOk, Ascending;
    NothingBetween();
    forall i | 0 <= i < |members|
      ensures EntryOk(WrittenMembers(members)[i])
      ensures EntryText(WrittenMembers(members)[i]) == Quoted(members[i].name) + ":" + Write(members[i].value) {
      assert WritesWell(members[i].value);
      QuotedIs(members[i].name);
    }
  }

  lemma {:induction false} MembersSpell(members: seq<Member>, i: nat)
    requires i < |members| && MembersValid(members) && forall j | 0 <= j < |members| :: WritesWell(members[j].value)
    ensures EntriesOk(WrittenMembers(members))
    ensures EntriesText(WrittenMembers(members), i, None) ==
            Quoted(members[i].name) + ":" + Write(members[i].value) + WriteMembers(members, i + 1) + "}"
    decreases |members| - i
  {
    hide EntryText, EntryOk, Write, WrittenMembers, MembersValid, WritesWell, Quoted;
    MembersWritten(members);
    if i + 1 < |members| { MembersSpell(members, i + 1); }
  }

  ghost function RetagMembers(members: seq<Member>): (r: seq<Member>)
    requires MembersValid(members)
    ensures |r| == |members|
  {
    seq(|members|, i requires 0 <= i < |members| => Member(members[i].name, Retag(members[i].value)))
  }

  /** A name after all others is inserted at the end. */
  lemma {:induction false} InsertLast(members: seq<Member>, name: string, value: Json)
    requires forall j :: 0 <= j < |members| ==> NameLess(members[j].name, name)
    ensures Insert(members, name, value) == members + [Member(name, value)]
  {
    hide NameLess;
    if members != [] {
      NameLessIrreflexive(name);
      if NameLess(name, members[0].name) { NameLessTransitive(name, members[0].name, name); }
      InsertLast(members[1..], name, value);
    }
  }

  ghost predicate AllWriteWell(members: seq<Member>)
    requires MembersValid(members)
  {
    forall j | 0 <= j < |members| :: WritesWell(members[j].value)
  }

  lemma {:induction false} MembersMean(members: seq<Member>, i: nat)
    requires i <= |members| && MembersValid(members) && AllWriteWell(members) && EntriesOk(WrittenMembers(members))
    ensures EntriesMeaning(WrittenMembers(members), i) == RetagMembers(members)[..i]
  {
    hide WrittenMembers, Meaning, Insert, EntryOk, MembersValid, AllWriteWell, RetagMembers, PiecesMeaning, CString, EntriesMeaning, EntriesOk;
    if i == 0 {
      NoneAssigned(WrittenMembers(members));
    } else {
      MembersMean(members, i - 1);
      MemberMeans(members, i - 1);
      OneAssigned(WrittenMembers(members), i);
    }
  }

  lemma NoneAssigned(ts: seq<Entry>)
    requires EntriesOk(ts)
    ensures EntriesMeaning(ts, 0) == []
  {
  }

  lemma OneAssigned(ts: seq<Entry>, i: nat)
    requires 0 < i <= |ts| && EntriesOk(ts)
    ensures EntryOk(ts[i - 1]) && PiecesOk(ts[i - 1].name) && Grammatical(ts[i - 1].value)
    ensures EntriesMeaning(ts, i) ==
            Insert(EntriesMeaning(ts, i - 1), CString(PiecesMeaning(ts[i - 1].name)), Meaning(ts[i - 1].value))
  {
    hide Meaning, Insert, CString, PiecesMeaning;
  }

  lemma MemberMeans(members: seq<Member>, i: nat)
    requires i < |members| && MembersValid(members) && AllWriteWell(members) && EntriesOk(WrittenMembers(members))
    ensures EntryOk(WrittenMembers(members)[i])
    ensures var e, done := WrittenMembers(members)[i], RetagMembers(members)[..i];
            Insert(done, CString(PiecesMeaning(e.name)), Meaning(e.value)) == RetagMembers(members)[..i + 1]
  {
    hide Written, Grammatical, Meaning, Retag, Valid, Spelled, Write, PiecesFor, PiecesMeaning, CString, Insert, NameLess, EntryOk;
    var m, done := members[i], RetagMembers(members)[..i];
    assert EntryOk(WrittenMembers(members)[i]) && WritesWell(m.value);
    QuotedIs(m.name);
    CStringWhole(m.name);
    forall j | 0 <= j < |done| ensures NameLess(done[j].name, m.name) { assert done[j].name == members[j].name; }
    InsertLast(done, m.name, Retag(m.value));
    assert RetagMembers(members)[..i + 1] == done + [Member(m.name, Retag(m.value))];
  }

  // ----- the round trip -----

  /** Reading what was written at a position gives the value and ends where the text ends. */
  lemma ValueParses(v: Json, doc: string, cur: nat)
    requires Valid(v) && HasAt(doc, cur, Write(v)) && Delimited(doc, cur + |Write(v)|)
    ensures ParseValue(doc, cur) == Read(Retag(v), cur + |Write(v)|)
  {
    hide ParseValue, HasAt, Write, Written, Spelled, Grammatical, Meaning, Retag, Valid, Delimited;
    WrittenIs(v);
    TextParses(Written(v), doc, cur);
  }

  /** What the reader gets from the writer's line. */
  lemma RoundTrip(v: Json)
    requires Valid(v)
    ensures ParseValue(Write(v) + "\n", 0) == Read(Retag(v), |Write(v)|)
  {
    hide Write, ParseValue, Retag, Valid;
    var doc := Write(v) + "\n";
    assert doc[0..|Write(v)|] == Write(v);
    ValueParses(v, doc, 0);
  }
}
