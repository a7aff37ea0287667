/** Parsing what was printed gives the value back. */
module RoundTrip {
  import opened Bytes
  import opened Items
  import opened Quotes
  import opened Json
  import opened Numerals
  import opened PrintedText
  import opened Grammar
  import opened Spelling

  // --- What is printed, is a legal spelling ---

  lemma ZeroDigit(n: nat)
    ensures Decimal(n) == [0x30] <==> n == 0
  {
    assert DigitsValue([0x30]) == 0 by { DecimalDigits(0); }
    DecimalDigits(n);
  }

  lemma PrintedNumber(n: int) returns (t: Tree)
    requires -EXACT < n < EXACT
    ensures t.Numeral? && Legal(t) && Spell(t) == NumberText(n) && Meaning(t) == Number(n)
    ensures PlainNumeral(t) && (t.figures.whole == [ZERO] <==> n == 0)
  {
    hide DigitsValue, Decimal;
    var m := if n < 0 then -n else n;
    DecimalDigits(m);
    ZeroDigit(m);
    t := Numeral(Figures(n < 0, Decimal(m), None, None));
    PlainValue(t.figures);
    assert [MINUS] + Decimal(m) + [] + [] == [MINUS] + Decimal(m) && [] + Decimal(m) + [] + [] == Decimal(m);
  }

  predicate PlainNumeral(t: Tree) {
    t.Numeral? && t.figures.frac == None && t.figures.exp == None
  }

  lemma PlainValue(f: Figures)
    requires Shaped(f) && f.frac == None && f.exp == None
    ensures DoubleOf(f) == if DigitsValue(f.whole) < EXACT then Whole(Signed(f.neg, DigitsValue(f.whole))) else Other
  {
    hide DigitsValue;
    assert f.whole + [] == f.whole;
    assert PowerOfTen(0) == 1;
  }

  lemma {:induction false} IndentIsLayout(level: nat)
    ensures Layout(Indent(level))
  {
    if level > 0 {
      IndentIsLayout(level - 1);
    }
  }

  lemma BreakIsLayout(level: nat, style: Style)
    ensures Layout(Pretty(style, [NEWLINE]) + Pretty(style, Indent(level))) && Layout(Pretty(style, [SPACE])) && Layout([])
  {
    IndentIsLayout(level);
  }

  /** The tree whose text is printed for a value. */
  lemma {:induction false} PrintedTree(v: Json, level: nat, style: Style) returns (t: Tree)
    requires WellFormed(v)
    ensures Legal(t) && !t.Bare? && Spell(t) == Text(v, level, style) && Meaning(t) == v
    ensures v.Number? ==> PlainNumeral(t) && (t.figures.whole == [ZERO] <==> v.n == 0)
    ensures t.Numeral? ==> v.Number?
    decreases v, 3
  {
    match v
    case Number(n) => t := PrintedNumber(n);
    case String(text) => t := PrintedString(text, style);
    case Array(items) => t := PrintedArray(items, level, style);
    case Object(members) => t := PrintedObject(members, level, style);
    case _ => t := Word(v);
  }

  lemma PrintedString(text: seq<byte>, style: Style) returns (t: Tree)
    ensures t.Quotation? && Legal(t) && Spell(t) == Quoted(text, style.slashes) && Meaning(t) == String(text)
  {
    hide LegalChars, CharsBytes, SpellChars;
    var chars := EscapeAllIsChars(text, style.slashes);
    t := Quotation(chars);
  }

  lemma {:induction false} PrintedArray(items: seq<Json>, level: nat, style: Style) returns (t: Tree)
    requires forall k :: 0 <= k < |items| ==> WellFormed(items[k])
    ensures t.List? && Legal(t) && Spell(t) == Text(Array(items), level, style) && Meaning(t) == Array(items)
    decreases items, 2
  {
    hide Layout, Indent, LegalElements, WellFormed, ItemsText, Pretty;
    var open, close := Pretty(style, [NEWLINE]), Pretty(style, Indent(level));
    BreakIsLayout(level, style);
    if items == [] {
      EmptyIsLegal([RBRACKET]);
      return List(NoElements, false, []);
    }
    var e := PrintedElements(items, level + 1, style, close);
    t := List(e, false, open + close);
    hide SpellElements, Tail;
    BodyText([LBRACKET], open, ItemsText(items, level + 1, style), close, [RBRACKET]);
  }

  lemma ItemsTextIs(items: seq<Json>, level: nat, style: Style)
    requires items != []
    ensures ItemsText(items, level, style)
            == Pretty(style, Indent(level)) + Text(items[0], level, style) + Separator(|items| == 1, style)
               + ItemsText(items[1..], level, style)
    ensures ItemsText([], level, style) == [] && (|items| == 1 ==> items == [items[0]] && items[1..] == [])
  {
  }

  /** Printed elements are a spelling in which the line break behind each one belongs to what follows. */
  lemma {:induction false} PrintedElements(items: seq<Json>, level: nat, style: Style, close: seq<byte>) returns (e: Elements)
    requires items != [] && forall k :: 0 <= k < |items| ==> WellFormed(items[k])
    ensures e.Element? && LegalElements(e) && ElementValues(e) == items
    ensures var open := Pretty(style, [NEWLINE]);
            SpellElements(e, Tail(false, open + close, RBRACKET)) == open + ItemsText(items, level, style) + (close + [RBRACKET])
    decreases items, 1
  {
    hide Layout, Indent, WellFormed, Spell, Text, Pretty, Meaning, Legal, ItemsText, Separator, SpellElements, LegalElements, ElementValues;
    hide Onwards, Tail;
    var open, ind, tail := Pretty(style, [NEWLINE]), Pretty(style, Indent(level)), close + [RBRACKET];
    BreakIsLayout(level, style);
    ItemsTextIs(items, level, style);
    var t := PrintedTree(items[0], level, style);
    var rest := NoElements;
    TailText(open, close, RBRACKET);
    if |items| == 1 {
      EmptyIsLegal(open + tail);
    } else {
      rest := PrintedElements(items[1..], level, style, close);
    }
    e := Element(open + ind, t, [], rest);
    ElementParts(e);
    ElementText(open, ind, Spell(t), tail, ItemsText(items[1..], level, style), |items| == 1, style);
  }

  lemma TailText(open: seq<byte>, close: seq<byte>, bracket: byte)
    ensures Tail(false, open + close, bracket) == open + (close + [bracket])
  {
  }

  lemma {:induction false} PrintedObject(members: seq<Entry<Json>>, level: nat, style: Style) returns (t: Tree)
    requires Distinct(members) && forall k :: 0 <= k < |members| ==> WellFormed(members[k].value)
    ensures t.Record? && Legal(t) && Spell(t) == Text(Object(members), level, style) && Meaning(t) == Object(members)
    decreases members, 2
  {
    hide Layout, Indent, LegalPairs, WellFormed, MembersText, Pretty, Distinct;
    var open, close := Pretty(style, [NEWLINE]), Pretty(style, Indent(level));
    BreakIsLayout(level, style);
    if members == [] {
      EmptyIsLegal([RBRACE]);
      return Record(NoPairs, false, []);
    }
    var p := PrintedPairs(members, level + 1, style, close);
    t := Record(p, false, open + close);
    hide SpellPairs, Tail;
    BodyText([LBRACE], open, MembersText(members, level + 1, style), close, [RBRACE]);
  }

  lemma MembersTextIs(members: seq<Entry<Json>>, level: nat, style: Style)
    requires members != []
    ensures MembersText(members, level, style)
            == Pretty(style, Indent(level)) + MemberText(members[0], level, style) + Separator(|members| == 1, style)
               + MembersText(members[1..], level, style)
    ensures MembersText([], level, style) == [] && (|members| == 1 ==> members == [members[0]] && members[1..] == [])
  {
  }

  lemma {:induction false} PrintedPairs(members: seq<Entry<Json>>, level: nat, style: Style, close: seq<byte>) returns (p: Pairs)
    requires members != [] && forall k :: 0 <= k < |members| ==> WellFormed(members[k].value)
    ensures p.Pair? && LegalPairs(p) && PairValues(p) == members
    ensures var open := Pretty(style, [NEWLINE]);
            SpellPairs(p, Tail(false, open + close, RBRACE)) == open + MembersText(members, level, style) + (close + [RBRACE])
    decreases members, 1
  {
    hide Layout, Indent, WellFormed, Spell, Text, Pretty, Meaning, Legal, MemberText, MembersText, Separator, SpellPairs, LegalPairs, PairValues;
    hide LegalChars, CharsBytes, SpellChars, Literal, Colon, Onwards, Tail;
    var open, ind, tail := Pretty(style, [NEWLINE]), Pretty(style, Indent(level)), close + [RBRACE];
    BreakIsLayout(level, style);
    MembersTextIs(members, level, style);
    var name, t := PrintedMember(members[0], level, style);
    var rest := NoPairs;
    TailText(open, close, RBRACE);
    if |members| == 1 {
      EmptyIsLegal(open + tail);
    } else {
      rest := PrintedPairs(members[1..], level, style, close);
    }
    p := Pair(open + ind, name, [], Pretty(style, [SPACE]), t, [], rest);
    PairParts(p);
    ElementText(open, ind, MemberText(members[0], level, style), tail, MembersText(members[1..], level, style), |members| == 1, style);
  }

  lemma {:induction false} PrintedMember(m: Entry<Json>, level: nat, style: Style) returns (name: seq<Char>, t: Tree)
    requires WellFormed(m.value)
    ensures Legal(t) && !t.Bare? && LegalChars(name) && NUL !in CharsBytes(name)
    ensures MemberText(m, level, style) == Colon(Literal(name), [], Pretty(style, [SPACE]), Spell(t))
    ensures m == Entry(AsName(Denoted(name)), Meaning(t))
    decreases m, 0
  {
    hide SpellChars, EscapeAll, Text, Pretty, Spell, Meaning, Legal, WellFormed, LegalChars, CharsBytes;
    t := PrintedTree(m.value, level, style);
    name := EscapeAllIsChars(m.name, style.slashes);
    assert [] + [COLON] == [COLON];
  }

  lemma BodyText(left: seq<byte>, open: seq<byte>, body: seq<byte>, close: seq<byte>, right: seq<byte>)
    ensures left + (open + body + (close + right)) == left + open + body + close + right
  {
  }

  /** An element with its separator and what follows, grouped as it is printed and as it is spelled. */
  lemma ElementText(open: seq<byte>, ind: seq<byte>, t: seq<byte>, tail: seq<byte>, rest: seq<byte>, last: bool, style: Style)
    requires open == Pretty(style, [NEWLINE]) && (last ==> rest == [])
    ensures (open + ind) + t + [] + Onwards(!last, open + rest + tail) == open + (ind + t + Separator(last, style) + rest) + tail
    ensures last ==> open + tail == open + rest + tail
  {
    hide Pretty;
    if last {
      assert (open + ind) + t + [] + (open + tail) == open + (ind + t + ([] + open) + []) + tail;
    } else {
      assert (open + ind) + t + [] + ([COMMA] + (open + rest + tail)) == open + (ind + t + ([COMMA] + open) + rest) + tail;
    }
  }

  // --- Main results ---

  /** Nothing stands at `i` that would be read as more of a numeral; any other value ends where its text does. */
  predicate Terminated(s: CString, i: nat, v: Json) {
    i <= |s| && (v.Number? ==> !Continues(s, i, v.n == 0))
  }

  lemma TextParses(s: CString, i: nat, v: Json, level: nat, style: Style, nesting: nat)
    requires WellFormed(v) && Holds(s, i, Text(v, level, style))
    requires Terminated(s, i + |Text(v, level, style)|, v)
    ensures i <= |s| && ValueAt(s, i, nesting) == Expected(v, nesting, i + |Text(v, level, style)|)
  {
    hide ValueAt, Text, WellFormed, Legal, Meaning, Spell, Holds, Expected;
    var t := PrintedTree(v, level, style);
    TreeIsRead(s, i, t, nesting);
  }

  lemma NumberIsTried(s: CString, i: nat)
    requires i <= |s| && (At(s, i) == MINUS || IsDigit(At(s, i)))
    ensures ValueAt(s, i, 0) == NumberAt(s, i)
  {
    hide NumberAt, ObjectAt, ArrayAt, StringAt, BooleanAt, TokenAt;
    SkipsNothing(s, i);
    hide SkipSpaces;
  }

  /** A printed number that something continues is not read as it stands. */
  lemma NumeralGoesOn(s: CString, i: nat, v: Json, t: Tree)
    requires v.Number? && PlainNumeral(t) && Legal(t) && Meaning(t) == v && Holds(s, i, Spell(t))
    requires Continues(s, i + |Spell(t)|, t.figures.whole == [ZERO])
    ensures i <= |s| && ValueAt(s, i, 0) != Done(v, i + |Spell(t)|)
  {
    hide ValueAt, StrtodAt, DoubleOf, IsDecimal, Continues, Holds;
    var f := t.figures;
    assert Spell(t) == Sign(f.neg) + f.whole;
    PlainGoesOn(s, i, f.neg, f.whole);
    NumeralHead(t);
    HoldsElements(s, i, Spell(t));
    assert At(s, i) == Spell(t)[0];
    NumberIsTried(s, i);
  }

  /** No printed value starts with a byte order mark. */
  lemma PrintedStart(v: Json, style: Style, rest: CString)
    requires WellFormed(v)
    ensures var s := Text(v, 0, style) + rest; ParseString(s) == ValueAt(s, 0, 0) && Holds(s, 0, Text(v, 0, style))
  {
    hide ValueAt, Text, WellFormed, Legal;
    var t := Text(v, 0, style);
    var tree := PrintedTree(v, 0, style);
    SpellHead(tree);
    assert (t + rest)[0..|t|] == t;
    assert |t + rest| >= 3 ==> (t + rest)[0..3][0] == t[0] != BOM[0];
  }

  /**
   * A printed value is read back whatever stands behind it, unless it is a number that the text behind it continues:
   * exactly then something else is read.
   */
  lemma TextIsReadIff(s: CString, i: nat, v: Json, style: Style)
    requires WellFormed(v) && Holds(s, i, Text(v, 0, style))
    ensures i <= |s|
    ensures ValueAt(s, i, 0) == Expected(v, 0, i + |Text(v, 0, style)|) <==> Terminated(s, i + |Text(v, 0, style)|, v)
  {
    hide ValueAt, Text, WellFormed, Legal, Meaning, Spell;
    if Terminated(s, i + |Text(v, 0, style)|, v) {
      TextParses(s, i, v, 0, style, 0);
    } else {
      var t := PrintedTree(v, 0, style);
      NumeralGoesOn(s, i, v, t);
      assert Height(v) == 0;
    }
  }

  lemma RestIsIgnored(v: Json, style: Style, rest: CString)
    requires WellFormed(v)
    ensures var t := Text(v, 0, style);
            ParseString(t + rest) == Expected(v, 0, |t|) <==> Terminated(t + rest, |t|, v)
  {
    hide ValueAt, Text, WellFormed, Holds, ParseString, Expected, Terminated;
    PrintedStart(v, style, rest);
    TextIsReadIff(Text(v, 0, style) + rest, 0, v, style);
  }

  /** A byte order mark in front of it changes nothing. */
  lemma MarkIsIgnored(v: Json, style: Style, rest: CString)
    requires WellFormed(v)
    ensures var t := Text(v, 0, style);
            ParseString(BOM + t + rest) == Expected(v, 0, |BOM| + |t|) <==> Terminated(BOM + t + rest, |BOM| + |t|, v)
  {
    hide ValueAt, Text, WellFormed, Terminated, Expected;
    var t := Text(v, 0, style);
    var s: CString := BOM + t + rest;
    assert s[0..3] == BOM && s[3..3 + |t|] == t;
    TextIsReadIff(s, 3, v, style);
  }

  /**
   * Parsing the compact or the pretty text of any well-formed value, with either slash setting, gives the same value
   * with the same member order and consumes the whole text; a value nested too deeply is refused.
   */
  lemma PrintThenParse(v: Json, style: Style)
    requires WellFormed(v)
    ensures ParseString(Text(v, 0, style)) == if Height(v) <= 2048 then Done(v, |Text(v, 0, style)|) else Failed(Rejected)
  {
    hide ParseString, Text, WellFormed, Height;
    assert Text(v, 0, style) + [] == Text(v, 0, style);
    RestIsIgnored(v, style, []);
  }

  /** Printing what was parsed, in any style, and parsing it again gives the same value. */
  lemma ParsePrintParse(s: CString, style: Style)
    requires ParseString(s).Done?
    ensures var v := ParseString(s).value; ParseString(Text(v, 0, style)) == Done(v, |Text(v, 0, style)|)
  {
    hide ValueAt, Text, WellFormed;
    ParsedIsWellFormed(s, Start(s), 0);
    PrintThenParse(ParseString(s).value, style);
  }
}
