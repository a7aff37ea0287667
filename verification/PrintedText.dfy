/** What is printed, character for character: the compact text and the pretty text of every value. */
module PrintedText {
  import opened Bytes
  import opened Items
  import opened Quotes
  import opened Json
  import opened Numerals

  function Spaces(n: nat): (s: seq<byte>)
    ensures |s| == n
  {
    seq(n, _ => 0x20)
  }

  // --- Leaves ---

  lemma WordsArePrinted(level: nat, style: Style)
    ensures Text(Null, level, style) == Ascii("null")
    ensures Text(Boolean(true), level, style) == Ascii("true") && Text(Boolean(false), level, style) == Ascii("false")
  {
  }

  lemma {:induction false} DecimalDigits(n: nat)
    ensures AllDigits(Decimal(n))
    ensures DigitsValue(Decimal(n)) == n
    ensures Decimal(n)[0] == 0x30 ==> |Decimal(n)| == 1
  {
    var d := Decimal(n);
    if n < 10 {
      assert d[..0] == [];
    } else {
      DecimalDigits(n / 10);
      assert d[..|d| - 1] == Decimal(n / 10);
      assert d[0] == Decimal(n / 10)[0];
    }
  }

  /** Numbers are printed in decimal, without leading zeros, behind a minus sign if they are negative. */
  lemma NumbersArePrinted(n: int, level: nat, style: Style) returns (d: seq<byte>)
    ensures Text(Number(n), level, style) == (if n < 0 then Ascii("-") else []) + d
    ensures d != [] && AllDigits(d) && (d[0] == 0x30 ==> |d| == 1) && DigitsValue(d) == if n < 0 then -n else n
  {
    hide Decimal, DigitsValue, AllDigits;
    d := Decimal(if n < 0 then -n else n);
    DecimalDigits(if n < 0 then -n else n);
    assert Ascii("-") == [MINUS] && [] + d == d;
  }

  /** How each byte of a string is printed; `/` is escaped exactly when the setting says so. */
  lemma EscapesArePrinted(c: byte, slashes: bool)
    ensures Escape(c, slashes)
            == if c == 0x22 then Ascii("\\\"")
               else if c == 0x5C then Ascii("\\\\")
               else if c == 0x2F && slashes then Ascii("\\/")
               else if c == 0x08 then Ascii("\\b")
               else if c == 0x09 then Ascii("\\t")
               else if c == 0x0A then Ascii("\\n")
               else if c == 0x0C then Ascii("\\f")
               else if c == 0x0D then Ascii("\\r")
               else if c < 0x20 then Ascii("\\u00") + [Ascii("0123456789abcdef")[c / 16]] + [Ascii("0123456789abcdef")[c % 16]]
               else [c]
  {
    if c < 0x20 {
      HexDigitIs(c / 16);
      HexDigitIs(c % 16);
    }
  }

  lemma HexDigitIs(d: nat)
    requires d < 16
    ensures HexDigit(d) == Ascii("0123456789abcdef")[d]
  {
  }

  lemma {:induction false} EscapesJoined(x: seq<byte>, slashes: bool)
    ensures EscapeAll(x, slashes) == Joined(seq(|x|, i requires 0 <= i < |x| => Escape(x[i], slashes)), [])
    decreases |x|
  {
    hide Escape;
    var parts := seq(|x|, i requires 0 <= i < |x| => Escape(x[i], slashes));
    if x != [] {
      EscapesJoined(x[1..], slashes);
      assert parts[1..] == seq(|x| - 1, i requires 0 <= i < |x| - 1 => Escape(x[1..][i], slashes));
      if |x| == 1 {
        assert x[1..] == [];
      }
    }
  }

  lemma StringsArePrinted(x: seq<byte>, level: nat, style: Style)
    ensures Text(String(x), level, style)
            == Ascii("\"") + Joined(seq(|x|, i requires 0 <= i < |x| => Escape(x[i], style.slashes)), []) + Ascii("\"")
  {
    hide Escape, Joined;
    EscapesJoined(x, style.slashes);
    assert Ascii("\"") == [QUOTE];
  }

  // --- Containers ---

  lemma {:induction false} IndentIsSpaces(level: nat)
    ensures Indent(level) == Spaces(4 * level)
  {
    if level > 0 {
      IndentIsSpaces(level - 1);
      assert Spaces(4 * level) == Spaces(4 * level - 4) + [SPACE, SPACE, SPACE, SPACE];
    }
  }

  function ItemLines(items: seq<Json>, level: nat, style: Style): (lines: seq<seq<byte>>)
    ensures |lines| == |items|
  {
    seq(|items|, i requires 0 <= i < |items| => Pretty(style, Indent(level)) + Text(items[i], level, style))
  }

  function MemberLines(members: seq<Entry<Json>>, level: nat, style: Style): (lines: seq<seq<byte>>)
    ensures |lines| == |members|
  {
    seq(|members|, i requires 0 <= i < |members| => Pretty(style, Indent(level)) + MemberText(members[i], level, style))
  }

  lemma {:induction false} ItemsJoined(items: seq<Json>, level: nat, style: Style)
    requires items != []
    ensures ItemsText(items, level, style)
            == Joined(ItemLines(items, level, style), [COMMA] + Pretty(style, [NEWLINE])) + Pretty(style, [NEWLINE])
    decreases |items|
  {
    hide Text, Pretty, Indent;
    var lines, rest := ItemLines(items, level, style), items[1..];
    assert lines[1..] == ItemLines(rest, level, style);
    if |items| > 1 {
      ItemsJoined(rest, level, style);
      var newline := Pretty(style, [NEWLINE]);
      LineText(lines[0], [COMMA] + newline, Joined(lines[1..], [COMMA] + newline), newline);
    } else {
      assert rest == [] && [] + Pretty(style, [NEWLINE]) == Pretty(style, [NEWLINE]);
    }
  }

  lemma {:induction false} MembersJoined(members: seq<Entry<Json>>, level: nat, style: Style)
    requires members != []
    ensures MembersText(members, level, style)
            == Joined(MemberLines(members, level, style), [COMMA] + Pretty(style, [NEWLINE])) + Pretty(style, [NEWLINE])
    decreases |members|
  {
    hide MemberText, Pretty, Indent;
    var lines, rest := MemberLines(members, level, style), members[1..];
    assert lines[1..] == MemberLines(rest, level, style);
    if |members| > 1 {
      MembersJoined(rest, level, style);
      var newline := Pretty(style, [NEWLINE]);
      LineText(lines[0], [COMMA] + newline, Joined(lines[1..], [COMMA] + newline), newline);
    } else {
      assert rest == [] && [] + Pretty(style, [NEWLINE]) == Pretty(style, [NEWLINE]);
    }
  }

  lemma LineText(line: seq<byte>, separator: seq<byte>, rest: seq<byte>, newline: seq<byte>)
    ensures line + separator + (rest + newline) == line + separator + rest + newline
  {
  }

  /** Compact text does not depend on the level. */
  lemma {:induction false} CompactAtAnyLevel(v: Json, a: nat, b: nat, slashes: bool)
    ensures Text(v, a, Style(false, slashes)) == Text(v, b, Style(false, slashes))
    decreases v, 1
  {
    hide ItemsText, MembersText;
    match v
    case Array(items) => CompactItems(items, a + 1, b + 1, slashes);
    case Object(members) => CompactMembers(members, a + 1, b + 1, slashes);
    case _ =>
  }

  lemma {:induction false} CompactItems(items: seq<Json>, a: nat, b: nat, slashes: bool)
    ensures ItemsText(items, a, Style(false, slashes)) == ItemsText(items, b, Style(false, slashes))
    decreases items, 0
  {
    hide Text;
    if items != [] {
      CompactAtAnyLevel(items[0], a, b, slashes);
      CompactItems(items[1..], a, b, slashes);
    }
  }

  lemma {:induction false} CompactMembers(members: seq<Entry<Json>>, a: nat, b: nat, slashes: bool)
    ensures MembersText(members, a, Style(false, slashes)) == MembersText(members, b, Style(false, slashes))
    decreases members, 0
  {
    hide Text;
    if members != [] {
      CompactAtAnyLevel(members[0].value, a, b, slashes);
      CompactMembers(members[1..], a, b, slashes);
    }
  }

  lemma ContainerTexts(items: seq<Json>, members: seq<Entry<Json>>, level: nat, style: Style)
    ensures var newline, last := Pretty(style, [NEWLINE]), Pretty(style, Indent(level));
            && (items != [] ==>
                  Text(Array(items), level, style) == [LBRACKET] + newline + ItemsText(items, level + 1, style) + last + [RBRACKET])
            && (members != [] ==>
                  Text(Object(members), level, style) == [LBRACE] + newline + MembersText(members, level + 1, style) + last + [RBRACE])
    ensures Text(Array([]), level, style) == [LBRACKET, RBRACKET] && Text(Object([]), level, style) == [LBRACE, RBRACE]
  {
    hide ItemsText, MembersText, Pretty, Indent;
  }

  /** What pretty printing adds: nothing in one style, the layout in the other. */
  lemma LayoutIs(level: nat, slashes: bool)
    ensures Pretty(Style(true, slashes), [NEWLINE]) == Ascii("\n") && Pretty(Style(false, slashes), [NEWLINE]) == []
    ensures Pretty(Style(true, slashes), [SPACE]) == Ascii(" ") && Pretty(Style(false, slashes), [SPACE]) == []
    ensures Pretty(Style(true, slashes), Indent(level)) == Spaces(4 * level) && Pretty(Style(false, slashes), Indent(level)) == []
  {
    IndentIsSpaces(level);
  }

  lemma BracketsAre()
    ensures Ascii("[") == [LBRACKET] && Ascii("]") == [RBRACKET] && Ascii("[]") == [LBRACKET, RBRACKET]
    ensures Ascii("{") == [LBRACE] && Ascii("}") == [RBRACE] && Ascii("{}") == [LBRACE, RBRACE]
    ensures Ascii(",") == [COMMA] && Ascii(":") == [COLON]
    ensures Ascii("[\n") == [LBRACKET] + Ascii("\n") && Ascii("{\n") == [LBRACE] + Ascii("\n")
    ensures Ascii(",\n") == [COMMA] + Ascii("\n") && Ascii(": ") == [COLON] + Ascii(" ")
  {
  }

  /** A body between brackets, with and without layout. */
  lemma Regrouped(left: seq<byte>, newline: seq<byte>, body: seq<byte>, last: seq<byte>, right: seq<byte>)
    ensures left + newline + (body + newline) + last + right == (left + newline) + body + newline + last + right
    ensures left + [] + (body + []) + [] + right == left + body + right
  {
  }

  /** Compact arrays: the items with single commas between them, in brackets, and nothing else. */
  lemma CompactArray(items: seq<Json>, level: nat, slashes: bool, parts: seq<seq<byte>>)
    requires |parts| == |items| && forall i :: 0 <= i < |items| ==> parts[i] == Text(items[i], 0, Style(false, slashes))
    ensures Text(Array(items), level, Style(false, slashes)) == Ascii("[") + Joined(parts, Ascii(",")) + Ascii("]")
  {
    hide Text, ItemsText, Pretty, Indent, Joined, Ascii;
    var style := Style(false, slashes);
    BracketsAre();
    ContainerTexts(items, [], level, style);
    if items == [] {
      NothingJoined(parts, Ascii(","));
    } else {
      ItemsJoined(items, level + 1, style);
      LayoutIs(level, slashes);
      LayoutIs(level + 1, slashes);
      forall i | 0 <= i < |items|
        ensures ItemLines(items, level + 1, style)[i] == parts[i]
      {
        CompactAtAnyLevel(items[i], level + 1, 0, slashes);
      }
      assert ItemLines(items, level + 1, style) == parts;
      assert [COMMA] + [] == [COMMA];
      Regrouped([LBRACKET], [], Joined(parts, [COMMA]), [], [RBRACKET]);
    }
  }

  lemma NothingJoined(parts: seq<seq<byte>>, separator: seq<byte>)
    requires parts == []
    ensures Joined(parts, separator) == []
    ensures [LBRACKET] + [] + [RBRACKET] == [LBRACKET, RBRACKET] && [LBRACE] + [] + [RBRACE] == [LBRACE, RBRACE]
  {
  }

  /** Pretty arrays: every item on a line of its own, indented by four more spaces than the brackets. */
  lemma PrettyArray(items: seq<Json>, level: nat, slashes: bool, lines: seq<seq<byte>>)
    requires |lines| == |items|
    requires forall i :: 0 <= i < |items| ==>
               lines[i] == Spaces(4 * (level + 1)) + Text(items[i], level + 1, Style(true, slashes))
    ensures Text(Array(items), level, Style(true, slashes))
            == if items == [] then Ascii("[]")
               else Ascii("[\n") + Joined(lines, Ascii(",\n")) + Ascii("\n") + Spaces(4 * level) + Ascii("]")
  {
    hide Text, ItemsText, Pretty, Indent, Joined, Ascii;
    var style := Style(true, slashes);
    BracketsAre();
    ContainerTexts(items, [], level, style);
    if items != [] {
      ItemsJoined(items, level + 1, style);
      LayoutIs(level, slashes);
      LayoutIs(level + 1, slashes);
      assert ItemLines(items, level + 1, style) == lines;
      Regrouped([LBRACKET], Ascii("\n"), Joined(lines, Ascii(",\n")), Spaces(4 * level), [RBRACKET]);
    }
  }

  /** Compact objects: name, colon and value, with single commas between the members, in braces, and nothing else. */
  lemma CompactObject(members: seq<Entry<Json>>, level: nat, slashes: bool, parts: seq<seq<byte>>)
    requires |parts| == |members|
    requires forall i :: 0 <= i < |members| ==>
               parts[i] == Quoted(members[i].name, slashes) + Ascii(":") + Text(members[i].value, 0, Style(false, slashes))
    ensures Text(Object(members), level, Style(false, slashes)) == Ascii("{") + Joined(parts, Ascii(",")) + Ascii("}")
  {
    hide Text, MembersText, Pretty, Indent, Joined, Ascii, Quoted;
    var style := Style(false, slashes);
    BracketsAre();
    ContainerTexts([], members, level, style);
    if members == [] {
      NothingJoined(parts, Ascii(","));
    } else {
      MembersJoined(members, level + 1, style);
      LayoutIs(level, slashes);
      LayoutIs(level + 1, slashes);
      forall i | 0 <= i < |members|
        ensures MemberLines(members, level + 1, style)[i] == parts[i]
      {
        CompactAtAnyLevel(members[i].value, level + 1, 0, slashes);
        NothingBefore(parts[i], Quoted(members[i].name, slashes) + [COLON], Text(members[i].value, 0, style));
      }
      assert MemberLines(members, level + 1, style) == parts;
      assert [COMMA] + [] == [COMMA];
      Regrouped([LBRACE], [], Joined(parts, [COMMA]), [], [RBRACE]);
    }
  }

  lemma NothingBefore(part: seq<byte>, left: seq<byte>, right: seq<byte>)
    ensures [] + part == part && left + [] + right == left + right
  {
  }

  /** Pretty objects: every member on a line of its own, with a space behind the colon. */
  lemma PrettyObject(members: seq<Entry<Json>>, level: nat, slashes: bool, lines: seq<seq<byte>>)
    requires |lines| == |members|
    requires forall i :: 0 <= i < |members| ==>
               lines[i] == Spaces(4 * (level + 1)) + Quoted(members[i].name, slashes) + Ascii(": ")
                           + Text(members[i].value, level + 1, Style(true, slashes))
    ensures Text(Object(members), level, Style(true, slashes))
            == if members == [] then Ascii("{}")
               else Ascii("{\n") + Joined(lines, Ascii(",\n")) + Ascii("\n") + Spaces(4 * level) + Ascii("}")
  {
    hide Text, MembersText, Pretty, Indent, Joined, Ascii, Quoted;
    var style := Style(true, slashes);
    BracketsAre();
    ContainerTexts([], members, level, style);
    if members != [] {
      MembersJoined(members, level + 1, style);
      LayoutIs(level, slashes);
      LayoutIs(level + 1, slashes);
      forall i | 0 <= i < |members|
        ensures MemberLines(members, level + 1, style)[i] == lines[i]
      {
        MemberLine(Spaces(4 * (level + 1)), Quoted(members[i].name, slashes), Text(members[i].value, level + 1, style));
      }
      assert MemberLines(members, level + 1, style) == lines;
      Regrouped([LBRACE], Ascii("\n"), Joined(lines, Ascii(",\n")), Spaces(4 * level), [RBRACE]);
    }
  }

  lemma MemberLine(indent: seq<byte>, name: seq<byte>, value: seq<byte>)
    ensures indent + (name + [COLON] + Ascii(" ") + value) == indent + name + ([COLON] + Ascii(" ")) + value
  {
  }
}
