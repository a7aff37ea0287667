/** The serializer: the same walk measures when there is no buffer and writes when there is one. */
module Printer {
  import opened Bytes
  import opened Items
  import opened Quotes
  import opened Json

  /** What has been written so far: everything before the cursor. */
  ghost function Front(buf: array?<byte>, at: nat): seq<byte>
    reads buf
  {
    if buf != null && at <= buf.Length then buf[..at] else []
  }

  /** The buffer, if there is one, has room for `length` more bytes and a terminating NUL. */
  predicate Fits(buf: array?<byte>, at: nat, length: nat) {
    buf != null ==> at + length < buf.Length
  }

  /** Two appends make one. */
  lemma Appended(front: seq<byte>, t: seq<byte>, u: seq<byte>)
    ensures front + t + u == front + (t + u)
  {
  }

  /** `append_string`: measures, or writes the text with its NUL. */
  method AppendString(buf: array?<byte>, at: nat, text: CString) returns (written: nat)
    requires Fits(buf, at, |text|)
    modifies buf
    ensures written == |text|
    ensures buf != null ==> Front(buf, at + written) == old(Front(buf, at)) + text && buf[at + written] == NUL
  {
    if buf == null {
      return |text|;
    }
    for i := 0 to |text|
      invariant buf[..at + i] == old(buf[..at]) + text[..i]
    {
      buf[at + i] := text[i];
    }
    buf[at + |text|] := NUL;
    return |text|;
  }

  method AppendIndent(buf: array?<byte>, at: nat, level: nat) returns (written: nat)
    requires Fits(buf, at, |Indent(level)|)
    modifies buf
    ensures written == |Indent(level)|
    ensures buf != null ==> Front(buf, at + written) == old(Front(buf, at)) + Indent(level)
  {
    hide Front;
    written := 0;
    ghost var front := Front(buf, at);
    for i := 0 to level
      invariant written == |Indent(i)|
      invariant buf != null ==> Front(buf, at + written) == front + Indent(i)
    {
      IndentGrows(i + 1, level);
      Appended(front, Indent(i), [SPACE, SPACE, SPACE, SPACE]);
      var w := AppendString(buf, at + written, [SPACE, SPACE, SPACE, SPACE]);
      written := written + w;
    }
  }

  lemma {:induction false} IndentGrows(i: nat, level: nat)
    requires i <= level
    ensures |Indent(i)| <= |Indent(level)|
  {
    if i < level {
      IndentGrows(i, level - 1);
    }
  }

  /** Layout that only pretty printing has. */
  method AppendPretty(buf: array?<byte>, at: nat, layout: CString, style: Style) returns (written: nat)
    requires Fits(buf, at, |Pretty(style, layout)|)
    modifies buf
    ensures written == |Pretty(style, layout)|
    ensures buf != null ==> Front(buf, at + written) == old(Front(buf, at)) + Pretty(style, layout)
  {
    written := 0;
    if style.pretty {
      written := AppendString(buf, at, layout);
    }
  }

  method AppendPrettyIndent(buf: array?<byte>, at: nat, level: nat, style: Style) returns (written: nat)
    requires Fits(buf, at, |Pretty(style, Indent(level))|)
    modifies buf
    ensures written == |Pretty(style, Indent(level))|
    ensures buf != null ==> Front(buf, at + written) == old(Front(buf, at)) + Pretty(style, Indent(level))
  {
    hide Indent;
    written := 0;
    if style.pretty {
      written := AppendIndent(buf, at, level);
    }
  }

  /** The comma, if another element follows, and the line break of pretty printing. */
  method AppendSeparator(buf: array?<byte>, at: nat, last: bool, style: Style) returns (written: nat)
    requires Fits(buf, at, |Separator(last, style)|)
    modifies buf
    ensures written == |Separator(last, style)|
    ensures buf != null ==> Front(buf, at + written) == old(Front(buf, at)) + Separator(last, style)
  {
    hide Front;
    written := 0;
    if !last {
      written := AppendString(buf, at, [COMMA]);
      Appended(old(Front(buf, at)), [COMMA], Pretty(style, [NEWLINE]));
    }
    var w := AppendPretty(buf, at + written, [NEWLINE], style);
    written := written + w;
  }

  lemma {:induction false} EscapeAllSplits(x: seq<byte>, i: nat, slashes: bool)
    requires i < |x|
    ensures EscapeAll(x[i..], slashes) == Escape(x[i], slashes) + EscapeAll(x[i + 1..], slashes)
  {
  }

  /** `json_serialize_string`: a byte that stands for itself is stored without a NUL behind it. */
  method SerializeString(x: seq<byte>, buf: array?<byte>, at: nat, slashes: bool) returns (written: nat)
    requires Fits(buf, at, |Quoted(x, slashes)|)
    modifies buf
    ensures written == |Quoted(x, slashes)|
    ensures buf != null ==> Front(buf, at + written) == old(Front(buf, at)) + Quoted(x, slashes) && buf[at + written] == NUL
  {
    hide Front, Escape;
    ghost var front, done := Front(buf, at), [QUOTE];
    written := AppendString(buf, at, [QUOTE]);
    assert x[0..] == x;
    for i := 0 to |x|
      invariant done + EscapeAll(x[i..], slashes) + [QUOTE] == Quoted(x, slashes) && written == |done|
      invariant buf != null ==> Front(buf, at + written) == front + done
    {
      EscapeAllSplits(x, i, slashes);
      Appended(done, Escape(x[i], slashes), EscapeAll(x[i + 1..], slashes));
      Appended(front, done, Escape(x[i], slashes));
      var w := SerializeByte(x[i], buf, at + written, slashes);
      done, written := done + Escape(x[i], slashes), written + w;
    }
    Appended(front, done, [QUOTE]);
    assert done + EscapeAll(x[|x|..], slashes) == done;
    var w := AppendString(buf, at + written, [QUOTE]);
    written := written + w;
  }

  method SerializeByte(c: byte, buf: array?<byte>, at: nat, slashes: bool) returns (written: nat)
    requires Fits(buf, at, |Escape(c, slashes)|)
    modifies buf
    ensures written == |Escape(c, slashes)|
    ensures buf != null ==> Front(buf, at + written) == old(Front(buf, at)) + Escape(c, slashes)
  {
    var e := Escape(c, slashes);
    if e != [c] || c == 0x2F {
      written := AppendString(buf, at, e);
    } else {
      if buf != null {
        buf[at] := c;
      }
      written := 1;
    }
  }

  /** `json_serialize_to_buffer_r`: with no buffer it only counts; with one it writes exactly what it counts, then a NUL. */
  method Serialize(v: Json, buf: array?<byte>, at: nat, level: nat, style: Style) returns (written: nat)
    requires Fits(buf, at, |Text(v, level, style)|)
    modifies buf
    ensures written == |Text(v, level, style)|
    ensures buf != null ==> Front(buf, at + written) == old(Front(buf, at)) + Text(v, level, style) && buf[at + written] == NUL
    decreases v, 3
  {
    hide Front, Quoted, NumberText, ItemsText, MembersText, Indent;
    match v
    case Null => written := AppendString(buf, at, NULL);
    case Boolean(b) => written := AppendString(buf, at, if b then TRUE else FALSE);
    case Number(n) => written := AppendString(buf, at, NumberText(n));
    case String(text) => written := SerializeString(text, buf, at, style.slashes);
    case Array(items) =>
      assert v == Array(items);
      written := SerializeArray(items, buf, at, level, style);
    case Object(members) =>
      assert v == Object(members);
      written := SerializeObject(members, buf, at, level, style);
  }

  method SerializeArray(items: seq<Json>, buf: array?<byte>, at: nat, level: nat, style: Style) returns (written: nat)
    requires Fits(buf, at, |Text(Array(items), level, style)|)
    modifies buf
    ensures written == |Text(Array(items), level, style)|
    ensures buf != null ==> Front(buf, at + written) == old(Front(buf, at)) + Text(Array(items), level, style) && buf[at + written] == NUL
    decreases items, 2
  {
    hide Front, ItemsText, Indent, Pretty;
    ghost var front := Front(buf, at);
    ghost var nl, body, indent := Pretty(style, [NEWLINE]), ItemsText(items, level + 1, style), Pretty(style, Indent(level));
    written := AppendString(buf, at, [LBRACKET]);
    ghost var done := [LBRACKET];
    if |items| > 0 {
      assert Text(Array(items), level, style) == done + nl + body + indent + [RBRACKET];
      var w := AppendPretty(buf, at + written, [NEWLINE], style);
      Appended(front, done, nl);
      done, written := done + nl, written + w;
      w := SerializeItems(items, buf, at + written, level + 1, style);
      Appended(front, done, body);
      done, written := done + body, written + w;
      w := AppendPrettyIndent(buf, at + written, level, style);
      Appended(front, done, indent);
      done, written := done + indent, written + w;
    }
    assert Text(Array(items), level, style) == done + [RBRACKET];
    Appended(front, done, [RBRACKET]);
    hide Text;
    var w := AppendString(buf, at + written, [RBRACKET]);
    written := written + w;
  }

  method SerializeItems(items: seq<Json>, buf: array?<byte>, at: nat, level: nat, style: Style) returns (written: nat)
    requires Fits(buf, at, |ItemsText(items, level, style)|)
    modifies buf
    ensures written == |ItemsText(items, level, style)|
    ensures buf != null ==> Front(buf, at + written) == old(Front(buf, at)) + ItemsText(items, level, style)
    decreases items, 1
  {
    hide Front, Text, Indent, Pretty, Separator;
    ghost var front, done := Front(buf, at), [];
    written := 0;
    assert items[0..] == items && front + [] == front && [] + ItemsText(items, level, style) == ItemsText(items, level, style);
    for i := 0 to |items|
      invariant written == |done| && done + ItemsText(items[i..], level, style) == ItemsText(items, level, style)
      invariant buf != null ==> Front(buf, at + written) == front + done
    {
      ghost var piece := ElementText(items, i, level, style);
      ItemsTextSplits(items, i, level, style);
      Appended(done, piece, ItemsText(items[i + 1..], level, style));
      Appended(front, done, piece);
      var w := SerializeElement(items, i, buf, at + written, level, style);
      done, written := done + piece, written + w;
    }
    assert done + ItemsText(items[|items|..], level, style) == done;
  }

  /** One element with its indentation and separator. */
  function ElementText(items: seq<Json>, i: nat, level: nat, style: Style): CString
    requires i < |items|
  {
    Pretty(style, Indent(level)) + Text(items[i], level, style) + Separator(i == |items| - 1, style)
  }

  lemma ItemsTextSplits(items: seq<Json>, i: nat, level: nat, style: Style)
    requires i < |items|
    ensures ItemsText(items[i..], level, style) == ElementText(items, i, level, style) + ItemsText(items[i + 1..], level, style)
  {
  }

  method SerializeElement(items: seq<Json>, i: nat, buf: array?<byte>, at: nat, level: nat, style: Style) returns (written: nat)
    requires i < |items| && Fits(buf, at, |ElementText(items, i, level, style)|)
    modifies buf
    ensures written == |ElementText(items, i, level, style)|
    ensures buf != null ==> Front(buf, at + written) == old(Front(buf, at)) + ElementText(items, i, level, style)
    decreases items, 0
  {
    hide Front, Text, Indent, Pretty, Separator;
    ghost var front, pad, t := Front(buf, at), Pretty(style, Indent(level)), Text(items[i], level, style);
    ghost var sep := Separator(i == |items| - 1, style);
    written := AppendPrettyIndent(buf, at, level, style);
    var w := Serialize(items[i], buf, at + written, level, style);
    Appended(front, pad, t);
    written := written + w;
    w := AppendSeparator(buf, at + written, i == |items| - 1, style);
    Appended(front, pad + t, sep);
    written := written + w;
  }

  method SerializeObject(members: seq<Entry<Json>>, buf: array?<byte>, at: nat, level: nat, style: Style) returns (written: nat)
    requires Fits(buf, at, |Text(Object(members), level, style)|)
    modifies buf
    ensures written == |Text(Object(members), level, style)|
    ensures buf != null ==> Front(buf, at + written) == old(Front(buf, at)) + Text(Object(members), level, style) && buf[at + written] == NUL
    decreases members, 2
  {
    hide Front, MembersText, Indent, Pretty;
    ghost var front := Front(buf, at);
    ghost var nl, body, indent := Pretty(style, [NEWLINE]), MembersText(members, level + 1, style), Pretty(style, Indent(level));
    written := AppendString(buf, at, [LBRACE]);
    ghost var done := [LBRACE];
    if |members| > 0 {
      assert Text(Object(members), level, style) == done + nl + body + indent + [RBRACE];
      var w := AppendPretty(buf, at + written, [NEWLINE], style);
      Appended(front, done, nl);
      done, written := done + nl, written + w;
      w := SerializeMembers(members, buf, at + written, level + 1, style);
      Appended(front, done, body);
      done, written := done + body, written + w;
      w := AppendPrettyIndent(buf, at + written, level, style);
      Appended(front, done, indent);
      done, written := done + indent, written + w;
    }
    assert Text(Object(members), level, style) == done + [RBRACE];
    Appended(front, done, [RBRACE]);
    hide Text;
    var w := AppendString(buf, at + written, [RBRACE]);
    written := written + w;
  }

  method SerializeMembers(members: seq<Entry<Json>>, buf: array?<byte>, at: nat, level: nat, style: Style) returns (written: nat)
    requires Fits(buf, at, |MembersText(members, level, style)|)
    modifies buf
    ensures written == |MembersText(members, level, style)|
    ensures buf != null ==> Front(buf, at + written) == old(Front(buf, at)) + MembersText(members, level, style)
    decreases members, 1
  {
    hide Front, MemberText, Indent, Pretty, Separator;
    ghost var front, done := Front(buf, at), [];
    written := 0;
    assert members[0..] == members && front + [] == front && [] + MembersText(members, level, style) == MembersText(members, level, style);
    for i := 0 to |members|
      invariant written == |done| && done + MembersText(members[i..], level, style) == MembersText(members, level, style)
      invariant buf != null ==> Front(buf, at + written) == front + done
    {
      ghost var piece := PairText(members, i, level, style);
      MembersTextSplits(members, i, level, style);
      Appended(done, piece, MembersText(members[i + 1..], level, style));
      Appended(front, done, piece);
      var w := SerializePair(members, i, buf, at + written, level, style);
      done, written := done + piece, written + w;
    }
    assert done + MembersText(members[|members|..], level, style) == done;
  }

  /** One `name: value` pair with its indentation and separator. */
  function PairText(members: seq<Entry<Json>>, i: nat, level: nat, style: Style): CString
    requires i < |members|
  {
    Pretty(style, Indent(level)) + MemberText(members[i], level, style) + Separator(i == |members| - 1, style)
  }

  lemma MembersTextSplits(members: seq<Entry<Json>>, i: nat, level: nat, style: Style)
    requires i < |members|
    ensures MembersText(members[i..], level, style) == PairText(members, i, level, style) + MembersText(members[i + 1..], level, style)
  {
  }

  method SerializePair(members: seq<Entry<Json>>, i: nat, buf: array?<byte>, at: nat, level: nat, style: Style) returns (written: nat)
    requires i < |members| && Fits(buf, at, |PairText(members, i, level, style)|)
    modifies buf
    ensures written == |PairText(members, i, level, style)|
    ensures buf != null ==> Front(buf, at + written) == old(Front(buf, at)) + PairText(members, i, level, style)
    decreases members, 0
  {
    hide Front, MemberText, Indent, Pretty, Separator;
    ghost var front, pad, t := Front(buf, at), Pretty(style, Indent(level)), MemberText(members[i], level, style);
    ghost var sep := Separator(i == |members| - 1, style);
    written := AppendPrettyIndent(buf, at, level, style);
    var w := SerializeMember(members[i], buf, at + written, level, style);
    Appended(front, pad, t);
    written := written + w;
    w := AppendSeparator(buf, at + written, i == |members| - 1, style);
    Appended(front, pad + t, sep);
    written := written + w;
  }

  method SerializeMember(m: Entry<Json>, buf: array?<byte>, at: nat, level: nat, style: Style) returns (written: nat)
    requires Fits(buf, at, |MemberText(m, level, style)|)
    modifies buf
    ensures written == |MemberText(m, level, style)|
    ensures buf != null ==> Front(buf, at + written) == old(Front(buf, at)) + MemberText(m, level, style)
    decreases m, 0
  {
    hide Front, Text, Pretty, Quoted;
    ghost var front, q, space, t := Front(buf, at), Quoted(m.name, style.slashes), Pretty(style, [SPACE]), Text(m.value, level, style);
    assert MemberText(m, level, style) == q + [COLON] + space + t;
    hide MemberText;
    written := SerializeString(m.name, buf, at, style.slashes);
    var w := AppendString(buf, at + written, [COLON]);
    Appended(front, q, [COLON]);
    written := written + w;
    w := AppendPretty(buf, at + written, [SPACE], style);
    Appended(front, q + [COLON], space);
    written := written + w;
    w := Serialize(m.value, buf, at + written, level, style);
    Appended(front, q + [COLON] + space, t);
    written := written + w;
  }

  /** The measuring pass. */
  method SerializationSize(v: Json, style: Style) returns (size: nat)
    ensures size == |Text(v, 0, style)| + 1
  {
    var res := Serialize(v, null, 0, 0, style);
    size := res + 1;
  }

  /** Refuses a buffer that is too small and leaves it alone; otherwise writes the text and its NUL at the front. */
  method SerializeToBuffer(v: Json, buf: array<byte>, bufSize: nat, style: Style) returns (ok: bool)
    requires bufSize <= buf.Length
    modifies buf
    ensures ok == (|Text(v, 0, style)| < bufSize)
    ensures ok ==> var n := |Text(v, 0, style)|; buf[..n] == Text(v, 0, style) && buf[n] == NUL
    ensures !ok ==> buf[..] == old(buf[..])
  {
    var needed := SerializationSize(v, style);
    if bufSize < needed {
      return false;
    }
    var written := Serialize(v, buf, 0, 0, style);
    return true;
  }

  /** The buffer sized by the measuring pass is filled exactly by the writing pass, and ends in its only NUL. */
  method SerializeToString(v: Json, style: Style) returns (buf: array<byte>)
    ensures fresh(buf) && buf[..] == Text(v, 0, style) + [NUL]
  {
    var size := SerializationSize(v, style);
    buf := new byte[size];
    var ok := SerializeToBuffer(v, buf, size, style);
    assert buf[..] == buf[..size - 1] + [buf[size - 1]];
  }
}
