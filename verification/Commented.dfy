/** Parsing texts with comments: both comment passes over a copy of the text, then the parser. */
module Commented {
  import opened Bytes
  import opened Items
  import opened StringCodec
  import opened Quotes
  import opened Json
  import opened Numerals
  import opened Grammar
  import opened Spelling
  import opened RoundTrip
  import opened Comments
  import opened Parser

  /** What the two passes leave of a text. */
  function WithoutComments(s: CString): (r: CString)
    ensures |r| == |s|
  {
    Blanked(Blanked(s, PLAIN, BLOCK), PLAIN, LINE)
  }

  /** `json_parse_string_with_comments`: unlike `json_parse_string` it does not skip a byte order mark. */
  function ParseWithComments(s: CString): Parse<Json> {
    ValueAt(WithoutComments(s), 0, 0)
  }

  const PLAIN := Mode(false, false)
  const IN_STRING := Mode(true, false)

  method JsonParseStringWithComments(s: CString) returns (r: Parse<Json>)
    requires |s| < MAX_TEXT
    ensures r == ParseWithComments(s)
  {
    var copy := new byte[|s| + 1](i => if 0 <= i < |s| then s[i] else NUL);
    assert copy[..|s|] == s && copy[..] == s + [NUL];
    RemoveComments(copy, |s|, BLOCK);
    ghost var once := Blanked(s, PLAIN, BLOCK);
    assert copy[..] == once + [NUL];
    assert copy[..|s|] == once;
    RemoveComments(copy, |s|, LINE);
    assert copy[..] == WithoutComments(s) + [NUL];
    assert copy[..|s|] == WithoutComments(s);
    r := ParseValue(copy[..|s|], 0, 0);
  }

  // --- A legal spelling holds no comment ---

  predicate IsTokens(t: Tokens) {
    t == BLOCK || t == LINE
  }

  /** Outside strings no byte of a spelling is a slash, a quote or a backslash. */
  predicate Harmless(a: seq<byte>) {
    forall k :: 0 <= k < |a| ==> a[k] != BLOCK.start[0] && a[k] != QUOTE && a[k] != BACKSLASH && a[k] != NUL
  }

  lemma {:induction false} HarmlessPasses(a: seq<byte>, b: CString, t: Tokens)
    requires IsTokens(t) && Harmless(a)
    ensures NUL !in a && Blanked(a + b, PLAIN, t) == a + Blanked(b, PLAIN, t)
    decreases |a|
  {
    hide Blanked;
    if a == [] {
      assert a + b == b && a + Blanked(b, PLAIN, t) == Blanked(b, PLAIN, t);
    } else {
      var rest: CString := a[1..] + b;
      assert a + b == [a[0]] + rest;
      HarmlessPasses(a[1..], b, t);
      ByteStays(a[0], rest, PLAIN, t);
      assert [a[0]] + (a[1..] + Blanked(b, PLAIN, t)) == a + Blanked(b, PLAIN, t);
    }
  }

  /** A byte that opens no comment stays. */
  lemma ByteStays(c: byte, rest: CString, m: Mode, t: Tokens)
    requires IsTokens(t) && c != NUL && (m.inString || c != BLOCK.start[0])
    ensures Blanked([c] + rest, m, t) == [c] + Blanked(rest, Next(c, m), t)
  {
    var s: CString := [c] + rest;
    assert s[1..] == rest;
    assert Starts(s, t.start) ==> s[0] == s[..2][0] == t.start[0];
  }

  /** `a` stands in front of `b` and is passed over in mode `m`, as it is. */
  predicate Passes(a: seq<byte>, b: CString, m: Mode, t: Tokens)
    requires IsTokens(t)
  {
    NUL !in a && Blanked(a + b, m, t) == a + Blanked(b, m, t)
  }

  lemma PassesJoin(a: seq<byte>, b: seq<byte>, c: CString, m: Mode, t: Tokens)
    requires IsTokens(t) && NUL !in b && Passes(a, b + c, m, t) && Passes(b, c, m, t)
    ensures Passes(a + b, c, m, t)
  {
    hide Blanked;
    assert a + b + c == a + (b + c);
    assert a + (b + Blanked(c, m, t)) == a + b + Blanked(c, m, t);
  }

  lemma {:induction false} StringBytesPass(a: seq<byte>, b: CString, t: Tokens)
    requires IsTokens(t) && forall k :: 0 <= k < |a| ==> a[k] != QUOTE && a[k] != BACKSLASH && a[k] != NUL
    ensures Passes(a, b, IN_STRING, t)
    decreases |a|
  {
    hide Blanked;
    if a == [] {
      assert a + b == b && a + Blanked(b, IN_STRING, t) == Blanked(b, IN_STRING, t);
    } else {
      var rest: CString := a[1..] + b;
      StringBytesPass(a[1..], b, t);
      ByteStays(a[0], rest, IN_STRING, t);
      assert a == [a[0]] + a[1..];
      PassesJoin([a[0]], a[1..], b, IN_STRING, t);
    }
  }

  /** A backslash and the byte behind it. */
  lemma EscapePasses(c: byte, b: CString, t: Tokens)
    requires IsTokens(t) && c != NUL
    ensures Passes([BACKSLASH, c], b, IN_STRING, t)
  {
    hide Blanked;
    var rest: CString := [c] + b;
    assert [BACKSLASH, c] + b == [BACKSLASH] + rest;
    ByteStays(BACKSLASH, rest, IN_STRING, t);
    ByteStays(c, b, Mode(true, true), t);
    assert [BACKSLASH] + ([c] + Blanked(b, IN_STRING, t)) == [BACKSLASH, c] + Blanked(b, IN_STRING, t);
  }

  lemma CharPasses(c: Char, b: CString, t: Tokens)
    requires IsTokens(t) && LegalChar(c)
    ensures Passes(SpellChar(c), b, IN_STRING, t)
  {
    hide Blanked, Passes, SpelledAt, SpelledLength;
    match c
    case Plain(x) => StringBytesPass([x], b, t);
    case Short(letter) => EscapePasses(letter, b, t);
    case Unicode(cp, digits) =>
      DigitsArePlain(digits, cp);
      SpellingFits(digits, 0, cp);
      DigitsPass(digits, b, t);
      EscapePasses(0x75, digits + b, t);
      PassesJoin([BACKSLASH, 0x75], digits, b, IN_STRING, t);
  }

  lemma DigitsPass(digits: seq<byte>, b: CString, t: Tokens)
    requires IsTokens(t) && (|digits| == 4 || |digits| == 10)
    requires forall k :: 0 <= k < |digits| && k != 4 ==> digits[k] != QUOTE && digits[k] != BACKSLASH && digits[k] != NUL
    requires |digits| == 10 ==> digits[4] == BACKSLASH && digits[5] == 0x75
    ensures NUL !in digits && Passes(digits, b, IN_STRING, t)
  {
    hide Blanked, Passes;
    if |digits| == 4 {
      StringBytesPass(digits, b, t);
    } else {
      var x, y, z := digits[..4], [BACKSLASH, 0x75], digits[6..];
      assert digits == x + (y + z);
      StringBytesPass(z, b, t);
      EscapePasses(0x75, z + b, t);
      PassesJoin(y, z, b, IN_STRING, t);
      StringBytesPass(x, y + z + b, t);
      PassesJoin(x, y + z, b, IN_STRING, t);
    }
  }

  lemma {:induction false} CharsPass(cs: seq<Char>, b: CString, t: Tokens)
    requires IsTokens(t) && LegalChars(cs)
    ensures NUL !in SpellChars(cs) && Passes(SpellChars(cs), b, IN_STRING, t)
    decreases |cs|
  {
    hide Blanked, SpellChar, LegalChar;
    if cs == [] {
      StringBytesPass([], b, t);
    } else {
      CharsPass(cs[1..], b, t);
      CharPasses(cs[0], SpellChars(cs[1..]) + b, t);
      PassesJoin(SpellChar(cs[0]), SpellChars(cs[1..]), b, IN_STRING, t);
    }
  }

  /** Inside a string literal nothing opens a comment, and behind it the scan is outside strings again. */
  lemma LiteralPasses(cs: seq<Char>, b: CString, t: Tokens)
    requires IsTokens(t) && LegalChars(cs)
    ensures NUL !in Literal(cs) && Passes(Literal(cs), b, PLAIN, t)
  {
    hide Blanked, SpellChars, LegalChars;
    var x := SpellChars(cs);
    var closing: CString := [QUOTE] + b;
    CharsPass(cs, closing, t);
    ByteStays(QUOTE, b, IN_STRING, t);
    ByteStays(QUOTE, x + closing, PLAIN, t);
    assert Literal(cs) + b == [QUOTE] + (x + closing);
    assert [QUOTE] + (x + ([QUOTE] + Blanked(b, PLAIN, t))) == Literal(cs) + Blanked(b, PLAIN, t);
  }

  lemma LayoutIsHarmless(w: seq<byte>)
    requires Layout(w)
    ensures Harmless(w)
  {
  }

  lemma DigitsAreHarmless(d: seq<byte>)
    requires AllDigits(d)
    ensures Harmless(d)
  {
  }

  lemma FiguresAreHarmless(f: Figures)
    requires LegalFigures(f)
    ensures Harmless(FiguresText(f))
  {
    DigitsAreHarmless(f.whole);
    if f.frac.Some? {
      DigitsAreHarmless(f.frac.value);
    }
    if f.exp.Some? {
      DigitsAreHarmless(f.exp.value.digits);
    }
    hide AllDigits, IsDigit;
  }

  lemma WordIsHarmless(v: Tree)
    requires v.Word? || v.Bare?
    ensures Harmless(Spell(v))
  {
  }

  lemma LayoutPasses(w: seq<byte>, b: CString, t: Tokens)
    requires IsTokens(t) && Harmless(w)
    ensures NUL !in w && Passes(w, b, PLAIN, t)
  {
    HarmlessPasses(w, b, t);
  }

  lemma LeafPasses(v: Tree, b: CString, t: Tokens)
    requires IsTokens(t) && Legal(v) && !v.List? && !v.Record?
    ensures NUL !in Spell(v) && Passes(Spell(v), b, PLAIN, t)
  {
    hide Blanked, Literal, LegalChars, LegalFigures, FiguresText, Harmless, Passes;
    match v
    case Quotation(chars) => LiteralPasses(chars, b, t);
    case Numeral(f) =>
      FiguresAreHarmless(f);
      LayoutPasses(Spell(v), b, t);
    case _ =>
      WordIsHarmless(v);
      LayoutPasses(Spell(v), b, t);
  }

  lemma {:induction false} TreePasses(v: Tree, b: CString, t: Tokens)
    requires IsTokens(t) && Legal(v)
    ensures NUL !in Spell(v) && Passes(Spell(v), b, PLAIN, t)
    decreases v, 1
  {
    hide Passes, SpellElements, SpellPairs, LegalElements, LegalPairs, Layout, Distinct, Tail;
    match v
    case List(items, comma, pad) =>
      TailIsHarmless(comma, pad, RBRACKET);
      ElementsPass(items, Tail(comma, pad, RBRACKET), b, t);
      HarmlessPasses([LBRACKET], SpellElements(items, Tail(comma, pad, RBRACKET)) + b, t);
      PassesIs([LBRACKET], SpellElements(items, Tail(comma, pad, RBRACKET)) + b, t);
      PassesJoin([LBRACKET], SpellElements(items, Tail(comma, pad, RBRACKET)), b, PLAIN, t);
    case Record(pairs, comma, pad) =>
      TailIsHarmless(comma, pad, RBRACE);
      PairsPass(pairs, Tail(comma, pad, RBRACE), b, t);
      HarmlessPasses([LBRACE], SpellPairs(pairs, Tail(comma, pad, RBRACE)) + b, t);
      PassesIs([LBRACE], SpellPairs(pairs, Tail(comma, pad, RBRACE)) + b, t);
      PassesJoin([LBRACE], SpellPairs(pairs, Tail(comma, pad, RBRACE)), b, PLAIN, t);
    case _ => LeafPasses(v, b, t);
  }

  lemma PassesIs(a: seq<byte>, b: CString, t: Tokens)
    requires IsTokens(t) && NUL !in a && Blanked(a + b, PLAIN, t) == a + Blanked(b, PLAIN, t)
    ensures Passes(a, b, PLAIN, t)
  {
  }

  lemma TailIsHarmless(comma: bool, pad: seq<byte>, close: byte)
    requires Layout(pad) && (close == RBRACKET || close == RBRACE)
    ensures Harmless(Tail(comma, pad, close))
  {
    LayoutIsHarmless(pad);
  }

  lemma Passes4(a: seq<byte>, b: seq<byte>, c: seq<byte>, d: seq<byte>, rest: CString, t: Tokens)
    requires IsTokens(t) && NUL !in a && NUL !in b && NUL !in c && NUL !in d
    requires Passes(a, b + c + d + rest, PLAIN, t) && Passes(b, c + d + rest, PLAIN, t) && Passes(c, d + rest, PLAIN, t) && Passes(d, rest, PLAIN, t)
    ensures NUL !in a + b + c + d && Passes(a + b + c + d, rest, PLAIN, t)
  {
    hide Passes;
    PassesJoin(c, d, rest, PLAIN, t);
    assert c + d + rest == (c + d) + rest;
    PassesJoin(b, c + d, rest, PLAIN, t);
    assert b + (c + d) + rest == b + c + d + rest;
    PassesJoin(a, b + (c + d), rest, PLAIN, t);
    assert a + (b + (c + d)) == a + b + c + d;
  }

  lemma {:induction false} ElementsPass(e: Elements, tail: seq<byte>, b: CString, t: Tokens)
    requires IsTokens(t) && LegalElements(e) && Harmless(tail)
    ensures NUL !in SpellElements(e, tail) && Passes(SpellElements(e, tail), b, PLAIN, t)
    decreases e, 0
  {
    hide Blanked, Passes, SpellElements, Spell, LegalElements, Legal, Layout;
    if e.NoElements? {
      EmptyIsLegal(tail);
      LayoutPasses(tail, b, t);
    } else {
      ElementParts(e);
      LayoutIsHarmless(e.before);
      LayoutIsHarmless(e.after);
      ElementsPass(e.rest, tail, b, t);
      var onward := Onwards(e.rest.Element?, SpellElements(e.rest, tail));
      OnwardsPass(e.rest.Element?, SpellElements(e.rest, tail), b, t);
      LayoutPasses(e.after, onward + b, t);
      TreePasses(e.value, e.after + onward + b, t);
      LayoutPasses(e.before, Spell(e.value) + e.after + onward + b, t);
      Passes4(e.before, Spell(e.value), e.after, onward, b, t);
    }
  }

  lemma OnwardsPass(more: bool, text: seq<byte>, b: CString, t: Tokens)
    requires IsTokens(t) && NUL !in text && Passes(text, b, PLAIN, t)
    ensures NUL !in Onwards(more, text) && Passes(Onwards(more, text), b, PLAIN, t)
  {
    hide Passes;
    if more {
      LayoutPasses([COMMA], text + b, t);
      PassesJoin([COMMA], text, b, PLAIN, t);
    }
  }

  lemma {:induction false} PairsPass(p: Pairs, tail: seq<byte>, b: CString, t: Tokens)
    requires IsTokens(t) && LegalPairs(p) && Harmless(tail)
    ensures NUL !in SpellPairs(p, tail) && Passes(SpellPairs(p, tail), b, PLAIN, t)
    decreases p, 1
  {
    hide Blanked, Passes, SpellPairs, Spell, LegalPairs, Legal, Layout, LegalChars, CharsBytes, Literal, Colon;
    if p.NoPairs? {
      EmptyIsLegal(tail);
      LayoutPasses(tail, b, t);
    } else {
      PairParts(p);
      LayoutIsHarmless(p.before);
      LayoutIsHarmless(p.after);
      PairsPass(p.rest, tail, b, t);
      var core := Colon(Literal(p.name), p.gap, p.mid, Spell(p.value));
      var onward := Onwards(p.rest.Pair?, SpellPairs(p.rest, tail));
      OnwardsPass(p.rest.Pair?, SpellPairs(p.rest, tail), b, t);
      LayoutPasses(p.after, onward + b, t);
      ColonPasses(p, p.after + onward + b, t);
      LayoutPasses(p.before, core + p.after + onward + b, t);
      Passes4(p.before, core, p.after, onward, b, t);
    }
  }

  lemma {:induction false} ColonPasses(p: Pairs, b: CString, t: Tokens)
    requires IsTokens(t) && p.Pair? && LegalPairs(p)
    ensures var core := Colon(Literal(p.name), p.gap, p.mid, Spell(p.value)); NUL !in core && Passes(core, b, PLAIN, t)
    decreases p, 0
  {
    hide Blanked, Passes, Spell, LegalPairs, Legal, Layout, LegalChars, CharsBytes, Literal;
    PairParts(p);
    var colon := p.gap + [COLON];
    LayoutIsHarmless(p.gap);
    LayoutIsHarmless(p.mid);
    TreePasses(p.value, b, t);
    LayoutPasses(p.mid, Spell(p.value) + b, t);
    LayoutPasses(colon, p.mid + Spell(p.value) + b, t);
    LiteralPasses(p.name, colon + p.mid + Spell(p.value) + b, t);
    Passes4(Literal(p.name), colon, p.mid, Spell(p.value), b, t);
  }

  // --- Main results ---

  /** From `i` on, `r` is `s` with some characters blanked. */
  predicate BlankedFrom(s: CString, r: CString, i: nat) {
    |r| == |s| && forall k :: i <= k < |s| ==> r[k] == s[k] || r[k] == SPACE
  }

  lemma BlankOrSame(s: CString, r: CString, i: nat, k: nat)
    requires BlankedFrom(s, r, i) && i <= k <= |s|
    ensures At(r, k) == At(s, k) || At(r, k) == SPACE
  {
  }

  /** Blanking makes no exponent, no marker, no infinity and no NaN. */
  lemma NothingStarts(s: CString, r: CString, i: nat)
    requires BlankedFrom(s, r, i) && i <= |s|
    ensures IsDigit(At(r, i)) ==> IsDigit(At(s, i))
    ensures ExponentStarts(r, i) ==> ExponentStarts(s, i)
    ensures MarkerAt(r, i) ==> MarkerAt(s, i)
    ensures WordAt(r, i) ==> WordAt(s, i)
    ensures At(r, i) == POINT ==> At(s, i) == POINT && (i < |s| && IsDigit(At(r, i + 1)) ==> IsDigit(At(s, i + 1)))
  {
    BlankOrSame(s, r, i, i);
    if i + 1 <= |s| {
      BlankOrSame(s, r, i, i + 1);
    }
    if i + 2 <= |s| {
      BlankOrSame(s, r, i, i + 2);
    }
    hide BlankedFrom;
  }

  lemma StopsStays(s: CString, r: CString, i: nat, f: Figures)
    requires BlankedFrom(s, r, i) && i <= |s| && Stops(s, i, f)
    ensures Stops(r, i, f)
  {
    NothingStarts(s, r, i);
    hide BlankedFrom, IsDigit, ExponentStarts, MarkerAt;
  }

  lemma BareStays(s: CString, r: CString, i: nat)
    requires BlankedFrom(s, r, i) && i < |s| && r[i] == s[i] && BareAt(s, i)
    ensures BareAt(r, i)
  {
    NothingStarts(s, r, i + 1);
    hide BlankedFrom, IsDigit, WordAt;
  }

  lemma SignStays(b: CString, t: Tokens)
    requires IsTokens(t) && b != [] && b[0] == MINUS
    ensures Blanked(b, PLAIN, t) != [] && Blanked(b, PLAIN, t)[0] == MINUS
  {
    assert b == [MINUS] + b[1..];
    ByteStays(MINUS, b[1..], PLAIN, t);
    hide Blanked;
  }

  /** Behind a legal spelling a pass may blank something, but nothing that would continue the value. */
  lemma EndsStays(a: seq<byte>, b: CString, t: Tokens, v: Tree)
    requires IsTokens(t) && NUL !in a && Ends(a + b, |a|, v)
    ensures Ends(a + Blanked(b, PLAIN, t), |a|, v)
  {
    hide Blanked, Stops, BareAt;
    var s: CString, r: CString := a + b, a + Blanked(b, PLAIN, t);
    OnlyToBlanks(b, PLAIN, t);
    assert BlankedFrom(s, r, |a|);
    hide BlankedFrom;
    match v
    case Numeral(f) => StopsStays(s, r, |a|, f);
    case Bare =>
      BareIsSign(s, |a|);
      SignStays(b, t);
      BareStays(s, r, |a|);
    case _ =>
  }

  /** A pass leaves the spelling at the start of a text as it is, so the text still spells the same value. */
  lemma SpellingStays(s: CString, pad: seq<byte>, v: Tree, value: Json, end: nat, t: Tokens)
    requires IsTokens(t) && Derives(s, 0, pad, v, value, end)
    ensures Derives(Blanked(s, PLAIN, t), 0, pad, v, value, end)
  {
    hide Blanked, Spell, Legal, Layout, Meaning, Ends;
    var a, b := pad + Spell(v), s[end..];
    assert s == a + b && end == |a| by { HoldsElements(s, 0, a); }
    LayoutIsHarmless(pad);
    TreePasses(v, b, t);
    LayoutPasses(pad, Spell(v) + b, t);
    PassesJoin(pad, Spell(v), b, PLAIN, t);
    EndsStays(a, b, t, v);
    assert (a + Blanked(b, PLAIN, t))[..|a|] == a;
  }

  /** Allowing comments changes nothing for a text that is accepted without, unless it starts with a byte order mark. */
  lemma CommentsChangeNothing(s: CString)
    requires ParseString(s).Done? && !Holds(s, 0, BOM)
    ensures ParseWithComments(s) == ParseString(s)
  {
    hide Derives, ValueAt, Blanked, Height;
    var r := ValueAt(s, 0, 0);
    var pad, v := ValueIsSpelled(s, 0, 0);
    SpellingStays(s, pad, v, r.value, r.end, BLOCK);
    SpellingStays(Blanked(s, PLAIN, BLOCK), pad, v, r.value, r.end, LINE);
    DerivedIsRead(s, 0, 0, pad, v, r.value, r.end);
    DerivedIsRead(WithoutComments(s), 0, 0, pad, v, r.value, r.end);
  }

  /** With comments allowed, a text that starts with a byte order mark is always refused. */
  lemma MarkIsRefused(s: CString)
    requires Holds(s, 0, BOM)
    ensures ParseWithComments(s) == Failed(Rejected)
  {
    HoldsElements(s, 0, BOM);
    assert s == [0xEF] + s[1..];
    ByteStays(0xEF, s[1..], PLAIN, BLOCK);
    var once := Blanked(s, PLAIN, BLOCK);
    assert once == [0xEF] + once[1..];
    ByteStays(0xEF, once[1..], PLAIN, LINE);
    hide Blanked;
    assert At(WithoutComments(s), 0) == 0xEF;
  }

  /**
   * Block comments are blanked before line comments, so two slashes and a star are no line comment but a slash and the
   * start of a block comment: the slash is left over, and the text is refused whatever follows.
   */
  lemma BlockCommentsFirst(rest: CString)
    ensures ParseWithComments(Ascii("//*") + rest) == Failed(Rejected)
  {
    hide Blanked, NumberAt, StringAt, ObjectAt, ArrayAt, BooleanAt, TokenAt, SkipSpaces;
    var s: CString := Ascii("//*") + rest;
    assert Ascii("//*") == [0x2F, 0x2F, 0x2A];
    assert s[..2][1] == 0x2F && s[1..][..2] == [0x2F, 0x2A];
    BlankedKeeps(s, PLAIN, BLOCK);
    BlankAtStart(s[1..], Next(s[0], PLAIN), BLOCK);
    var once := Blanked(s, PLAIN, BLOCK);
    assert once[0] == 0x2F && once[1] == BLANK && once[..2][1] == once[1];
    BlankedKeeps(once, PLAIN, LINE);
    assert At(WithoutComments(s), 0) == 0x2F;
    SkipsNothing(WithoutComments(s), 0);
  }

  lemma BlankAtStart(s: CString, m: Mode, t: Tokens)
    requires t.start != [] && Opens(s, m, t)
    ensures Blanked(s, m, t)[0] == BLANK
  {
  }

  /** Printed text holds no comment, so it is read back with comments allowed as well. */
  lemma PrintThenParseWithComments(v: Json, style: Style)
    requires WellFormed(v)
    ensures NothingOpens(Text(v, 0, style), PLAIN, BLOCK) && NothingOpens(Text(v, 0, style), PLAIN, LINE)
    ensures ParseWithComments(Text(v, 0, style)) == if Height(v) <= 2048 then Done(v, |Text(v, 0, style)|) else Failed(Rejected)
  {
    hide Blanked, Text, WellFormed, ValueAt, Height, NothingOpens, Legal, Spell, Meaning;
    var t := Text(v, 0, style);
    var tree := PrintedTree(v, 0, style);
    TreePasses(tree, [], BLOCK);
    TreePasses(tree, [], LINE);
    assert t + [] == t;
    NothingBlanked(BLOCK);
    NothingBlanked(LINE);
    UnchangedIff(t, PLAIN, BLOCK);
    UnchangedIff(t, PLAIN, LINE);
    PrintedStart(v, style, []);
    PrintThenParse(v, style);
  }

  lemma NothingBlanked(t: Tokens)
    requires IsTokens(t)
    ensures Blanked([], PLAIN, t) == []
  {
  }
}
