/**
 The texts the parser accepts, as a grammar that generates them: RFC 8259 with the parser's deviations.  A tree
 records one way to write a value, with layout, escapes and trailing commas; parsing inverts the writing.
 */
module Spelling {
  import opened Bytes
  import opened Items
  import opened Quotes
  import opened Json
  import opened Numerals
  import opened Grammar

  /** `Bare` is the zero read from a minus sign without a numeral, which stays unread. */
  datatype Tree =
    | Word(word: Json)
    | Numeral(figures: Figures)
    | Bare
    | Quotation(chars: seq<Char>)
    | List(items: Elements, comma: bool, pad: seq<byte>)
    | Record(pairs: Pairs, comma: bool, pad: seq<byte>)

  datatype Elements = NoElements | Element(before: seq<byte>, value: Tree, after: seq<byte>, rest: Elements)

  datatype Pairs =
    | NoPairs
    | Pair(before: seq<byte>, name: seq<Char>, gap: seq<byte>, mid: seq<byte>, value: Tree, after: seq<byte>, rest: Pairs)

  predicate Layout(w: seq<byte>) {
    forall k :: 0 <= k < |w| ==> IsSpace(w[k])
  }

  // --- What a tree writes ---

  function Spell(t: Tree): seq<byte> {
    match t
    case Word(v) => if v.Boolean? then (if v.b then TRUE else FALSE) else NULL
    case Numeral(f) => FiguresText(f)
    case Bare => []
    case Quotation(chars) => Literal(chars)
    case List(items, comma, pad) => [LBRACKET] + SpellElements(items, Tail(comma, pad, RBRACKET))
    case Record(pairs, comma, pad) => [LBRACE] + SpellPairs(pairs, Tail(comma, pad, RBRACE))
  }

  /** What stands behind the last element of a container: perhaps a comma, layout, and the closing bracket. */
  function Tail(comma: bool, pad: seq<byte>, close: byte): seq<byte> {
    (if comma then [COMMA] else []) + pad + [close]
  }

  function SpellElements(e: Elements, tail: seq<byte>): seq<byte> {
    match e
    case NoElements => tail
    case Element(before, value, after, rest) =>
      before + Spell(value) + after + Onwards(rest.Element?, SpellElements(rest, tail))
  }

  function SpellPairs(p: Pairs, tail: seq<byte>): seq<byte> {
    match p
    case NoPairs => tail
    case Pair(before, name, gap, mid, value, after, rest) =>
      before + Colon(Literal(name), gap, mid, Spell(value)) + after + Onwards(rest.Pair?, SpellPairs(rest, tail))
  }

  function Onwards(more: bool, text: seq<byte>): seq<byte> {
    if more then [COMMA] + text else text
  }

  function Colon(name: seq<byte>, gap: seq<byte>, mid: seq<byte>, value: seq<byte>): seq<byte> {
    name + (gap + [COLON]) + mid + value
  }

  // --- What a tree means ---

  function Meaning(t: Tree): Json {
    match t
    case Word(v) => v
    case Numeral(f) => Number(FiguresValue(f))
    case Bare => Number(0)
    case Quotation(chars) => String(Denoted(chars))
    case List(items, _, _) => Array(ElementValues(items))
    case Record(pairs, _, _) => Object(PairValues(pairs))
  }

  function ElementValues(e: Elements): seq<Json> {
    match e
    case NoElements => []
    case Element(_, value, _, rest) => [Meaning(value)] + ElementValues(rest)
  }

  function PairValues(p: Pairs): seq<Entry<Json>> {
    match p
    case NoPairs => []
    case Pair(_, name, _, _, value, _, rest) => [Entry(AsName(Denoted(name)), Meaning(value))] + PairValues(rest)
  }

  function FiguresValue(f: Figures): int {
    if Shaped(f) && DoubleOf(f).Whole? then DoubleOf(f).n else 0
  }

  function Denoted(chars: seq<Char>): seq<byte> {
    if LegalChars(chars) then CharsBytes(chars) else []
  }

  function AsName(x: seq<byte>): CString {
    if NUL in x then [] else x
  }

  // --- Which trees are legal ---

  /** Names are distinct and hold no NUL, numerals are legal, and only a whole text may be `Bare`. */
  ghost predicate Legal(t: Tree) {
    match t
    case Word(v) => v.Null? || v.Boolean?
    case Numeral(f) => LegalFigures(f) && DoubleOf(f).Whole?
    case Bare => true
    case Quotation(chars) => LegalChars(chars)
    case List(items, comma, pad) => LegalElements(items) && Layout(pad) && (comma ==> items.Element?)
    case Record(pairs, comma, pad) =>
      LegalPairs(pairs) && Distinct(PairValues(pairs)) && Layout(pad) && (comma ==> pairs.Pair?)
  }

  ghost predicate LegalElements(e: Elements) {
    e.Element? ==> Layout(e.before) && Layout(e.after) && !e.value.Bare? && Legal(e.value) && LegalElements(e.rest)
  }

  ghost predicate LegalPairs(p: Pairs) {
    p.Pair? ==>
      && Layout(p.before) && Layout(p.gap) && Layout(p.mid) && Layout(p.after)
      && LegalChars(p.name) && NUL !in CharsBytes(p.name)
      && !p.value.Bare? && Legal(p.value) && LegalPairs(p.rest)
  }

  /** What must not stand behind a value, because it would be read as more of it. */
  predicate Ends(s: CString, i: nat, t: Tree) {
    i <= |s| && match t
                case Numeral(f) => Stops(s, i, f)
                case Bare => BareAt(s, i)
                case _ => true
  }

  // --- Layout ---

  lemma {:induction false} SpacesSkip(s: CString, i: nat, w: seq<byte>)
    requires Holds(s, i, w) && Layout(w)
    ensures SkipSpaces(s, i) == SkipSpaces(s, i + |w|)
    decreases |w|
  {
    HoldsElements(s, i, w);
    if w != [] {
      assert IsSpace(w[0]) && At(s, i) == w[0];
      SpacesSkip(s, i + 1, w[1..]);
    }
  }

  lemma SkipsNothing(s: CString, i: nat)
    requires i <= |s| && !IsSpace(At(s, i))
    ensures SkipSpaces(s, i) == i
  {
  }

  lemma {:induction false} SkippedIsLayout(s: CString, i: nat)
    requires i <= |s|
    ensures Layout(s[i..SkipSpaces(s, i)])
    decreases |s| - i
  {
    if IsSpace(At(s, i)) {
      SkippedIsLayout(s, i + 1);
      assert s[i..SkipSpaces(s, i)] == [s[i]] + s[i + 1..SkipSpaces(s, i)];
    }
  }

  /** A value starts with a character that is neither layout nor punctuation. */
  predicate IsHead(c: byte) {
    !IsSpace(c) && c != NUL && c != COMMA && c != RBRACKET && c != RBRACE && c != 0xEF
  }

  lemma SpellHead(t: Tree)
    requires Legal(t) && !t.Bare?
    ensures Spell(t) != [] && IsHead(Spell(t)[0])
  {
    if t.Numeral? {
      FiguresHead(t.figures);
    }
  }

  lemma HeadOf(s: CString, i: nat, w: seq<byte>, t: seq<byte>)
    requires Holds(s, i, w) && Layout(w) && Holds(s, i + |w|, t) && t != [] && IsHead(t[0])
    ensures SkipSpaces(s, i) == i + |w| < |s| && At(s, i + |w|) == t[0]
  {
    HoldsElements(s, i + |w|, t);
    hide Holds, Layout;
    SpacesSkip(s, i, w);
    SkipsNothing(s, i + |w|);
  }

  lemma PadCloses(s: CString, i: nat, pad: seq<byte>, close: byte)
    requires Layout(pad) && !IsSpace(close) && close != NUL && Holds(s, i, pad + [close])
    ensures i + |pad| < |s| && SkipSpaces(s, i) == i + |pad| && At(s, i + |pad|) == close
  {
    hide Layout, Holds, SkipSpaces;
    HoldsConcat(s, i, pad, [close]);
    HoldsElements(s, i + |pad|, [close]);
    SpacesSkip(s, i, pad);
    SkipsNothing(s, i + |pad|);
  }

  /** What the loops see behind the last element: perhaps a comma, and the closing bracket. */
  lemma TailCloses(s: CString, i: nat, after: seq<byte>, comma: bool, pad: seq<byte>, close: byte)
    requires Layout(after) && Layout(pad) && (close == RBRACKET || close == RBRACE)
    requires Holds(s, i, after) && Holds(s, i + |after|, Tail(comma, pad, close))
    ensures var j, end := SkipSpaces(s, i), i + |after| + |Tail(comma, pad, close)|;
            && end <= |s|
            && if comma then At(s, j) == COMMA && SkipSpaces(s, j + 1) + 1 == end && At(s, SkipSpaces(s, j + 1)) == close
               else j + 1 == end && At(s, j) == close
  {
    hide Layout, Holds, SkipSpaces;
    SpacesSkip(s, i, after);
    if comma {
      assert Tail(comma, pad, close) == [COMMA] + (pad + [close]);
      CommaFollows(s, i, after, pad + [close]);
      PadCloses(s, i + |after| + 1, pad, close);
    } else {
      assert Tail(comma, pad, close) == pad + [close];
      PadCloses(s, i + |after|, pad, close);
    }
  }

  lemma CommaFollows(s: CString, i: nat, after: seq<byte>, next: seq<byte>)
    requires Layout(after) && Holds(s, i, after) && Holds(s, i + |after|, [COMMA] + next)
    ensures var j := SkipSpaces(s, i); j == i + |after| < |s| && At(s, j) == COMMA && Holds(s, j + 1, next)
  {
    hide Layout;
    var e := i + |after|;
    SpacesSkip(s, i, after);
    HoldsConcat(s, e, [COMMA], next);
    HoldsElements(s, e, [COMMA]);
    SkipsNothing(s, e);
  }

  /** Behind an element stands no character that would be read as more of it. */
  lemma ElementEnds(s: CString, i: nat, t: Tree, after: seq<byte>, rest: seq<byte>)
    requires Layout(after) && Holds(s, i, after + rest) && !t.Bare?
    requires rest != [] && (IsSpace(rest[0]) || rest[0] == COMMA || rest[0] == RBRACKET || rest[0] == RBRACE)
    ensures Ends(s, i, t)
  {
    HoldsElements(s, i, after + rest);
    assert At(s, i) == (after + rest)[0];
  }

  lemma TailHead(comma: bool, pad: seq<byte>, close: byte)
    requires Layout(pad)
    ensures Tail(comma, pad, close) != []
    ensures var c := Tail(comma, pad, close)[0]; IsSpace(c) || c == COMMA || c == close
  {
  }

  lemma HoldsNothing(s: seq<byte>, i: nat)
    requires i <= |s|
    ensures Holds(s, i, [])
  {
  }

  lemma ElementsHeight(v: Json, rest: seq<Json>)
    ensures ItemsHeight([v] + rest) == Max(1 + Height(v), ItemsHeight(rest)) && ItemsHeight([]) == 0
  {
    assert ([v] + rest)[1..] == rest;
  }

  lemma PairsHeight(m: Entry<Json>, rest: seq<Entry<Json>>)
    ensures MembersHeight([m] + rest) == Max(1 + Height(m.value), MembersHeight(rest)) && MembersHeight([]) == 0
  {
    assert ([m] + rest)[1..] == rest;
  }

  // --- Every legal text is read as what it means ---

  /** What reading gives: the value, unless it is nested too deeply. */
  function Expected(v: Json, nesting: int, end: nat): Parse<Json> {
    if nesting + Height(v) <= MAX_NESTING then Done(v, end) else Failed(Rejected)
  }

  lemma NumeralIsRead(s: CString, i: nat, f: Figures)
    requires LegalFigures(f) && DoubleOf(f).Whole? && Holds(s, i, FiguresText(f)) && Stops(s, i + |FiguresText(f)|, f)
    ensures i <= |s| && NumberAt(s, i) == Done(Meaning(Numeral(f)), i + |FiguresText(f)|)
  {
    hide StrtodAt, IsDecimal, Stops, FiguresText, DoubleOf, Shaped;
    SpelledIsFound(s, i, f, DoubleOf(f), i + |FiguresText(f)|);
  }

  /** The model gives no answer exactly for legal numerals of numbers that are no exact integers. */
  lemma OutsideIff(s: CString, i: nat)
    requires i <= |s| && (At(s, i) == MINUS || IsDigit(At(s, i)))
    ensures NumberAt(s, i) == Failed(OutsideModel) <==> exists f, end :: Spells(s, i, f, Other, end)
  {
    hide StrtodAt, IsDecimal, BareAt, Spells;
    if NumberAt(s, i) == Failed(OutsideModel) {
      FoundIsSpelled(s, i, Other, StrtodAt(s, i).end);
    }
    if f, end :| Spells(s, i, f, Other, end) {
      SpelledIsFound(s, i, f, Other, end);
    }
  }

  /** Text that stands behind layout is read from either side of it. */
  lemma ValueSkips(s: CString, i: nat, j: nat, nesting: nat)
    requires i <= |s| && j <= |s| && SkipSpaces(s, i) == SkipSpaces(s, j)
    ensures ValueAt(s, i, nesting) == ValueAt(s, j, nesting)
  {
  }

  lemma WordIsRead(s: CString, i: nat, v: Json, nesting: nat)
    requires (v.Null? || v.Boolean?) && Holds(s, i, Spell(Word(v))) && nesting <= MAX_NESTING
    ensures i <= |s| && ValueAt(s, i, nesting) == Done(v, i + |Spell(Word(v))|)
  {
    HoldsElements(s, i, Spell(Word(v)));
    assert At(s, i) == Spell(Word(v))[0];
    SkipsNothing(s, i);
  }

  lemma QuotationIsRead(s: CString, i: nat, chars: seq<Char>, nesting: nat)
    requires LegalChars(chars) && Holds(s, i, Literal(chars)) && nesting <= MAX_NESTING
    ensures i <= |s| && ValueAt(s, i, nesting) == Done(String(CharsBytes(chars)), i + |Literal(chars)|)
  {
    hide LegalChars, CharsBytes, SpellChars, QuotedAt;
    HoldsElements(s, i, Literal(chars));
    assert At(s, i) == QUOTE;
    SkipsNothing(s, i);
    LiteralIsRead(s, i, chars);
  }

  lemma LeafIsRead(s: CString, i: nat, t: Tree, nesting: nat)
    requires !t.List? && !t.Record? && Legal(t) && Holds(s, i, Spell(t)) && Ends(s, i + |Spell(t)|, t) && nesting <= MAX_NESTING
    ensures i <= |s| && ValueAt(s, i, nesting) == Done(Meaning(t), i + |Spell(t)|)
  {
    hide Holds, SkipSpaces, Literal, LegalFigures, FiguresText, FiguresValue, NumberAt, LegalChars;
    HoldsElements(s, i, Spell(t));
    match t
    case Word(v) => WordIsRead(s, i, v, nesting);
    case Numeral(f) =>
      NumeralIsRead(s, i, f);
      SpellHead(t);
      assert At(s, i) == Spell(t)[0] && (At(s, i) == MINUS || IsDigit(At(s, i))) by { NumeralHead(t); }
      SkipsNothing(s, i);
    case Bare =>
      BareIsRead(s, i);
      SkipsNothing(s, i);
    case Quotation(chars) => QuotationIsRead(s, i, chars, nesting);
  }

  lemma NumeralHead(t: Tree)
    requires t.Numeral? && Legal(t)
    ensures Spell(t) != [] && (Spell(t)[0] == MINUS || IsDigit(Spell(t)[0]))
  {
    FiguresHead(t.figures);
  }

  lemma BareIsRead(s: CString, i: nat)
    requires Ends(s, i, Bare)
    ensures i < |s| && At(s, i) == MINUS && NumberAt(s, i) == Done(Number(0), i)
  {
    BareIsZero(s, i);
    BareIsSign(s, i);
    hide StrtodAt, IsDecimal, BareAt;
  }

  /** Where a container opens, reading goes on inside it, one level deeper; too deep, it fails at once. */
  lemma BracketIsRead(s: CString, i: nat, nesting: nat)
    requires i <= |s|
    ensures nesting > MAX_NESTING ==> ValueAt(s, i, nesting) == Failed(Rejected)
    ensures nesting <= MAX_NESTING && At(s, i) == LBRACKET ==> i < |s| && ValueAt(s, i, nesting) == ArrayAt(s, i, nesting + 1)
    ensures nesting <= MAX_NESTING && At(s, i) == LBRACE ==> i < |s| && ValueAt(s, i, nesting) == ObjectAt(s, i, nesting + 1)
  {
    hide ArrayAt, ObjectAt, NumberAt, StringAt, BooleanAt, TokenAt;
  }

  lemma {:induction false} TreeIsRead(s: CString, i: nat, t: Tree, nesting: nat)
    requires Legal(t) && Holds(s, i, Spell(t)) && Ends(s, i + |Spell(t)|, t)
    ensures i <= |s| && ValueAt(s, i, nesting) == Expected(Meaning(t), nesting, i + |Spell(t)|)
    decreases t, 1
  {
    hide Holds, ValueAt, LegalElements, LegalPairs, SpellElements, SpellPairs, Literal, LegalFigures, FiguresText, FiguresValue;
    hide Ends, Distinct, Layout, LegalChars, ElementValues, PairValues, Tail;
    HoldsElements(s, i, Spell(t));
    BracketIsRead(s, i, nesting);
    if nesting <= MAX_NESTING {
      match t
      case List(items, comma, pad) => ListIsRead(s, i, items, comma, pad, nesting);
      case Record(pairs, comma, pad) => RecordIsRead(s, i, pairs, comma, pad, nesting);
      case _ => LeafIsRead(s, i, t, nesting);
    }
  }

  lemma ExpectedContainer(items: seq<Json>, members: seq<Entry<Json>>, nesting: nat, end: nat)
    ensures Expected(Array(items), nesting, end)
            == if nesting + ItemsHeight(items) <= MAX_NESTING then Done(Array(items), end) else Failed(Rejected)
    ensures Expected(Object(members), nesting, end)
            == if nesting + MembersHeight(members) <= MAX_NESTING then Done(Object(members), end) else Failed(Rejected)
    ensures ItemsHeight([]) == 0 && MembersHeight([]) == 0
  {
  }

  lemma {:induction false} ListIsRead(s: CString, i: nat, items: Elements, comma: bool, pad: seq<byte>, nesting: nat)
    requires LegalElements(items) && Layout(pad) && (comma ==> items.Element?) && nesting <= MAX_NESTING
    requires Holds(s, i, [LBRACKET] + SpellElements(items, Tail(comma, pad, RBRACKET)))
    ensures i < |s| && ArrayAt(s, i, nesting + 1)
                       == Expected(Array(ElementValues(items)), nesting, i + 1 + |SpellElements(items, Tail(comma, pad, RBRACKET))|)
    decreases items, 2
  {
    hide Holds, SkipSpaces, LegalElements, ItemsAt, Tail, Layout, Expected, SpellElements, ElementValues;
    var text := SpellElements(items, Tail(comma, pad, RBRACKET));
    ExpectedContainer(ElementValues(items), [], nesting, i + 1 + |text|);
    HoldsConcat(s, i, [LBRACKET], text);
    HoldsElements(s, i, [LBRACKET]);
    HoldsElements(s, i + 1, text);
    if items.NoElements? {
      EmptyIsLegal(Tail(comma, pad, RBRACKET));
      HoldsNothing(s, i + 1);
      LayoutOfNothing();
      TailCloses(s, i + 1, [], comma, pad, RBRACKET);
    } else {
      ElementsAreRead(s, i + 1, items, comma, pad, nesting + 1, []);
      HeadIsNoBracket(At(s, SkipSpaces(s, i + 1)));
      assert [] + ElementValues(items) == ElementValues(items);
    }
  }

  /** The last round of the array loop. */
  lemma LastElement(s: CString, p: nat, nesting: nat, before: seq<Json>, v: Json, i: nat, comma: bool, end: nat)
    requires p <= |s| && At(s, p) != NUL && i <= |s| && ValueAt(s, p, nesting) == Expected(v, nesting, i)
    requires var j := SkipSpaces(s, i);
             if comma then j < |s| && At(s, j) == COMMA && SkipSpaces(s, j + 1) + 1 == end && At(s, SkipSpaces(s, j + 1)) == RBRACKET
             else j + 1 == end && At(s, j) == RBRACKET
    ensures ItemsAt(s, p, nesting, before)
            == if nesting + Height(v) <= MAX_NESTING then Done(Array(before + [v]), end) else Failed(Rejected)
  {
    hide ValueAt, SkipSpaces, Height, ItemsAt;
    ItemsStep(s, p, nesting, before);
  }

  /** Any other round. */
  lemma NotLastElement(s: CString, p: nat, nesting: nat, before: seq<Json>, v: Json, i: nat, next: nat)
    requires p <= |s| && At(s, p) != NUL && i <= |s| && ValueAt(s, p, nesting) == Expected(v, nesting, i)
    requires var j := SkipSpaces(s, i); j < |s| && At(s, j) == COMMA && next == SkipSpaces(s, j + 1) && At(s, next) != RBRACKET
    ensures ItemsAt(s, p, nesting, before)
            == if nesting + Height(v) <= MAX_NESTING then ItemsAt(s, next, nesting, before + [v]) else Failed(Rejected)
  {
    hide ValueAt, SkipSpaces, Height, ItemsAt;
    ItemsStep(s, p, nesting, before);
  }

  lemma ElementParts(e: Elements)
    requires e.Element?
    ensures LegalElements(e) <==>
              Layout(e.before) && Layout(e.after) && !e.value.Bare? && Legal(e.value) && LegalElements(e.rest)
    ensures ElementValues(e) == [Meaning(e.value)] + ElementValues(e.rest)
    ensures e.rest.NoElements? ==> ElementValues(e.rest) == [] && ElementValues(e) == [Meaning(e.value)]
    ensures forall tail :: SpellElements(e, tail)
                           == e.before + Spell(e.value) + e.after + Onwards(e.rest.Element?, SpellElements(e.rest, tail))
  {
  }

  /** The first element, where the loop finds it, and what stands behind it. */
  lemma {:induction false} ElementIsRead(s: CString, i: nat, e: Elements, onward: seq<byte>, nesting: nat)
    requires e.Element? && LegalElements(e) && Holds(s, i, e.before + Spell(e.value) + e.after + onward)
    requires onward != [] && (IsSpace(onward[0]) || onward[0] == COMMA || onward[0] == RBRACKET)
    ensures var p := i + |e.before|; var end := p + |Spell(e.value)|;
            && SkipSpaces(s, i) == p < |s| && IsHead(At(s, p)) && end <= |s|
            && ValueAt(s, p, nesting) == Expected(Meaning(e.value), nesting, end)
            && Layout(e.after) && Holds(s, end, e.after) && Holds(s, end + |e.after|, onward)
    decreases e, 0
  {
    hide Holds, SkipSpaces, Layout, ValueAt, Spell, Meaning, Ends, IsHead, Legal, LegalElements, Expected;
    ElementParts(e);
    var v, end := Spell(e.value), i + |e.before| + |Spell(e.value)|;
    HoldsConcat4(s, i, e.before, v, e.after, onward);
    SpellHead(e.value);
    HeadOf(s, i, e.before, v);
    HoldsConcat(s, end, e.after, onward);
    ElementEnds(s, end, e.value, e.after, onward);
    TreeIsRead(s, i + |e.before|, e.value, nesting);
    HoldsElements(s, i + |e.before|, v);
  }

  /** The array loop, behind the values `before`, reads the elements that are spelled out up to the closing bracket. */
  lemma {:induction false} ElementsAreRead(s: CString, i: nat, e: Elements, comma: bool, pad: seq<byte>, nesting: nat, before: seq<Json>)
    requires e.Element? && LegalElements(e) && Layout(pad) && Holds(s, i, SpellElements(e, Tail(comma, pad, RBRACKET)))
    ensures i <= |s| && IsHead(At(s, SkipSpaces(s, i)))
    ensures ItemsAt(s, SkipSpaces(s, i), nesting, before)
            == if nesting + ItemsHeight(ElementValues(e)) <= MAX_NESTING + 1
               then Done(Array(before + ElementValues(e)), i + |SpellElements(e, Tail(comma, pad, RBRACKET))|)
               else Failed(Rejected)
    decreases e, 1
  {
    hide Holds, SkipSpaces, Layout, ValueAt, ItemsAt, Spell, SpellElements, Meaning, Height, Tail, IsHead, Legal, LegalElements;
    hide ElementValues, Expected;
    var tail, v := Tail(comma, pad, RBRACKET), Meaning(e.value);
    var rest, end := SpellElements(e.rest, tail), i + |e.before| + |Spell(e.value)|;
    ElementParts(e);
    TailHead(comma, pad, RBRACKET);
    if e.rest.NoElements? {
      EmptyIsLegal(tail);
    }
    ElementIsRead(s, i, e, Onwards(e.rest.Element?, rest), nesting);
    HeadIsNoBracket(At(s, SkipSpaces(s, i)));
    ElementsHeight(v, ElementValues(e.rest));
    hide ItemsHeight;
    if e.rest.NoElements? {
      TailCloses(s, end, e.after, comma, pad, RBRACKET);
      LastElement(s, SkipSpaces(s, i), nesting, before, v, end, comma, end + |e.after| + |tail|);
    } else {
      CommaFollows(s, end, e.after, rest);
      var next := end + |e.after| + 1;
      ElementsAreRead(s, next, e.rest, comma, pad, nesting, before + [v]);
      HeadIsNoBracket(At(s, SkipSpaces(s, next)));
      NotLastElement(s, SkipSpaces(s, i), nesting, before, v, end, SkipSpaces(s, next));
      assert before + [v] + ElementValues(e.rest) == before + ElementValues(e);
    }
  }

  lemma HeadIsNoBracket(c: byte)
    requires IsHead(c)
    ensures c != RBRACKET && c != RBRACE && c != NUL
  {
  }

  lemma {:induction false} RecordIsRead(s: CString, i: nat, pairs: Pairs, comma: bool, pad: seq<byte>, nesting: nat)
    requires LegalPairs(pairs) && Distinct(PairValues(pairs)) && Layout(pad) && (comma ==> pairs.Pair?) && nesting <= MAX_NESTING
    requires Holds(s, i, [LBRACE] + SpellPairs(pairs, Tail(comma, pad, RBRACE)))
    ensures i < |s| && ObjectAt(s, i, nesting + 1)
                       == Expected(Object(PairValues(pairs)), nesting, i + 1 + |SpellPairs(pairs, Tail(comma, pad, RBRACE))|)
    decreases pairs, 3
  {
    hide Holds, SkipSpaces, LegalPairs, MembersAt, Tail, Distinct, Layout, Expected, SpellPairs, PairValues;
    var text := SpellPairs(pairs, Tail(comma, pad, RBRACE));
    ExpectedContainer([], PairValues(pairs), nesting, i + 1 + |text|);
    HoldsConcat(s, i, [LBRACE], text);
    HoldsElements(s, i, [LBRACE]);
    HoldsElements(s, i + 1, text);
    if pairs.NoPairs? {
      EmptyIsLegal(Tail(comma, pad, RBRACE));
      HoldsNothing(s, i + 1);
      LayoutOfNothing();
      TailCloses(s, i + 1, [], comma, pad, RBRACE);
    } else {
      assert [] + PairValues(pairs) == PairValues(pairs);
      PairsAreRead(s, i + 1, pairs, comma, pad, nesting + 1, []);
      HeadIsNoBracket(At(s, SkipSpaces(s, i + 1)));
    }
  }

  /** The last round of the object loop. */
  lemma LastPair(s: CString, p: nat, nesting: nat, before: seq<Entry<Json>>, m: Entry<Json>, i: nat, comma: bool, end: nat)
    requires p <= |s| && At(s, p) != NUL && i <= |s| && !HasName(before, m.name) && MemberAt(s, p, nesting) == ExpectedPair(m, nesting, i)
    requires var j := SkipSpaces(s, i);
             if comma then j < |s| && At(s, j) == COMMA && SkipSpaces(s, j + 1) + 1 == end && At(s, SkipSpaces(s, j + 1)) == RBRACE
             else j + 1 == end && At(s, j) == RBRACE
    ensures MembersAt(s, p, nesting, before)
            == if nesting + Height(m.value) <= MAX_NESTING then Done(Object(before + [m]), end) else Failed(Rejected)
  {
    hide MemberAt, SkipSpaces, Height, MembersAt, HasName;
    MembersStep(s, p, nesting, before);
  }

  /** Any other round. */
  lemma NotLastPair(s: CString, p: nat, nesting: nat, before: seq<Entry<Json>>, m: Entry<Json>, i: nat, next: nat)
    requires p <= |s| && At(s, p) != NUL && i <= |s| && !HasName(before, m.name) && MemberAt(s, p, nesting) == ExpectedPair(m, nesting, i)
    requires var j := SkipSpaces(s, i); j < |s| && At(s, j) == COMMA && next == SkipSpaces(s, j + 1) && At(s, next) != RBRACE
    ensures MembersAt(s, p, nesting, before)
            == if nesting + Height(m.value) <= MAX_NESTING then MembersAt(s, next, nesting, before + [m]) else Failed(Rejected)
  {
    hide MemberAt, SkipSpaces, Height, MembersAt, HasName;
    MembersStep(s, p, nesting, before);
  }

  function ExpectedPair(m: Entry<Json>, nesting: nat, end: nat): Parse<Entry<Json>> {
    if nesting + Height(m.value) <= MAX_NESTING then Done(m, end) else Failed(Rejected)
  }

  /** The first pair, where the loop finds it, and what stands behind it. */
  lemma {:induction false} FirstPairIsRead(s: CString, i: nat, p: Pairs, onward: seq<byte>, nesting: nat)
    requires p.Pair? && LegalPairs(p)
    requires Holds(s, i, p.before + Colon(Literal(p.name), p.gap, p.mid, Spell(p.value)) + p.after + onward)
    requires onward != [] && (IsSpace(onward[0]) || onward[0] == COMMA || onward[0] == RBRACE)
    ensures var at := i + |p.before|; var end := at + |Colon(Literal(p.name), p.gap, p.mid, Spell(p.value))|;
            && SkipSpaces(s, i) == at < |s| && IsHead(At(s, at)) && end <= |s|
            && MemberAt(s, at, nesting) == ExpectedPair(Entry(AsName(Denoted(p.name)), Meaning(p.value)), nesting, end)
            && Layout(p.after) && Holds(s, end, p.after) && Holds(s, end + |p.after|, onward)
    decreases p, 1
  {
    hide Holds, SkipSpaces, Layout, MemberAt, Spell, Meaning, Ends, IsHead, Legal, LegalPairs, ExpectedPair;
    hide Literal, LegalChars, CharsBytes, Colon, Denoted, AsName;
    PairParts(p);
    var core := Colon(Literal(p.name), p.gap, p.mid, Spell(p.value));
    var at := i + |p.before|;
    HoldsConcat4(s, i, p.before, core, p.after, onward);
    ColonHead(p.name, p.gap, p.mid, Spell(p.value));
    HeadOf(s, i, p.before, core);
    HoldsConcat(s, at + |core|, p.after, onward);
    ElementEnds(s, at + |core|, p.value, p.after, onward);
    PairIsRead(s, at, p, nesting);
    HoldsElements(s, at, core);
  }

  /** The object loop, behind the members `before`, reads the pairs that are spelled out up to the closing brace. */
  lemma {:induction false} PairsAreRead(s: CString, i: nat, p: Pairs, comma: bool, pad: seq<byte>, nesting: nat, before: seq<Entry<Json>>)
    requires p.Pair? && LegalPairs(p) && Layout(pad) && Distinct(before + PairValues(p))
    requires Holds(s, i, SpellPairs(p, Tail(comma, pad, RBRACE)))
    ensures i <= |s| && IsHead(At(s, SkipSpaces(s, i)))
    ensures MembersAt(s, SkipSpaces(s, i), nesting, before)
            == if nesting + MembersHeight(PairValues(p)) <= MAX_NESTING + 1
               then Done(Object(before + PairValues(p)), i + |SpellPairs(p, Tail(comma, pad, RBRACE))|)
               else Failed(Rejected)
    decreases p, 2
  {
    hide Holds, SkipSpaces, Layout, MembersAt, MemberAt, Spell, SpellPairs, Meaning, Height, Tail, IsHead, Legal, LegalPairs, PairValues;
    hide Literal, LegalChars, CharsBytes, Colon, Denoted, AsName, Distinct, HasName, ExpectedPair;
    var tail, m := Tail(comma, pad, RBRACE), Entry(AsName(Denoted(p.name)), Meaning(p.value));
    var rest := SpellPairs(p.rest, tail);
    var end := i + |p.before| + |Colon(Literal(p.name), p.gap, p.mid, Spell(p.value))|;
    PairParts(p);
    TailHead(comma, pad, RBRACE);
    if p.rest.NoPairs? {
      EmptyIsLegal(tail);
    }
    FirstPairIsRead(s, i, p, Onwards(p.rest.Pair?, rest), nesting);
    HeadIsNoBracket(At(s, SkipSpaces(s, i)));
    NewName(before, m, PairValues(p.rest));
    PairsHeight(m, PairValues(p.rest));
    hide MembersHeight;
    if p.rest.NoPairs? {
      TailCloses(s, end, p.after, comma, pad, RBRACE);
      LastPair(s, SkipSpaces(s, i), nesting, before, m, end, comma, end + |p.after| + |tail|);
    } else {
      CommaFollows(s, end, p.after, rest);
      var next := end + |p.after| + 1;
      assert before + [m] + PairValues(p.rest) == before + PairValues(p);
      PairsAreRead(s, next, p.rest, comma, pad, nesting, before + [m]);
      HeadIsNoBracket(At(s, SkipSpaces(s, next)));
      NotLastPair(s, SkipSpaces(s, i), nesting, before, m, end, SkipSpaces(s, next));
    }
  }

  lemma ColonHead(name: seq<Char>, gap: seq<byte>, mid: seq<byte>, v: seq<byte>)
    ensures var t := Colon(Literal(name), gap, mid, v); t != [] && t[0] == QUOTE && IsHead(QUOTE)
  {
  }

  lemma NewName(before: seq<Entry<Json>>, m: Entry<Json>, rest: seq<Entry<Json>>)
    requires Distinct(before + ([m] + rest))
    ensures !HasName(before, m.name)
  {
    var all := before + ([m] + rest);
    assert all[|before|] == m;
    assert forall k :: 0 <= k < |before| ==> all[k] == before[k];
  }

  /** One pair: the name, the colon behind layout, and the value behind layout. */
  lemma PairIsRead(s: CString, i: nat, p: Pairs, nesting: nat)
    requires p.Pair? && LegalPairs(p) && Holds(s, i, Colon(Literal(p.name), p.gap, p.mid, Spell(p.value)))
    requires Ends(s, i + |Colon(Literal(p.name), p.gap, p.mid, Spell(p.value))|, p.value)
    ensures i <= |s|
    ensures MemberAt(s, i, nesting)
            == ExpectedPair(Entry(AsName(Denoted(p.name)), Meaning(p.value)), nesting,
                            i + |Colon(Literal(p.name), p.gap, p.mid, Spell(p.value))|)
    decreases p, 0
  {
    hide Holds, SkipSpaces, Layout, ValueAt, Spell, Meaning, Height, Ends, Literal, LegalChars, CharsBytes, QuotedAt, LegalPairs, Legal, PairValues;
    PairParts(p);
    var name, v := Literal(p.name), Spell(p.value);
    var colon := i + |name| + |p.gap|;
    HoldsConcat4(s, i, name, p.gap + [COLON], p.mid, v);
    HoldsConcat(s, i + |name|, p.gap, [COLON]);
    HoldsElements(s, i, name);
    HoldsElements(s, colon, [COLON]);
    LiteralIsRead(s, i, p.name);
    SpacesSkip(s, i + |name|, p.gap);
    SkipsNothing(s, colon);
    SpacesSkip(s, colon + 1, p.mid);
    HoldsElements(s, colon + 1 + |p.mid|, v);
    ValueSkips(s, colon + 1, colon + 1 + |p.mid|, nesting);
    TreeIsRead(s, colon + 1 + |p.mid|, p.value, nesting);
  }

  lemma PairParts(p: Pairs)
    requires p.Pair?
    ensures LegalPairs(p) <==>
              && Layout(p.before) && Layout(p.gap) && Layout(p.mid) && Layout(p.after)
              && LegalChars(p.name) && NUL !in CharsBytes(p.name)
              && !p.value.Bare? && Legal(p.value) && LegalPairs(p.rest)
    ensures PairValues(p) == [Entry(AsName(Denoted(p.name)), Meaning(p.value))] + PairValues(p.rest)
    ensures p.rest.NoPairs? ==> PairValues(p.rest) == [] && PairValues(p) == [Entry(AsName(Denoted(p.name)), Meaning(p.value))]
    ensures forall tail :: SpellPairs(p, tail)
                           == p.before + Colon(Literal(p.name), p.gap, p.mid, Spell(p.value)) + p.after
                              + Onwards(p.rest.Pair?, SpellPairs(p.rest, tail))
  {
  }

  // --- Whatever is read, some legal text spells ---

  /** The tree `t` behind the layout `pad` spells the value that is read at `i`, up to `end`. */
  ghost predicate Derives(s: CString, i: nat, pad: seq<byte>, t: Tree, v: Json, end: nat) {
    && Layout(pad) && Legal(t) && Meaning(t) == v
    && Holds(s, i, pad + Spell(t)) && end == i + |pad| + |Spell(t)| && Ends(s, end, t)
  }

  lemma SkippedHolds(s: CString, i: nat)
    requires i <= |s|
    ensures var pad := s[i..SkipSpaces(s, i)]; Layout(pad) && Holds(s, i, pad)
  {
    SkippedIsLayout(s, i);
  }

  lemma NumberIsSpelled(s: CString, i: nat) returns (t: Tree)
    requires i <= |s| && NumberAt(s, i).Done? && (At(s, i) == MINUS || IsDigit(At(s, i)))
    ensures Derives(s, i, [], t, NumberAt(s, i).value, NumberAt(s, i).end)
  {
    hide StrtodAt, IsDecimal, BareAt, Spells, Derives;
    var r := NumberAt(s, i);
    FoundIsSpelled(s, i, Whole(r.value.n), r.end);
    if BareAt(s, i) && r.value.n == 0 && r.end == i {
      BareDerives(s, i);
      return Bare;
    }
    var f := FiguresAt(s, i);
    t := Numeral(f);
    NumeralDerives(s, i, f, r.value.n, r.end);
  }

  lemma BareDerives(s: CString, i: nat)
    requires i <= |s| && BareAt(s, i)
    ensures Derives(s, i, [], Bare, Number(0), i)
  {
    hide BareAt;
    assert [] + Spell(Bare) == [] && s[i..i] == [];
  }

  lemma NumeralDerives(s: CString, i: nat, f: Figures, n: int, end: nat)
    requires Spells(s, i, f, Whole(n), end)
    ensures Derives(s, i, [], Numeral(f), Number(n), end)
  {
    hide Stops, FiguresText, DoubleOf, Shaped, Derives;
    HoldsElements(s, i, FiguresText(f));
    DerivesAsItStands(s, i, Numeral(f), end);
  }

  lemma DerivesAsItStands(s: CString, i: nat, t: Tree, end: nat)
    requires Legal(t) && Holds(s, i, Spell(t)) && end == i + |Spell(t)| && Ends(s, end, t)
    ensures Derives(s, i, [], t, Meaning(t), end)
  {
    hide Legal, Holds, Spell, Ends, Meaning;
    LayoutOfNothing();
    assert [] + Spell(t) == Spell(t);
  }

  lemma StringIsSpelled(s: CString, i: nat) returns (t: Tree)
    requires i <= |s| && StringAt(s, i).Done?
    ensures Derives(s, i, [], t, StringAt(s, i).value, StringAt(s, i).end)
  {
    hide QuotedAt, LegalChars, CharsBytes, Literal;
    var q := QuotedAt(s, i).value;
    var chars := QuotedIsLiteral(s, i, q.0, q.1);
    t := Quotation(chars);
    assert [] + Spell(t) == Literal(chars);
  }

  lemma WordIsSpelled(s: CString, i: nat, v: Json, end: nat) returns (t: Tree)
    requires i <= |s| && (BooleanAt(s, i) == Done(v, end) || TokenAt(s, i, NULL, Null) == Done(v, end))
    ensures Derives(s, i, [], t, v, end)
  {
    t := Word(v);
    assert [] + Spell(t) == Spell(t);
  }

  lemma {:induction false} ValueIsSpelled(s: CString, i: nat, nesting: nat) returns (pad: seq<byte>, t: Tree)
    requires i <= |s| && ValueAt(s, i, nesting).Done?
    ensures Derives(s, i, pad, t, ValueAt(s, i, nesting).value, ValueAt(s, i, nesting).end)
    decreases |s| - i, 2
  {
    hide Derives, SkipSpaces, NumberAt, StringAt, BooleanAt, TokenAt, ArrayAt, ObjectAt;
    var j := SkipSpaces(s, i);
    var c, r := At(s, j), ValueAt(s, i, nesting);
    pad := s[i..j];
    SkippedHolds(s, i);
    if c == LBRACE {
      t := ObjectIsSpelled(s, j, nesting + 1);
    } else if c == LBRACKET {
      t := ArrayIsSpelled(s, j, nesting + 1);
    } else if c == QUOTE {
      t := StringIsSpelled(s, j);
    } else if c == 0x66 || c == 0x74 {
      t := WordIsSpelled(s, j, r.value, r.end);
    } else if c == MINUS || IsDigit(c) {
      t := NumberIsSpelled(s, j);
    } else {
      t := WordIsSpelled(s, j, r.value, r.end);
    }
    PadDerives(s, i, pad, t, r.value, r.end);
  }

  lemma PadDerives(s: CString, i: nat, pad: seq<byte>, t: Tree, v: Json, end: nat)
    requires Derives(s, i + |pad|, [], t, v, end) && Layout(pad) && Holds(s, i, pad)
    ensures Derives(s, i, pad, t, v, end)
  {
    hide Holds, Layout, Legal, Meaning, Spell, Ends;
    assert [] + Spell(t) == Spell(t);
    HoldsConcat(s, i, pad, Spell(t));
  }

  lemma {:induction false} ArrayIsSpelled(s: CString, i: nat, nesting: nat) returns (t: Tree)
    requires i < |s| && At(s, i) == LBRACKET && ArrayAt(s, i, nesting).Done?
    ensures Derives(s, i, [], t, ArrayAt(s, i, nesting).value, ArrayAt(s, i, nesting).end)
    decreases |s| - i, 1
  {
    hide SkipSpaces, ItemsAt, Holds, Tail, SpellElements, LegalElements, Layout, Derives;
    var j := SkipSpaces(s, i + 1);
    var items, comma, pad := NoElements, false, s[i + 1..j];
    if At(s, j) == RBRACKET {
      SkippedHolds(s, i + 1);
      TailIsSpelled(s, i + 1, pad, RBRACKET);
      EmptyIsLegal(Tail(comma, pad, RBRACKET));
    } else {
      items, comma, pad := ElementsAreSpelled(s, i + 1, nesting, []);
      assert [] + ElementValues(items) == ElementValues(items);
    }
    t := List(items, comma, pad);
    ListDerives(s, i, items, comma, pad);
  }

  lemma ListDerives(s: CString, i: nat, items: Elements, comma: bool, pad: seq<byte>)
    requires i < |s| && s[i] == LBRACKET && LegalElements(items) && Layout(pad) && (comma ==> items.Element?)
    requires Holds(s, i + 1, SpellElements(items, Tail(comma, pad, RBRACKET)))
    ensures Derives(s, i, [], List(items, comma, pad), Array(ElementValues(items)),
                    i + 1 + |SpellElements(items, Tail(comma, pad, RBRACKET))|)
  {
    hide Holds, Tail, SpellElements, LegalElements, Layout;
    HoldsByte(s, i);
    HoldsConcat(s, i, [LBRACKET], SpellElements(items, Tail(comma, pad, RBRACKET)));
    LayoutOfNothing();
    assert [] + Spell(List(items, comma, pad)) == Spell(List(items, comma, pad));
    HoldsElements(s, i + 1, SpellElements(items, Tail(comma, pad, RBRACKET)));
  }

  lemma RecordDerives(s: CString, i: nat, pairs: Pairs, comma: bool, pad: seq<byte>)
    requires i < |s| && s[i] == LBRACE && LegalPairs(pairs) && Distinct(PairValues(pairs)) && Layout(pad) && (comma ==> pairs.Pair?)
    requires Holds(s, i + 1, SpellPairs(pairs, Tail(comma, pad, RBRACE)))
    ensures Derives(s, i, [], Record(pairs, comma, pad), Object(PairValues(pairs)),
                    i + 1 + |SpellPairs(pairs, Tail(comma, pad, RBRACE))|)
  {
    hide Holds, Tail, SpellPairs, LegalPairs, Layout, Distinct;
    HoldsByte(s, i);
    HoldsConcat(s, i, [LBRACE], SpellPairs(pairs, Tail(comma, pad, RBRACE)));
    LayoutOfNothing();
    assert [] + Spell(Record(pairs, comma, pad)) == Spell(Record(pairs, comma, pad));
    HoldsElements(s, i + 1, SpellPairs(pairs, Tail(comma, pad, RBRACE)));
  }

  lemma EmptyIsLegal(tail: seq<byte>)
    ensures LegalElements(NoElements) && SpellElements(NoElements, tail) == tail && ElementValues(NoElements) == []
    ensures LegalPairs(NoPairs) && SpellPairs(NoPairs, tail) == tail && PairValues(NoPairs) == []
  {
  }

  lemma LayoutOfNothing()
    ensures Layout([])
  {
  }

  lemma HoldsByte(s: CString, i: nat)
    requires i < |s|
    ensures Holds(s, i, [s[i]]) && At(s, i) == s[i]
  {
  }

  /** Layout and then a closing bracket. */
  lemma TailIsSpelled(s: CString, i: nat, pad: seq<byte>, close: byte)
    requires Holds(s, i, pad) && i + |pad| < |s| && s[i + |pad|] == close
    ensures Holds(s, i, Tail(false, pad, close)) && |Tail(false, pad, close)| == |pad| + 1
  {
    HoldsByte(s, i + |pad|);
    HoldsConcat(s, i, pad, [close]);
    assert Tail(false, pad, close) == pad + [close];
  }

  lemma CommaTailIsSpelled(s: CString, i: nat, pad: seq<byte>, close: byte)
    requires i < |s| && s[i] == COMMA && Holds(s, i + 1, pad) && i + 1 + |pad| < |s| && s[i + 1 + |pad|] == close
    ensures Holds(s, i, Tail(true, pad, close)) && |Tail(true, pad, close)| == |pad| + 2
  {
    HoldsByte(s, i);
    HoldsByte(s, i + 1 + |pad|);
    HoldsConcat(s, i, [COMMA] + pad, [close]);
    HoldsConcat(s, i, [COMMA], pad);
  }

  /** An element, what stands behind it, and the spelling of both. */
  lemma ElementJoins(s: CString, i: nat, e: Elements, tail: seq<byte>)
    requires e.Element? && Layout(e.before) && Layout(e.after) && !e.value.Bare? && Legal(e.value) && LegalElements(e.rest)
    requires Holds(s, i, e.before + Spell(e.value))
    requires var end := i + |e.before| + |Spell(e.value)|;
             Holds(s, end, e.after) && Holds(s, end + |e.after|, Onwards(e.rest.Element?, SpellElements(e.rest, tail)))
    ensures LegalElements(e) && Holds(s, i, SpellElements(e, tail))
    ensures |SpellElements(e, tail)|
            == |e.before| + |Spell(e.value)| + |e.after| + |Onwards(e.rest.Element?, SpellElements(e.rest, tail))|
  {
    hide Holds, Layout, Legal, LegalElements, Spell, SpellElements;
    ElementParts(e);
    HoldsConcat(s, i, e.before, Spell(e.value));
    HoldsConcat4(s, i, e.before, Spell(e.value), e.after, Onwards(e.rest.Element?, SpellElements(e.rest, tail)));
  }

  /** The value the array loop reads first is spelled out, and layout stands behind it. */
  lemma {:induction false} FirstIsSpelled(s: CString, i: nat, nesting: nat)
    returns (before: seq<byte>, t: Tree, after: seq<byte>)
    requires i <= |s| && ValueAt(s, i, nesting).Done?
    requires var j := SkipSpaces(s, ValueAt(s, i, nesting).end); At(s, j) == COMMA || At(s, j) == RBRACKET
    ensures Layout(before) && Layout(after) && Legal(t) && !t.Bare? && Holds(s, i, before + Spell(t))
    ensures var r := ValueAt(s, i, nesting);
            && Meaning(t) == r.value && r.end == i + |before| + |Spell(t)| && i < r.end <= |s|
            && Holds(s, r.end, after) && SkipSpaces(s, r.end) == r.end + |after|
    decreases |s| - i, 3
  {
    hide SkipSpaces, ValueAt, Holds, Layout, Spell, Meaning, Ends, Legal;
    before, t := ValueIsSpelled(s, i, nesting);
    var end := ValueAt(s, i, nesting).end;
    after := s[end..SkipSpaces(s, end)];
    SkippedHolds(s, end);
    NotBare(s, t, end);
    SpellHead(t);
  }

  /** What the array loop does behind an element. */
  function ElementsGoOn(s: CString, j: nat, nesting: nat, before: seq<Json>): Parse<Json>
    requires j <= |s|
  {
    if At(s, j) != COMMA then CloseArray(s, j, before)
    else
      var k := SkipSpaces(s, j + 1);
      if At(s, k) == RBRACKET then CloseArray(s, k, before) else ItemsAt(s, k, nesting, before)
  }

  lemma {:induction false} MoreIsSpelled(s: CString, j: nat, nesting: nat, before: seq<Json>)
    returns (rest: Elements, comma: bool, pad: seq<byte>)
    requires j <= |s| && ElementsGoOn(s, j, nesting, before).Done?
    ensures LegalElements(rest) && Layout(pad)
    ensures var r, text := ElementsGoOn(s, j, nesting, before), Onwards(rest.Element?, SpellElements(rest, Tail(comma, pad, RBRACKET)));
            Holds(s, j, text) && r.value == Array(before + ElementValues(rest)) && r.end == j + |text|
    decreases |s| - j, 5
  {
    hide SkipSpaces, ItemsAt, Holds, Tail, Layout, SpellElements, LegalElements;
    rest := NoElements;
    assert before + ElementValues(NoElements) == before;
    if At(s, j) != COMMA {
      pad, comma := [], false;
      LayoutOfNothing();
      HoldsNothing(s, j);
      TailIsSpelled(s, j, pad, RBRACKET);
      EmptyIsLegal(Tail(comma, pad, RBRACKET));
    } else {
      var k := SkipSpaces(s, j + 1);
      if At(s, k) == RBRACKET {
        pad, comma := s[j + 1..k], true;
        SkippedHolds(s, j + 1);
        CommaTailIsSpelled(s, j, pad, RBRACKET);
        EmptyIsLegal(Tail(comma, pad, RBRACKET));
      } else {
        rest, comma, pad := ElementsAreSpelled(s, j + 1, nesting, before);
        CommaIsSpelled(s, j, SpellElements(rest, Tail(comma, pad, RBRACKET)));
      }
    }
  }

  /** The array loop has read elements that are spelled out from behind the bracket or comma at `i - 1`. */
  lemma {:induction false} ElementsAreSpelled(s: CString, i: nat, nesting: nat, before: seq<Json>)
    returns (e: Elements, comma: bool, pad: seq<byte>)
    requires i <= |s| && ItemsAt(s, SkipSpaces(s, i), nesting, before).Done?
    ensures e.Element? && LegalElements(e) && Layout(pad)
    ensures var r, text := ItemsAt(s, SkipSpaces(s, i), nesting, before), SpellElements(e, Tail(comma, pad, RBRACKET));
            Holds(s, i, text) && r.value == Array(before + ElementValues(e)) && r.end == i + |text|
    decreases |s| - i, 4
  {
    hide SkipSpaces, ItemsAt, ValueAt, Holds, Tail, Layout, Spell, SpellElements, LegalElements, ElementValues, Meaning, Ends, Legal;
    ItemsStep(s, SkipSpaces(s, i), nesting, before);
    SkipsTwice(s, i);
    ValueSkips(s, i, SkipSpaces(s, i), nesting);
    var end, v := ValueAt(s, i, nesting).end, ValueAt(s, i, nesting).value;
    var first, t, after := FirstIsSpelled(s, i, nesting);
    var rest;
    rest, comma, pad := MoreIsSpelled(s, SkipSpaces(s, end), nesting, before + [v]);
    hide ElementsGoOn;
    e := Element(first, t, after, rest);
    ElementParts(e);
    ElementJoins(s, i, e, Tail(comma, pad, RBRACKET));
    assert before + [v] + ElementValues(rest) == before + ElementValues(e);
  }

  lemma CommaIsSpelled(s: CString, i: nat, next: seq<byte>)
    requires i < |s| && s[i] == COMMA && Holds(s, i + 1, next)
    ensures Holds(s, i, Onwards(true, next)) && |Onwards(true, next)| == 1 + |next|
  {
    HoldsByte(s, i);
    HoldsConcat(s, i, [COMMA], next);
  }

  /** Behind a bare minus sign the sign is still there, so no container goes on. */
  lemma NotBare(s: CString, t: Tree, i: nat)
    requires Ends(s, i, t)
    ensures t.Bare? ==> SkipSpaces(s, i) == i && At(s, i) == MINUS
  {
    if t.Bare? {
      SkipsNothing(s, i);
    }
  }

  lemma SkipsTwice(s: CString, i: nat)
    requires i <= |s|
    ensures SkipSpaces(s, SkipSpaces(s, i)) == SkipSpaces(s, i)
  {
    SkipsNothing(s, SkipSpaces(s, i));
  }

  lemma {:induction false} ObjectIsSpelled(s: CString, i: nat, nesting: nat) returns (t: Tree)
    requires i < |s| && At(s, i) == LBRACE && ObjectAt(s, i, nesting).Done?
    ensures Derives(s, i, [], t, ObjectAt(s, i, nesting).value, ObjectAt(s, i, nesting).end)
    decreases |s| - i, 1
  {
    hide SkipSpaces, MembersAt, Holds, Tail, SpellPairs, LegalPairs, Layout, Derives;
    var j := SkipSpaces(s, i + 1);
    var pairs, comma, pad := NoPairs, false, s[i + 1..j];
    if At(s, j) == RBRACE {
      SkippedHolds(s, i + 1);
      TailIsSpelled(s, i + 1, pad, RBRACE);
      EmptyIsLegal(Tail(comma, pad, RBRACE));
    } else {
      pairs, comma, pad := PairsAreSpelled(s, i + 1, nesting, []);
      assert [] + PairValues(pairs) == PairValues(pairs);
    }
    t := Record(pairs, comma, pad);
    RecordDerives(s, i, pairs, comma, pad);
  }

  /** One pair that has been read is spelled out. */
  lemma {:induction false} PairIsSpelled(s: CString, i: nat, nesting: nat)
    returns (name: seq<Char>, gap: seq<byte>, mid: seq<byte>, t: Tree)
    requires i <= |s| && MemberAt(s, i, nesting).Done?
    ensures Layout(gap) && Layout(mid) && LegalChars(name) && NUL !in CharsBytes(name) && Legal(t)
    ensures var r, text := MemberAt(s, i, nesting), Colon(Literal(name), gap, mid, Spell(t));
            && Holds(s, i, text) && r.value == Entry(AsName(Denoted(name)), Meaning(t)) && r.end == i + |text| && Ends(s, r.end, t)
    decreases |s| - i, 3
  {
    hide SkipSpaces, ValueAt, Holds, Layout, Spell, Meaning, Ends, Legal, QuotedAt, LegalChars, CharsBytes, Literal;
    var q := QuotedAt(s, i).value;
    name := QuotedIsLiteral(s, i, q.0, q.1);
    var j := SkipSpaces(s, q.1);
    gap := s[q.1..j];
    SkippedHolds(s, q.1);
    HoldsByte(s, j);
    HoldsConcat(s, q.1, gap, [COLON]);
    mid, t := ValueIsSpelled(s, j + 1, nesting);
    HoldsConcat(s, j + 1, mid, Spell(t));
    HoldsConcat4(s, i, Literal(name), gap + [COLON], mid, Spell(t));
  }

  /** A pair, what stands behind it, and the spelling of both. */
  lemma PairJoins(s: CString, i: nat, p: Pairs, tail: seq<byte>)
    requires p.Pair? && Layout(p.before) && Layout(p.gap) && Layout(p.mid) && Layout(p.after)
    requires LegalChars(p.name) && NUL !in CharsBytes(p.name) && !p.value.Bare? && Legal(p.value) && LegalPairs(p.rest)
    requires var core := Colon(Literal(p.name), p.gap, p.mid, Spell(p.value)); var end := i + |p.before| + |core|;
             && Holds(s, i, p.before) && Holds(s, i + |p.before|, core)
             && Holds(s, end, p.after) && Holds(s, end + |p.after|, Onwards(p.rest.Pair?, SpellPairs(p.rest, tail)))
    ensures LegalPairs(p) && Holds(s, i, SpellPairs(p, tail))
    ensures |SpellPairs(p, tail)|
            == |p.before| + |Colon(Literal(p.name), p.gap, p.mid, Spell(p.value))| + |p.after|
               + |Onwards(p.rest.Pair?, SpellPairs(p.rest, tail))|
  {
    hide Holds, Layout, Legal, LegalPairs, Spell, SpellPairs, Colon, Literal, LegalChars, CharsBytes;
    PairParts(p);
    HoldsConcat4(s, i, p.before, Colon(Literal(p.name), p.gap, p.mid, Spell(p.value)), p.after,
                 Onwards(p.rest.Pair?, SpellPairs(p.rest, tail)));
  }

  /** What the object loop does behind a pair. */
  function PairsGoOn(s: CString, j: nat, nesting: nat, before: seq<Entry<Json>>): Parse<Json>
    requires j <= |s|
  {
    if At(s, j) != COMMA then CloseObject(s, j, before)
    else
      var k := SkipSpaces(s, j + 1);
      if At(s, k) == RBRACE then CloseObject(s, k, before) else MembersAt(s, k, nesting, before)
  }

  lemma {:induction false} GoingOnIsSpelled(s: CString, j: nat, nesting: nat, before: seq<Entry<Json>>)
    returns (rest: Pairs, comma: bool, pad: seq<byte>)
    requires j <= |s| && Distinct(before) && PairsGoOn(s, j, nesting, before).Done?
    ensures LegalPairs(rest) && Layout(pad) && Distinct(before + PairValues(rest))
    ensures var r, text := PairsGoOn(s, j, nesting, before), Onwards(rest.Pair?, SpellPairs(rest, Tail(comma, pad, RBRACE)));
            Holds(s, j, text) && r.value == Object(before + PairValues(rest)) && r.end == j + |text|
    decreases |s| - j, 5
  {
    hide SkipSpaces, MembersAt, Holds, Tail, Layout, SpellPairs, LegalPairs, Distinct;
    rest := NoPairs;
    assert before + PairValues(NoPairs) == before;
    if At(s, j) != COMMA {
      pad, comma := [], false;
      LayoutOfNothing();
      HoldsNothing(s, j);
      TailIsSpelled(s, j, pad, RBRACE);
      EmptyIsLegal(Tail(comma, pad, RBRACE));
    } else {
      var k := SkipSpaces(s, j + 1);
      if At(s, k) == RBRACE {
        pad, comma := s[j + 1..k], true;
        SkippedHolds(s, j + 1);
        CommaTailIsSpelled(s, j, pad, RBRACE);
        EmptyIsLegal(Tail(comma, pad, RBRACE));
      } else {
        rest, comma, pad := PairsAreSpelled(s, j + 1, nesting, before);
        CommaIsSpelled(s, j, SpellPairs(rest, Tail(comma, pad, RBRACE)));
      }
    }
  }

  /** The object loop has read pairs that are spelled out from behind the brace or comma at `i - 1`. */
  lemma {:induction false} PairsAreSpelled(s: CString, i: nat, nesting: nat, before: seq<Entry<Json>>)
    returns (p: Pairs, comma: bool, pad: seq<byte>)
    requires i <= |s| && Distinct(before) && MembersAt(s, SkipSpaces(s, i), nesting, before).Done?
    ensures p.Pair? && LegalPairs(p) && Layout(pad) && Distinct(before + PairValues(p))
    ensures var r, text := MembersAt(s, SkipSpaces(s, i), nesting, before), SpellPairs(p, Tail(comma, pad, RBRACE));
            Holds(s, i, text) && r.value == Object(before + PairValues(p)) && r.end == i + |text|
    decreases |s| - i, 4
  {
    hide SkipSpaces, MembersAt, MemberAt, Holds, Tail, Layout, Spell, SpellPairs, LegalPairs, PairValues, Meaning, Ends, Legal;
    hide LegalChars, CharsBytes, Literal, Colon, Distinct, HasName, Denoted, AsName;
    var at := SkipSpaces(s, i);
    MembersStep(s, at, nesting, before);
    SkippedHolds(s, i);
    var name, gap, mid, t := PairIsSpelled(s, at, nesting);
    var m, end := MemberAt(s, at, nesting).value, MemberAt(s, at, nesting).end;
    SkippedHolds(s, end);
    NotBare(s, t, end);
    AppendNew(before, m);
    var rest;
    rest, comma, pad := GoingOnIsSpelled(s, SkipSpaces(s, end), nesting, before + [m]);
    hide PairsGoOn;
    p := Pair(s[i..at], name, gap, mid, t, s[end..SkipSpaces(s, end)], rest);
    PairParts(p);
    PairJoins(s, i, p, Tail(comma, pad, RBRACE));
    assert before + [m] + PairValues(rest) == before + PairValues(p);
  }

  lemma AppendNew(before: seq<Entry<Json>>, m: Entry<Json>)
    requires Distinct(before) && !HasName(before, m.name)
    ensures Distinct(before + [m])
  {
  }

  // --- Main result ---

  /** A value is read at a position exactly when some legal text that means it stands there and it is not nested too deeply. */
  lemma ReadIffSpelled(s: CString, i: nat, nesting: nat, v: Json, end: nat)
    requires i <= |s|
    ensures ValueAt(s, i, nesting) == Done(v, end)
            <==> nesting + Height(v) <= 2048 && exists pad, t :: Derives(s, i, pad, t, v, end)
  {
    hide ValueAt, Derives, Height;
    if ValueAt(s, i, nesting) == Done(v, end) {
      var pad, t := ValueIsSpelled(s, i, nesting);
      DerivedIsRead(s, i, nesting, pad, t, v, end);
    }
    if pad, t :| Derives(s, i, pad, t, v, end) {
      DerivedIsRead(s, i, nesting, pad, t, v, end);
    }
  }

  lemma DerivedIsRead(s: CString, i: nat, nesting: nat, pad: seq<byte>, t: Tree, v: Json, end: nat)
    requires i <= |s| && Derives(s, i, pad, t, v, end)
    ensures ValueAt(s, i, nesting) == Expected(v, nesting, end)
  {
    hide Holds, Layout, Legal, Meaning, Spell, Ends, ValueAt, Expected;
    HoldsConcat(s, i, pad, Spell(t));
    HoldsElements(s, i, pad);
    SpacesSkip(s, i, pad);
    ValueSkips(s, i, i + |pad|, nesting);
    TreeIsRead(s, i + |pad|, t, nesting);
  }

  /** Where a text starts: behind the byte order mark, if it has one. */
  function Start(s: CString): (i: nat)
    ensures i <= |s|
  {
    if Holds(s, 0, BOM) then |BOM| else 0
  }

  /**
   * The parser accepts a text as the value `v` up to `end` exactly when the text starts with a legal spelling of `v`
   * that ends there; what stands behind it plays no part, except that it may not continue a numeral.
   */
  lemma ParseIffSpelled(s: CString, v: Json, end: nat)
    ensures ParseString(s) == Done(v, end)
            <==> Height(v) <= 2048 && exists pad, t :: Derives(s, Start(s), pad, t, v, end)
  {
    hide Derives, ValueAt, Height;
    ReadIffSpelled(s, Start(s), 0, v, end);
  }

  /** Legal trees mean well-formed values. */
  lemma {:induction false} LegalMeansWellFormed(t: Tree)
    requires Legal(t)
    ensures WellFormed(Meaning(t))
    decreases t, 1
  {
    hide LegalElements, LegalPairs, Scaled;
    match t
    case List(items, _, _) => ElementsAreWellFormed(items);
    case Record(pairs, _, _) => PairsAreWellFormed(pairs);
    case _ =>
  }

  lemma {:induction false} ElementsAreWellFormed(e: Elements)
    requires LegalElements(e)
    ensures forall k :: 0 <= k < |ElementValues(e)| ==> WellFormed(ElementValues(e)[k])
    decreases e, 0
  {
    hide Legal, WellFormed;
    if e.Element? {
      LegalMeansWellFormed(e.value);
      ElementsAreWellFormed(e.rest);
    }
  }

  lemma {:induction false} PairsAreWellFormed(p: Pairs)
    requires LegalPairs(p)
    ensures forall k :: 0 <= k < |PairValues(p)| ==> WellFormed(PairValues(p)[k].value)
    decreases p, 0
  {
    hide Legal, WellFormed, LegalChars;
    if p.Pair? {
      LegalMeansWellFormed(p.value);
      PairsAreWellFormed(p.rest);
    }
  }

  /** Every accepted value has distinct NUL-free names in each object, exact numbers, and stays within the nesting limit. */
  lemma ParsedIsWellFormed(s: CString, i: nat, nesting: nat)
    requires i <= |s| && ValueAt(s, i, nesting).Done?
    ensures var v := ValueAt(s, i, nesting).value; WellFormed(v) && nesting + Height(v) <= 2048
  {
    hide ValueAt, Height, WellFormed, Legal, Meaning;
    var r := ValueAt(s, i, nesting);
    var pad, t := ValueIsSpelled(s, i, nesting);
    DerivedIsRead(s, i, nesting, pad, t, r.value, r.end);
    LegalMeansWellFormed(t);
  }
}
