/** Quoted strings in a text: `skip_quotes`, `process_string` and the escapes `json_serialize_string` writes. */
module Quotes {
  import opened Bytes
  import opened Utf8
  import opened StringCodec

  // --- Where a quoted string ends ---

  /** The position behind the closing quote, scanning from inside the string. */
  function ScanFrom(s: CString, i: nat): (r: Option<nat>)
    requires i <= |s|
    ensures r.Some? ==> i < r.value <= |s| && s[r.value - 1] == QUOTE
    decreases |s| - i
  {
    if At(s, i) == QUOTE then Some(i + 1)
    else if At(s, i) == NUL then None
    else if At(s, i) == BACKSLASH then
      if At(s, i + 1) == NUL then None else ScanFrom(s, i + 2)
    else ScanFrom(s, i + 1)
  }

  function SkipQuotesAt(s: CString, i: nat): (r: Option<nat>)
    requires i <= |s|
    ensures r.Some? ==> i + 2 <= r.value <= |s| && s[i] == s[r.value - 1] == QUOTE
  {
    if At(s, i) != QUOTE then None else ScanFrom(s, i + 1)
  }

  /** From `i` on, no quote of the span stands unescaped and no backslash dangles. */
  predicate Aligned(t: seq<byte>, i: nat)
    decreases |t| - i
  {
    i == |t| || (i < |t| && t[i] != QUOTE && if t[i] == BACKSLASH then Aligned(t, i + 2) else Aligned(t, i + 1))
  }

  lemma {:induction false} ScanAligns(s: CString, i: nat, from: nat)
    requires from <= i <= |s| && ScanFrom(s, i).Some?
    ensures Aligned(s[from..ScanFrom(s, i).value - 1], i - from)
    decreases |s| - i
  {
    if At(s, i) != QUOTE {
      var next := if At(s, i) == BACKSLASH then i + 2 else i + 1;
      ScanAligns(s, next, from);
      assert ScanFrom(s, i) == ScanFrom(s, next);
    }
  }

  /** The quoted string at `i`: what it denotes, and the position behind it. */
  function QuotedAt(s: CString, i: nat): (r: Option<(seq<byte>, nat)>)
    requires i <= |s|
    ensures r.Some? ==> i + 2 <= r.value.1 <= |s|
  {
    match SkipQuotesAt(s, i)
    case None => None
    case Some(end) =>
      match Unescape(s[i + 1..end - 1])
      case None => None
      case Some(text) => Some((text, end))
  }

  method SkipQuotes(s: CString, i: nat) returns (ok: bool, end: nat)
    requires i <= |s|
    ensures ok == SkipQuotesAt(s, i).Some?
    ensures ok ==> end == SkipQuotesAt(s, i).value
  {
    end := i;
    if At(s, end) != QUOTE {
      return false, end;
    }
    end := end + 1;
    while At(s, end) != QUOTE
      invariant end <= |s|
      invariant ScanFrom(s, end) == SkipQuotesAt(s, i)
      decreases |s| - end
    {
      if At(s, end) == NUL {
        return false, end;
      } else if At(s, end) == BACKSLASH {
        end := end + 1;
        if At(s, end) == NUL {
          return false, end;
        }
      }
      end := end + 1;
    }
    return true, end + 1;
  }

  // --- Unescaping stays inside the quotes ---

  function Shifted(p: Option<Piece>, d: nat): Option<Piece> {
    match p
    case None => None
    case Some(q) => Some(Piece(q.out, q.next + d))
  }

  /** The span `t` is the text `s` from `start` up to a closing quote. */
  predicate SpanOf(s: CString, start: nat, t: seq<byte>) {
    start + |t| < |s| && t == s[start..start + |t|] && s[start + |t|] == QUOTE
  }

  lemma HexDigitsLocal(s: CString, start: nat, t: seq<byte>, i: nat)
    requires SpanOf(s, start, t) && i <= |t| && Aligned(t, i)
    ensures FourHexDigits(s, start + i) <==> FourHexDigits(t, i)
    ensures FourHexDigits(t, i) ==> Hex4(s, start + i) == Hex4(t, i) && Aligned(t, i + 4)
  {
    if FourHexDigits(s, start + i) {
      assert HexCharToInt(s[start + |t|]) < 0;
      assert forall k :: i <= k < i + 4 && k < |t| ==> t[k] == s[start + k];
    }
    if FourHexDigits(t, i) {
      assert forall k :: i <= k < i + 4 ==> s[start + k] == t[k];
      assert Aligned(t, i + 1);
      assert Aligned(t, i + 2);
      assert Aligned(t, i + 3);
    }
  }

  lemma EscapeLocal(s: CString, start: nat, t: seq<byte>, i: nat)
    requires SpanOf(s, start, t) && i <= |t| && Aligned(t, i)
    ensures Utf16At(s, start + i) == Shifted(Utf16At(t, i), start)
    ensures Utf16At(t, i).Some? ==> Aligned(t, Utf16At(t, i).value.next)
  {
    hide FourHexDigits, Hex4, Utf8Bytes;
    HexDigitsLocal(s, start, t, i);
    if FourHexDigits(t, i) && i + 4 <= |t| {
      if i + 4 < |t| && t[i + 4] == BACKSLASH {
        HexDigitsLocal(s, start, t, i + 6);
      }
      assert TrailAt(s, start + i + 4) <==> TrailAt(t, i + 4);
    }
  }

  /** On a span that `skip_quotes` accepted, a step reads nothing past the closing quote and stays aligned with the escapes. */
  lemma PieceLocal(s: CString, start: nat, t: seq<byte>, i: nat)
    requires SpanOf(s, start, t) && i < |t| && Aligned(t, i)
    ensures PieceAt(s, start + i) == Shifted(PieceAt(t, i), start)
    ensures PieceAt(t, i).Some? ==> Aligned(t, PieceAt(t, i).value.next)
  {
    hide Utf16At, SimpleEscape;
    assert t[i] == s[start + i];
    if t[i] == BACKSLASH && i + 1 < |t| {
      assert t[i + 1] == s[start + i + 1];
      EscapeLocal(s, start, t, i + 2);
    }
  }

  // --- How strings can be spelled ---

  /** One character of a string literal (RFC 8259, section 7): a byte as it is, a short escape, or a `\u` escape. */
  datatype Char = Plain(b: byte) | Short(letter: byte) | Unicode(cp: int, digits: seq<byte>)

  predicate LegalChar(c: Char) {
    match c
    case Plain(b) => b >= 0x20 && b != QUOTE && b != BACKSLASH
    case Short(letter) => SimpleEscape(letter).Some?
    case Unicode(cp, digits) => SpelledAt(digits, 0, cp) && |digits| == SpelledLength(cp)
  }

  function SpellChar(c: Char): (t: seq<byte>)
    ensures 1 <= |t|
  {
    match c
    case Plain(b) => [b]
    case Short(letter) => [BACKSLASH, letter]
    case Unicode(_, digits) => [BACKSLASH, 0x75] + digits
  }

  function CharBytes(c: Char): seq<byte>
    requires LegalChar(c)
  {
    match c
    case Plain(b) => [b]
    case Short(letter) => [SimpleEscape(letter).value]
    case Unicode(cp, _) => Encode(cp)
  }

  predicate LegalChars(cs: seq<Char>) {
    forall k :: 0 <= k < |cs| ==> LegalChar(cs[k])
  }

  function SpellChars(cs: seq<Char>): seq<byte> {
    if cs == [] then [] else SpellChar(cs[0]) + SpellChars(cs[1..])
  }

  function CharsBytes(cs: seq<Char>): seq<byte>
    requires LegalChars(cs)
  {
    if cs == [] then [] else CharBytes(cs[0]) + CharsBytes(cs[1..])
  }

  /** A string literal: its characters between quotes. */
  function Literal(cs: seq<Char>): (q: seq<byte>)
    ensures 2 <= |q|
  {
    [QUOTE] + SpellChars(cs) + [QUOTE]
  }

  lemma {:induction false} PlainScans(s: CString, i: nat, n: nat)
    requires i <= n <= |s| && forall k :: i <= k < n ==> s[k] != QUOTE && s[k] != BACKSLASH
    ensures ScanFrom(s, i) == ScanFrom(s, n)
    decreases n - i
  {
    if i < n {
      PlainScans(s, i + 1, n);
    }
  }

  /** The digits behind `\u` hold a backslash at most where the second escape of a pair starts. */
  lemma DigitsArePlain(digits: seq<byte>, cp: int)
    requires SpelledAt(digits, 0, cp) && |digits| == SpelledLength(cp)
    ensures forall k :: 0 <= k < |digits| && k != 4 ==> digits[k] != QUOTE && digits[k] != BACKSLASH && digits[k] != NUL
    ensures |digits| == 10 ==> digits[4] == BACKSLASH && digits[5] == 0x75
  {
    hide Hex4, Utf16Units, SpelledLength;
    assert forall k :: 0 <= k < 4 ==> HexCharToInt(digits[k]) >= 0;
    if |digits| == 10 {
      TwoUnits(cp);
      assert forall k :: 6 <= k < 10 ==> HexCharToInt(digits[k]) >= 0;
    }
  }

  lemma TwoUnits(cp: int)
    requires Scalar(cp)
    ensures SpelledLength(cp) == 10 <==> |Utf16Units(cp)| == 2
  {
  }

  lemma DigitsScan(s: CString, i: nat, digits: seq<byte>, cp: int)
    requires SpelledAt(digits, 0, cp) && |digits| == SpelledLength(cp) && Holds(s, i, digits)
    ensures ScanFrom(s, i) == ScanFrom(s, i + |digits|)
  {
    DigitsArePlain(digits, cp);
    HoldsElements(s, i, digits);
    hide SpelledAt, Holds;
    PlainScans(s, i, i + 4);
    if |digits| == 10 {
      assert s[i + 4] == BACKSLASH && s[i + 5] == 0x75;
      assert ScanFrom(s, i + 4) == ScanFrom(s, i + 6);
      PlainScans(s, i + 6, i + 10);
    }
  }

  lemma CharScans(s: CString, i: nat, c: Char)
    requires LegalChar(c) && Holds(s, i, SpellChar(c))
    ensures ScanFrom(s, i) == ScanFrom(s, i + |SpellChar(c)|)
  {
    hide SpelledAt, SpelledLength;
    HoldsElements(s, i, SpellChar(c));
    if c.Unicode? {
      HoldsConcat(s, i, [BACKSLASH, 0x75], c.digits);
      DigitsScan(s, i + 2, c.digits, c.cp);
    }
  }

  lemma CharReads(t: seq<byte>, i: nat, c: Char)
    requires LegalChar(c) && Holds(t, i, SpellChar(c))
    ensures PieceAt(t, i) == Some(Piece(CharBytes(c), i + |SpellChar(c)|))
  {
    hide Utf16At, SpelledAt, SpelledLength, Encode;
    HoldsElements(t, i, SpellChar(c));
    if c.Unicode? {
      HoldsConcat(t, i, [BACKSLASH, 0x75], c.digits);
      SpellingFits(c.digits, 0, c.cp);
      SpellingMoves(c.digits, t, i + 2, c.cp);
      SpelledIsRead(t, i + 2, c.cp);
    }
  }

  lemma SpellingFits(t: seq<byte>, i: nat, cp: int)
    requires SpelledAt(t, i, cp)
    ensures Scalar(cp) && i + SpelledLength(cp) <= |t|
  {
  }

  /** A scalar value is spelled wherever its digits stand. */
  lemma SpellingMoves(digits: seq<byte>, t: seq<byte>, i: nat, cp: int)
    requires Scalar(cp) && |digits| == SpelledLength(cp) && Holds(t, i, digits)
    ensures SpelledAt(t, i, cp) <==> SpelledAt(digits, 0, cp)
  {
    HoldsElements(t, i, digits);
    hide Utf16Units, SpelledLength, Holds;
    TwoUnits(cp);
    HexMoves(digits, 0, t, i);
    if |digits| == 10 {
      HexMoves(digits, 6, t, i + 6);
    }
  }

  lemma HexMoves(s: seq<byte>, i: nat, t: seq<byte>, j: nat)
    requires i + 4 <= |s| && j + 4 <= |t| && s[i..i + 4] == t[j..j + 4]
    ensures FourHexDigits(s, i) == FourHexDigits(t, j)
    ensures FourHexDigits(s, i) ==> Hex4(s, i) == Hex4(t, j)
  {
    var u := s[i..i + 4];
    assert forall k :: i <= k < i + 4 ==> s[k] == u[k - i] == t[j + (k - i)];
    assert forall k :: j <= k < j + 4 ==> t[k] == u[k - j] == s[i + (k - j)];
  }

  lemma {:induction false} CharsScan(s: CString, i: nat, cs: seq<Char>)
    requires LegalChars(cs) && Holds(s, i, SpellChars(cs))
    ensures ScanFrom(s, i) == ScanFrom(s, i + |SpellChars(cs)|)
    decreases |cs|
  {
    hide SpellChar, ScanFrom, LegalChar, Holds;
    if cs != [] {
      var e, rest := SpellChar(cs[0]), SpellChars(cs[1..]);
      HoldsConcat(s, i, e, rest);
      CharScans(s, i, cs[0]);
      CharsScan(s, i + |e|, cs[1..]);
    }
  }

  lemma SplitHead(t: seq<byte>, i: nat, e: seq<byte>, rest: seq<byte>)
    requires i <= |t| && t[i..] == e + rest
    ensures Holds(t, i, e) && i + |e| <= |t| && t[i + |e|..] == rest
  {
  }

  lemma UnescapeStep(t: seq<byte>, i: nat, p: Piece, rest: seq<byte>)
    requires i < |t| && PieceAt(t, i) == Some(p) && p.next <= |t| && UnescapeFrom(t, p.next) == Some(rest)
    ensures UnescapeFrom(t, i) == Some(p.out + rest)
  {
  }

  lemma {:induction false} CharsRead(t: seq<byte>, i: nat, cs: seq<Char>)
    requires LegalChars(cs) && i <= |t| && t[i..] == SpellChars(cs)
    ensures UnescapeFrom(t, i) == Some(CharsBytes(cs))
    decreases |cs|
  {
    hide SpellChar, PieceAt, LegalChar, CharBytes;
    if cs == [] {
      assert i == |t|;
    } else {
      var e, rest := SpellChar(cs[0]), SpellChars(cs[1..]);
      SplitHead(t, i, e, rest);
      CharReads(t, i, cs[0]);
      CharsRead(t, i + |e|, cs[1..]);
      UnescapeStep(t, i, Piece(CharBytes(cs[0]), i + |e|), CharsBytes(cs[1..]));
    }
  }

  /** Wherever a string literal stands, the scan ends exactly behind its final quote, and reading gives the bytes it denotes. */
  lemma LiteralIsRead(s: CString, i: nat, cs: seq<Char>)
    requires LegalChars(cs) && Holds(s, i, Literal(cs))
    ensures QuotedAt(s, i) == Some((CharsBytes(cs), i + |Literal(cs)|))
  {
    hide SpellChars, CharsBytes, UnescapeFrom, LegalChars;
    var e := SpellChars(cs);
    HoldsConcat(s, i, [QUOTE] + e, [QUOTE]);
    HoldsConcat(s, i, [QUOTE], e);
    assert s[i..i + 1][0] == QUOTE && s[i + 1 + |e|..i + 2 + |e|][0] == QUOTE;
    CharsScan(s, i + 1, cs);
    assert ScanFrom(s, i + 1 + |e|) == Some(i + 2 + |e|);
    hide ScanFrom;
    assert SkipQuotesAt(s, i) == Some(i + 2 + |e|);
    assert e[0..] == e;
    CharsRead(e, 0, cs);
  }

  /** The `\u` escape a step of unescaping has read. */
  lemma EscapeIsUnicode(t: seq<byte>, i: nat) returns (c: Char)
    requires i + 1 < |t| && t[i] == BACKSLASH && t[i + 1] == 0x75 && Utf16At(t, i + 2).Some?
    ensures c.Unicode? && LegalChar(c) && Holds(t, i, SpellChar(c))
    ensures Utf16At(t, i + 2) == Some(Piece(CharBytes(c), i + |SpellChar(c)|))
  {
    hide Utf16At, SpelledAt, SpelledLength, Encode;
    var cp := ReadIsSpelled(t, i + 2);
    SpellingFits(t, i + 2, cp);
    var digits := t[i + 2..i + 2 + SpelledLength(cp)];
    SpellingMoves(digits, t, i + 2, cp);
    c := Unicode(cp, digits);
    assert t[i..i + 2 + |digits|] == [BACKSLASH, 0x75] + digits;
  }

  /** The character a step of unescaping has read. */
  lemma PieceIsChar(t: seq<byte>, i: nat) returns (c: Char)
    requires i < |t| && Aligned(t, i) && PieceAt(t, i).Some?
    ensures LegalChar(c) && PieceAt(t, i) == Some(Piece(CharBytes(c), i + |SpellChar(c)|)) && Holds(t, i, SpellChar(c))
  {
    hide Utf16At, SpelledAt, SpelledLength, Encode;
    if t[i] != BACKSLASH {
      c := Plain(t[i]);
    } else if t[i + 1] != 0x75 {
      c := Short(t[i + 1]);
    } else {
      c := EscapeIsUnicode(t, i);
    }
  }

  /** What a span without a bare quote denotes, its characters spell. */
  lemma {:induction false} SpanIsChars(s: CString, start: nat, t: seq<byte>, i: nat) returns (cs: seq<Char>)
    requires SpanOf(s, start, t) && i <= |t| && Aligned(t, i) && UnescapeFrom(t, i).Some?
    ensures LegalChars(cs) && SpellChars(cs) == t[i..] && CharsBytes(cs) == UnescapeFrom(t, i).value
    decreases |t| - i
  {
    hide PieceAt, SpellChar, CharBytes, LegalChar, SpanOf, Aligned;
    if i == |t| {
      return [];
    }
    var c := PieceIsChar(t, i);
    var next := i + |SpellChar(c)|;
    PieceLocal(s, start, t, i);
    PieceShrinks(t, i);
    var rest := SpanIsChars(s, start, t, next);
    cs := [c] + rest;
    assert cs[1..] == rest && t[i..] == t[i..next] + t[next..];
  }

  /** A string is read at `i` as `x` up to `end` exactly when a legal literal that denotes `x` stands there. */
  lemma QuotedIffLiteral(s: CString, i: nat, x: seq<byte>, end: nat)
    requires i <= |s|
    ensures QuotedAt(s, i) == Some((x, end))
            <==> exists cs :: LegalChars(cs) && Holds(s, i, Literal(cs)) && CharsBytes(cs) == x && end == i + |Literal(cs)|
  {
    hide LegalChars, Literal, CharsBytes, Holds, QuotedAt;
    if QuotedAt(s, i) == Some((x, end)) {
      var cs := QuotedIsLiteral(s, i, x, end);
    }
    if cs :| LegalChars(cs) && Holds(s, i, Literal(cs)) && CharsBytes(cs) == x && end == i + |Literal(cs)| {
      LiteralIsRead(s, i, cs);
    }
  }

  lemma QuotedIsLiteral(s: CString, i: nat, x: seq<byte>, end: nat) returns (cs: seq<Char>)
    requires i <= |s| && QuotedAt(s, i) == Some((x, end))
    ensures LegalChars(cs) && Holds(s, i, Literal(cs)) && CharsBytes(cs) == x && end == i + |Literal(cs)|
  {
    hide LegalChars, CharsBytes, SpellChars, UnescapeFrom, ScanFrom;
    var t := s[i + 1..end - 1];
    ScanAligns(s, i + 1, i + 1);
    cs := SpanIsChars(s, i + 1, t, 0);
    assert t[0..] == t;
    assert s[i..end] == [QUOTE] + t + [QUOTE];
  }

  // --- Writing a quoted string, and reading it back ---

  function HexDigit(d: nat): byte
    requires d < 16
  {
    if d < 10 then 0x30 + d else 0x61 + d - 10
  }

  /** How one byte is written; `slashes` is the library's escape-slashes setting. */
  function Escape(c: byte, slashes: bool): (e: CString)
    ensures 1 <= |e|
  {
    match c
    case 0x22 => [BACKSLASH, 0x22]
    case 0x5C => [BACKSLASH, 0x5C]
    case 0x08 => [BACKSLASH, 0x62]
    case 0x0C => [BACKSLASH, 0x66]
    case 0x0A => [BACKSLASH, 0x6E]
    case 0x0D => [BACKSLASH, 0x72]
    case 0x09 => [BACKSLASH, 0x74]
    case 0x2F => if slashes then [BACKSLASH, 0x2F] else [0x2F]
    case _ =>
      if c < 0x20 then [BACKSLASH, 0x75, 0x30, 0x30, HexDigit(c / 16), HexDigit(c % 16)]
      else [c]
  }

  function EscapeAll(x: seq<byte>, slashes: bool): CString {
    if x == [] then [] else Escape(x[0], slashes) + EscapeAll(x[1..], slashes)
  }

  function Quoted(x: seq<byte>, slashes: bool): (q: CString)
    ensures 2 <= |q|
  {
    [QUOTE] + EscapeAll(x, slashes) + [QUOTE]
  }

  /** Every byte is written as a legal character that denotes it. */
  lemma EscapeIsChar(b: byte, slashes: bool) returns (c: Char)
    ensures LegalChar(c) && SpellChar(c) == Escape(b, slashes) && CharBytes(c) == [b]
  {
    var e := Escape(b, slashes);
    if |e| == 1 {
      return Plain(b);
    }
    if |e| == 2 {
      return Short(e[1]);
    }
    var digits := e[2..];
    assert FourHexDigits(digits, 0) && Hex4(digits, 0) == b;
    assert Utf16Units(b) == [b] && Encode(b) == [b];
    return Unicode(b, digits);
  }

  lemma {:induction false} EscapeAllIsChars(x: seq<byte>, slashes: bool) returns (cs: seq<Char>)
    ensures LegalChars(cs) && SpellChars(cs) == EscapeAll(x, slashes) && CharsBytes(cs) == x
    decreases |x|
  {
    hide Escape, SpellChar, CharBytes, LegalChar;
    if x == [] {
      return [];
    }
    var c := EscapeIsChar(x[0], slashes);
    var rest := EscapeAllIsChars(x[1..], slashes);
    cs := [c] + rest;
    assert cs[1..] == rest && [x[0]] + x[1..] == x;
  }

  /** Wherever a written string stands, the scan ends exactly behind its final quote and reading gives the original bytes. */
  lemma QuotedRoundTrip(s: CString, i: nat, x: seq<byte>, slashes: bool)
    requires Holds(s, i, Quoted(x, slashes))
    ensures QuotedAt(s, i) == Some((x, i + |Quoted(x, slashes)|))
  {
    hide EscapeAll, SpellChars, CharsBytes, QuotedAt, Holds, LegalChars;
    var cs := EscapeAllIsChars(x, slashes);
    LiteralIsRead(s, i, cs);
  }

  // --- The unescaping loop ---

  /** `parse_utf16_hex`: stops at the first NUL, so it never reads past the text. */
  method ParseUtf16Hex(s: CString, i: nat) returns (ok: bool, cp: nat)
    requires i <= |s|
    ensures ok == FourHexDigits(s, i)
    ensures ok ==> cp == Hex4(s, i)
  {
    cp := 0;
    if At(s, i) == NUL || At(s, i + 1) == NUL || At(s, i + 2) == NUL || At(s, i + 3) == NUL {
      return false, cp;
    }
    var x1, x2 := HexCharToInt(At(s, i)), HexCharToInt(At(s, i + 1));
    var x3, x4 := HexCharToInt(At(s, i + 2)), HexCharToInt(At(s, i + 3));
    if x1 == -1 || x2 == -1 || x3 == -1 || x4 == -1 {
      return false, cp;
    }
    return true, x1 * 0x1000 + x2 * 0x100 + x3 * 0x10 + x4;
  }

  /** `parse_utf16`: from the `u` at `i`, writes at `o`; both cursors are left on their last byte. */
  method ParseUtf16(s: CString, i: nat, output: array<byte>, o: nat) returns (ok: bool, i': nat, o': nat)
    requires i < |s|
    requires Utf16At(s, i + 1).Some? ==> o + |Utf16At(s, i + 1).value.out| <= output.Length
    modifies output
    ensures ok == Utf16At(s, i + 1).Some?
    ensures ok ==> var p := Utf16At(s, i + 1).value;
                   i' + 1 == p.next && o' + 1 == o + |p.out| && output[..o' + 1] == old(output[..o]) + p.out
  {
    hide Hex4, FourHexDigits, Utf8Bytes;
    i', o' := i + 1, o;
    var status, cp: nat := ParseUtf16Hex(s, i');
    if !status {
      return false, i', o';
    }
    if cp < 0xD800 || cp > 0xDFFF {
      o' := WriteUtf8(cp, output, o);
    } else if cp <= 0xDBFF {
      var lead := cp;
      FourHexDigitsFit(s, i');
      i' := i' + 4;
      if At(s, i') != BACKSLASH || At(s, i' + 1) != 0x75 {
        return false, i', o';
      }
      i' := i' + 2;
      var trail: nat;
      status, trail := ParseUtf16Hex(s, i');
      if !status || trail < 0xDC00 || trail > 0xDFFF {
        return false, i', o';
      }
      cp := (lead - 0xD800) % 0x400 * 0x400 + (trail - 0xDC00) % 0x400 + 0x1_0000;
      assert cp == Paired(lead, trail);
      FourHexDigitsFit(s, i');
      o' := WriteUtf8(cp, output, o);
    } else {
      return false, i', o';
    }
    i' := i' + 3;
    return true, i', o';
  }

  /** The byte stores of `parse_utf16`; the cursor is left on the last byte. */
  method WriteUtf8(cp: nat, output: array<byte>, o: nat) returns (o': nat)
    requires cp <= 0x10FFFF && o + |Utf8Bytes(cp)| <= output.Length
    modifies output
    ensures o' + 1 == o + |Utf8Bytes(cp)| && output[..o' + 1] == old(output[..o]) + Utf8Bytes(cp)
  {
    o' := o;
    if cp < 0x80 {
      output[o'] := cp;
    } else if cp < 0x800 {
      output[o'] := 0xC0 + cp / 0x40 % 0x20;
      output[o' + 1] := 0x80 + cp % 0x40;
      o' := o' + 1;
    } else if cp < 0x1_0000 {
      output[o'] := 0xE0 + cp / 0x1000 % 0x10;
      output[o' + 1] := 0x80 + cp / 0x40 % 0x40;
      output[o' + 2] := 0x80 + cp % 0x40;
      o' := o' + 2;
    } else {
      output[o'] := 0xF0 + cp / 0x4_0000 % 8;
      output[o' + 1] := 0x80 + cp / 0x1000 % 0x40;
      output[o' + 2] := 0x80 + cp / 0x40 % 0x40;
      output[o' + 3] := 0x80 + cp % 0x40;
      o' := o' + 3;
    }
  }

  lemma FourHexDigitsFit(s: seq<byte>, i: nat)
    requires FourHexDigits(s, i)
    ensures i + 4 <= |s|
  {
  }

  function Prefixed(p: seq<byte>, r: Option<seq<byte>>): Option<seq<byte>> {
    match r
    case None => None
    case Some(rest) => Some(p + rest)
  }

  /** One more piece moves from what is still to be read to what has been written. */
  lemma PrefixedStep(t: seq<byte>, i: nat, done: seq<byte>)
    requires i < |t|
    ensures Prefixed(done, UnescapeFrom(t, i)) ==
            match PieceAt(t, i) case None => None case Some(p) => (PieceShrinks(t, i); Prefixed(done + p.out, UnescapeFrom(t, p.next)))
  {
    if PieceAt(t, i).Some? {
      PieceShrinks(t, i);
      var p := PieceAt(t, i).value;
      if UnescapeFrom(t, p.next).Some? {
        assert done + (p.out + UnescapeFrom(t, p.next).value) == done + p.out + UnescapeFrom(t, p.next).value;
      }
    }
  }

  /** One round of the `process_string` loop, reading at `i` and writing at `o`. */
  method ProcessPiece(s: CString, start: nat, i: nat, output: array<byte>, o: nat, ghost t: seq<byte>) returns (ok: bool, i': nat, o': nat)
    requires SpanOf(s, start, t) && i < |t| && Aligned(t, i)
    requires PieceAt(t, i).Some? ==> o + |PieceAt(t, i).value.out| <= output.Length
    modifies output
    ensures ok == PieceAt(t, i).Some?
    ensures ok ==> var p := PieceAt(t, i).value;
                   i' == p.next && o' == o + |p.out| && output[..o'] == old(output[..o]) + p.out
  {
    hide Utf16At, Aligned;
    PieceLocal(s, start, t, i);
    i', o' := i, o;
    if At(s, start + i') == BACKSLASH {
      i' := i' + 1;
      var c := At(s, start + i');
      if c == 0x75 {
        var end: nat;
        ok, end, o' := ParseUtf16(s, start + i', output, o');
        if !ok {
          return false, i', o';
        }
        PieceShrinks(t, i);
        i' := end - start;
      } else {
        match SimpleEscape(c)
        case None =>
          return false, i', o';
        case Some(plain) =>
          output[o'] := plain;
      }
    } else if At(s, start + i') < 0x20 {
      return false, i', o';
    } else {
      output[o'] := At(s, start + i');
    }
    return true, i' + 1, o' + 1;
  }

  /**
   * `process_string` on the span of `len` bytes behind an opening quote.  On success the result is a NUL-terminated
   * buffer of exactly the unescaped length; the working buffer of `len + 1` bytes is never overrun.
   */
  method ProcessString(s: CString, start: nat, len: nat) returns (r: array?<byte>, outLen: nat)
    requires start + len < |s| && s[start + len] == QUOTE && Aligned(s[start..start + len], 0)
    ensures (r != null) == Unescape(s[start..start + len]).Some?
    ensures r != null ==> fresh(r) && r.Length == outLen + 1 && r[outLen] == NUL
    ensures r != null ==> r[..outLen] == Unescape(s[start..start + len]).value
  {
    hide PieceAt, Aligned;
    ghost var t := s[start..start + len];
    var output := new byte[len + 1];
    var i, o := 0, 0;
    ghost var done := [];
    assert Prefixed(done, UnescapeFrom(t, 0)) == Unescape(t) by { PrefixedEmpty(UnescapeFrom(t, 0)); }
    while At(s, start + i) != NUL && i < len
      invariant 0 <= o <= i <= len && Aligned(t, i) && done == output[..o]
      invariant Unescape(t) == Prefixed(done, UnescapeFrom(t, i))
      decreases len - i
    {
      PieceLocal(s, start, t, i);
      PrefixedStep(t, i, done);
      if PieceAt(t, i).Some? { PieceShrinks(t, i); }
      var ok;
      ok, i, o := ProcessPiece(s, start, i, output, o, t);
      if !ok {
        return null, 0;
      }
      done := output[..o];
    }
    output[o] := NUL;
    r := new byte[o + 1];
    forall k | 0 <= k < o + 1 {
      r[k] := output[k];
    }
    outLen := o;
    assert r[..o] == output[..o] == done;
    assert Unescape(t) == Some(done) by { assert done + [] == done; }
  }

  lemma PrefixedEmpty(r: Option<seq<byte>>)
    ensures Prefixed([], r) == r
  {
    if r.Some? { assert [] + r.value == r.value; }
  }

  method GetQuotedString(s: CString, i: nat) returns (r: array?<byte>, outLen: nat, end: nat)
    requires i <= |s|
    ensures (r != null) == QuotedAt(s, i).Some?
    ensures r != null ==> r.Length == outLen + 1 && r[outLen] == NUL
    ensures r != null ==> (r[..outLen], end) == QuotedAt(s, i).value
  {
    var ok;
    ok, end := SkipQuotes(s, i);
    if !ok {
      return null, 0, end;
    }
    ScanAligns(s, i + 1, i + 1);
    r, outLen := ProcessString(s, i + 1, end - i - 2);
  }
}
