/** JSON strings: finding the closing quote, undoing escapes, and writing escapes. */
module StringCodec {
  import opened Bytes
  import opened Utf8

  // --- Escapes in the text ---

  /** The value of a hex digit, or -1. */
  function HexCharToInt(c: byte): (x: int)
    ensures -1 <= x < 16
  {
    if 0x30 <= c <= 0x39 then c - 0x30
    else if 0x61 <= c <= 0x66 then c - 0x61 + 10
    else if 0x41 <= c <= 0x46 then c - 0x41 + 10
    else -1
  }

  predicate FourHexDigits(t: seq<byte>, i: nat) {
    i + 4 <= |t| && forall k :: i <= k < i + 4 ==> HexCharToInt(t[k]) >= 0
  }

  function Hex4(t: seq<byte>, i: nat): (cp: nat)
    requires FourHexDigits(t, i)
    ensures cp < 0x1_0000
  {
    ((HexCharToInt(t[i]) * 16 + HexCharToInt(t[i + 1])) * 16 + HexCharToInt(t[i + 2])) * 16 + HexCharToInt(t[i + 3])
  }

  /** What one step of unescaping writes, and where it goes on. */
  datatype Piece = Piece(out: seq<byte>, next: nat)

  /** The bytes written for a code point of each width, as the sources mask them together. */
  function Utf8Bytes(cp: nat): seq<byte>
    requires cp <= 0x10FFFF
  {
    if cp < 0x80 then [cp]
    else if cp < 0x800 then [0xC0 + cp / 0x40 % 0x20, 0x80 + cp % 0x40]
    else if cp < 0x1_0000 then [0xE0 + cp / 0x1000 % 0x10, 0x80 + cp / 0x40 % 0x40, 0x80 + cp % 0x40]
    else [0xF0 + cp / 0x4_0000 % 8, 0x80 + cp / 0x1000 % 0x40, 0x80 + cp / 0x40 % 0x40, 0x80 + cp % 0x40]
  }

  /** The code point of a surrogate pair. */
  function Paired(lead: nat, trail: nat): (cp: nat)
    requires 0xD800 <= lead <= 0xDBFF && 0xDC00 <= trail <= 0xDFFF
    ensures 0x1_0000 <= cp <= 0x10FFFF
  {
    (lead - 0xD800) % 0x400 * 0x400 + (trail - 0xDC00) % 0x400 + 0x1_0000
  }

  /** `\u` at `i - 2` is followed by a second `\u` escape that is a trail surrogate. */
  predicate TrailAt(t: seq<byte>, i: nat) {
    i + 6 <= |t| && t[i] == BACKSLASH && t[i + 1] == 0x75 && FourHexDigits(t, i + 2) && 0xDC00 <= Hex4(t, i + 2) <= 0xDFFF
  }

  /** The escape whose hex digits start at `i`. */
  function Utf16At(t: seq<byte>, i: nat): Option<Piece> {
    if !FourHexDigits(t, i) then None
    else
      var cp := Hex4(t, i);
      if cp < 0xD800 || cp > 0xDFFF then Some(Piece(Utf8Bytes(cp), i + 4))
      else if cp <= 0xDBFF && TrailAt(t, i + 4) then Some(Piece(Utf8Bytes(Paired(cp, Hex4(t, i + 6))), i + 10))
      else None
  }

  function SimpleEscape(c: byte): Option<byte> {
    match c
    case 0x22 => Some(0x22)
    case 0x5C => Some(0x5C)
    case 0x2F => Some(0x2F)
    case 0x62 => Some(0x08)
    case 0x66 => Some(0x0C)
    case 0x6E => Some(0x0A)
    case 0x72 => Some(0x0D)
    case 0x74 => Some(0x09)
    case _ => None
  }

  /** One step of unescaping a span at `i`; nothing past the end of the span is looked at. */
  function PieceAt(t: seq<byte>, i: nat): Option<Piece>
    requires i < |t|
  {
    if t[i] == BACKSLASH then
      if i + 1 == |t| then None
      else if t[i + 1] == 0x75 then Utf16At(t, i + 2)
      else match SimpleEscape(t[i + 1])
           case None => None
           case Some(c) => Some(Piece([c], i + 2))
    else if t[i] < 0x20 then None
    else Some(Piece([t[i]], i + 1))
  }

  /** Every step moves on, and writes no more bytes than it reads. */
  lemma PieceShrinks(t: seq<byte>, i: nat)
    requires i < |t| && PieceAt(t, i).Some?
    ensures var p := PieceAt(t, i).value; i < p.next <= |t| && 1 <= |p.out| <= p.next - i
  {
  }

  function UnescapeFrom(t: seq<byte>, i: nat): Option<seq<byte>>
    requires i <= |t|
    decreases |t| - i
  {
    if i == |t| then Some([])
    else match PieceAt(t, i)
         case None => None
         case Some(p) =>
           PieceShrinks(t, i);
           match UnescapeFrom(t, p.next)
           case None => None
           case Some(rest) => Some(p.out + rest)
  }

  /** What the string between two quotes denotes; None when it holds a control character or a bad escape. */
  function Unescape(t: seq<byte>): Option<seq<byte>> {
    UnescapeFrom(t, 0)
  }

  /** The unescaped bytes, with the terminating NUL, fit a buffer of `input_len + 1`. */
  lemma {:induction false} UnescapeShrinks(t: seq<byte>, i: nat)
    requires i <= |t|
    ensures UnescapeFrom(t, i).Some? ==> |UnescapeFrom(t, i).value| <= |t| - i
    decreases |t| - i
  {
    if i < |t| && PieceAt(t, i).Some? {
      PieceShrinks(t, i);
      UnescapeShrinks(t, PieceAt(t, i).value.next);
    }
  }

  // --- What an escape denotes ---

  /** The UTF-16 form of a scalar value (RFC 2781, section 2.1): one unit, or a surrogate pair. */
  function Utf16Units(cp: int): (units: seq<nat>)
    requires Scalar(cp)
    ensures 1 <= |units| <= 2
  {
    if cp < 0x1_0000 then [cp] else [0xD800 + (cp - 0x1_0000) / 0x400, 0xDC00 + (cp - 0x1_0000) % 0x400]
  }

  /** The length of a scalar value's units as hex escapes, behind the first `\u`. */
  function SpelledLength(cp: int): (n: nat)
    requires Scalar(cp)
    ensures n == 4 || n == 10
  {
    6 * |Utf16Units(cp)| - 2
  }

  /** The units of a scalar value are written at `i` as hex escapes; the first `\u` stands before `i`. */
  predicate SpelledAt(t: seq<byte>, i: nat, cp: int) {
    && Scalar(cp)
    && var units := Utf16Units(cp);
    && FourHexDigits(t, i) && Hex4(t, i) == units[0]
    && (|units| == 2 ==>
          && i + 6 <= |t| && t[i + 4] == BACKSLASH && t[i + 5] == 0x75
          && FourHexDigits(t, i + 6) && Hex4(t, i + 6) == units[1])
  }

  lemma Utf8BytesIsEncode(cp: nat)
    requires Scalar(cp)
    ensures Utf8Bytes(cp) == Encode(cp)
  {
  }

  /** A surrogate pair is the UTF-16 form of the scalar value the sources put together from it. */
  lemma PairedUnits(lead: nat, trail: nat)
    requires 0xD800 <= lead <= 0xDBFF && 0xDC00 <= trail <= 0xDFFF
    ensures Utf16Units(Paired(lead, trail)) == [lead, trail]
  {
  }

  lemma UnitsPair(cp: int)
    requires Scalar(cp) && cp >= 0x1_0000
    ensures var u := Utf16Units(cp); 0xD800 <= u[0] <= 0xDBFF && 0xDC00 <= u[1] <= 0xDFFF && Paired(u[0], u[1]) == cp
  {
  }

  /** Where a scalar value is spelled, the escape is accepted, written as its UTF-8 form, and consumed to its last digit. */
  lemma SpelledIsRead(t: seq<byte>, i: nat, cp: int)
    requires SpelledAt(t, i, cp)
    ensures Utf16At(t, i) == Some(Piece(Encode(cp), i + SpelledLength(cp)))
  {
    hide Encode, Utf8Bytes, Hex4, Paired;
    Utf8BytesIsEncode(cp);
    if cp >= 0x1_0000 {
      UnitsPair(cp);
    }
  }

  /** What is accepted is the spelling of a scalar value. */
  lemma ReadIsSpelled(t: seq<byte>, i: nat) returns (cp: int)
    requires Utf16At(t, i).Some?
    ensures SpelledAt(t, i, cp) && Utf16At(t, i) == Some(Piece(Encode(cp), i + SpelledLength(cp)))
  {
    hide Utf8Bytes, Hex4, Paired, Utf16Units, Encode, SpelledLength;
    var unit := Hex4(t, i);
    if unit < 0xD800 || unit > 0xDFFF {
      cp := unit;
      assert Utf16Units(cp) == [unit] by { OneUnit(cp); }
    } else {
      var trail := Hex4(t, i + 6);
      cp := Paired(unit, trail);
      PairedUnits(unit, trail);
    }
    SpelledIsRead(t, i, cp);
  }

  lemma OneUnit(cp: int)
    requires Scalar(cp) && cp < 0x1_0000
    ensures Utf16Units(cp) == [cp]
  {
  }

  /** An escape is accepted as the bytes `out` up to `next` exactly when it spells a scalar value whose UTF-8 form they are. */
  lemma EscapeIffSpelled(t: seq<byte>, i: nat, out: seq<byte>, next: nat)
    ensures Utf16At(t, i) == Some(Piece(out, next))
            <==> exists cp :: SpelledAt(t, i, cp) && out == Encode(cp) && next == i + SpelledLength(cp)
  {
    hide Utf16At, Encode, SpelledLength, Hex4, FourHexDigits, Utf16Units;
    if Utf16At(t, i) == Some(Piece(out, next)) {
      var cp := ReadIsSpelled(t, i);
    }
    if cp :| SpelledAt(t, i, cp) && out == Encode(cp) && next == i + SpelledLength(cp) {
      SpelledIsRead(t, i, cp);
    }
  }

  /** An escape is refused exactly when it spells no scalar value. */
  lemma EscapeRefusedIff(t: seq<byte>, i: nat)
    ensures Utf16At(t, i).None? <==> !exists cp :: SpelledAt(t, i, cp)
  {
    hide Utf16At, SpelledAt;
    if Utf16At(t, i).Some? {
      var cp := ReadIsSpelled(t, i);
    }
    if cp :| SpelledAt(t, i, cp) {
      SpelledIsRead(t, i, cp);
    }
  }

  /** In particular a trail surrogate alone, and a lead surrogate without a trail behind it, spell nothing. */
  lemma LoneSurrogateRefused(t: seq<byte>, i: nat)
    requires FourHexDigits(t, i) && 0xD800 <= Hex4(t, i) <= 0xDFFF
    requires Hex4(t, i) <= 0xDBFF ==>
               !(i + 6 <= |t| && t[i + 4] == BACKSLASH && t[i + 5] == 0x75
                 && FourHexDigits(t, i + 6) && 0xDC00 <= Hex4(t, i + 6) <= 0xDFFF)
    ensures Utf16At(t, i).None?
  {
    hide Hex4, FourHexDigits, Utf16At;
    EscapeRefusedIff(t, i);
    if cp :| SpelledAt(t, i, cp) {
      SurrogateUnits(cp);
    }
  }

  lemma SurrogateUnits(cp: int)
    requires Scalar(cp)
    ensures var u := Utf16Units(cp);
            0xD800 <= u[0] <= 0xDFFF ==> |u| == 2 && u[0] <= 0xDBFF && 0xDC00 <= u[1] <= 0xDFFF
  {
  }

  /** An accepted escape writes valid UTF-8. */
  lemma EscapeWritesEncoding(t: seq<byte>, i: nat) returns (cp: int)
    requires Utf16At(t, i).Some?
    ensures Scalar(cp) && SpelledAt(t, i, cp) && Utf16At(t, i).value.out == Encode(cp)
    ensures Valid(Utf16At(t, i).value.out)
  {
    hide Encode, Utf16At, Utf16Units, Hex4, FourHexDigits, CodePointAt;
    cp := ReadIsSpelled(t, i);
    ValidSkipsEncoding(Encode(cp), 0, cp);
  }

  // --- Valid UTF-8 stays valid ---

  lemma AsciiStep(t: seq<byte>, i: nat)
    requires i < |t| && t[i] < 0x80
    ensures ValidFrom(t, i) == ValidFrom(t, i + 1)
  {
  }

  /** Escapes are ASCII, so the text stays in step behind one. */
  lemma EscapeStep(t: seq<byte>, i: nat)
    requires i < |t| && t[i] == BACKSLASH && PieceAt(t, i).Some?
    ensures ValidFrom(t, i) == ValidFrom(t, PieceAt(t, i).value.next)
  {
    var n := PieceAt(t, i).value.next;
    assert forall k :: i <= k < n ==> t[k] < 0x80;
    AsciiRun(t, i, n);
  }

  lemma {:induction false} AsciiRun(t: seq<byte>, i: nat, n: nat)
    requires i <= n <= |t| && forall k :: i <= k < n ==> t[k] < 0x80
    ensures ValidFrom(t, i) == ValidFrom(t, n)
    decreases n - i
  {
    if i < n {
      AsciiStep(t, i);
      AsciiRun(t, i + 1, n);
    }
  }

  lemma ValidPrepend(cp: nat, s: seq<byte>)
    requires Scalar(cp) && Valid(s)
    ensures Valid(Encode(cp) + s)
  {
    hide Encode, ValidFrom;
    var cps := Decoded(s, 0);
    var all := [cp] + cps;
    assert all[1..] == cps && s[0..] == s;
    EncodingsAreValid(all, Encode(cp) + s, 0);
  }

  /** Bytes above ASCII are copied one for one. */
  lemma {:induction false} CopiesHighBytes(t: seq<byte>, i: nat, n: nat)
    requires i <= n <= |t| && forall k :: i <= k < n ==> t[k] >= 0x80
    ensures UnescapeFrom(t, i) == match UnescapeFrom(t, n) case None => None case Some(rest) => Some(t[i..n] + rest)
    decreases n - i
  {
    hide Utf16At;
    if i == n {
      assert UnescapeFrom(t, n).Some? ==> t[i..n] + UnescapeFrom(t, n).value == UnescapeFrom(t, n).value;
    } else {
      assert PieceAt(t, i) == Some(Piece([t[i]], i + 1));
      hide PieceAt;
      CopiesHighBytes(t, i + 1, n);
      assert t[i..n] == [t[i]] + t[i + 1..n];
      if UnescapeFrom(t, n).Some? {
        var rest := UnescapeFrom(t, n).value;
        assert [t[i]] + (t[i + 1..n] + rest) == t[i..n] + rest;
      }
    }
  }

  /** A step that starts on an ASCII byte writes one encoding and leaves the text in step. */
  lemma AsciiPiece(t: seq<byte>, i: nat) returns (cp: nat)
    requires i < |t| && t[i] < 0x80 && PieceAt(t, i).Some?
    ensures Scalar(cp) && PieceAt(t, i).value.out == Encode(cp)
    ensures ValidFrom(t, i) == ValidFrom(t, PieceAt(t, i).value.next)
  {
    hide CodePointAt, Utf16At;
    if t[i] != BACKSLASH {
      AsciiStep(t, i);
      return t[i];
    }
    EscapeStep(t, i);
    if t[i + 1] == 0x75 {
      cp := EscapeWritesEncoding(t, i + 2);
      return;
    }
    return SimpleEscape(t[i + 1]).value;
  }

  /** If the raw text is valid UTF-8, so is the string it denotes. */
  lemma {:induction false} UnescapeKeepsUtf8(t: seq<byte>, i: nat)
    requires i <= |t| && ValidFrom(t, i) && UnescapeFrom(t, i).Some?
    ensures Valid(UnescapeFrom(t, i).value)
    decreases |t| - i
  {
    hide CodePointAt, PieceAt, Encode, Utf16At;
    if i < |t| {
      PieceShrinks(t, i);
      var cp, next;
      if t[i] < 0x80 {
        cp := AsciiPiece(t, i);
        next := PieceAt(t, i).value.next;
      } else {
        DecodeEncodes(t, i);
        cp, next := CodePointAt(t, i).value.cp, i + CodePointAt(t, i).value.len;
        EncodingIsHigh(t, i, cp);
        CopiesHighBytes(t, i, next);
      }
      UnescapeKeepsUtf8(t, next);
      ValidPrepend(cp, UnescapeFrom(t, next).value);
    }
  }

  lemma EncodingIsHigh(t: seq<byte>, i: nat, cp: nat)
    requires Scalar(cp) && Holds(t, i, Encode(cp)) && t[i] >= 0x80
    ensures forall k :: i <= k < i + |Encode(cp)| ==> t[k] >= 0x80
  {
  }
}
