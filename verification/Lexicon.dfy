/** The fixed characters, words and tables that the other modules use by name, spelled out. */
module Lexicon {
  import opened Bytes
  import opened Utf8
  import opened StringCodec
  import opened Json
  import opened Numerals
  import opened Grammar
  import opened Comments
  import opened DottedPaths

  lemma WordsAre()
    ensures TRUE == Ascii("true") && FALSE == Ascii("false") && NULL == Ascii("null")
  {
  }

  /** The byte order mark is the UTF-8 form of U+FEFF. */
  lemma MarkIs()
    ensures BOM == Encode(0xFEFF)
  {
  }

  lemma PunctuationIs()
    ensures Ascii("[]{},:\"\\") == [LBRACKET, RBRACKET, LBRACE, RBRACE, COMMA, COLON, QUOTE, BACKSLASH]
    ensures Ascii("-+.0") == [MINUS, PLUS, POINT, ZERO] && Ascii(".") == [DOT] && Ascii(" \n") == [SPACE, NEWLINE] && BLANK == SPACE
  {
  }

  lemma CommentTokensAre()
    ensures BLOCK == Tokens(Ascii("/*"), Ascii("*/")) && LINE == Tokens(Ascii("//"), Ascii("\n"))
  {
  }

  /** Layout is made of blank, tab, line feed, carriage return, vertical tab and form feed. */
  lemma LayoutIsMadeOf(c: byte)
    ensures IsSpace(c)
            <==> c == ' ' as int || c == '\t' as int || c == '\n' as int || c == '\r' as int || c == 0x0B || c == 0x0C
  {
  }

  /** The value of a hex digit is its place among the digits, in lower case or in upper case. */
  lemma HexDigitsAre(c: byte, d: nat)
    requires d < 16
    ensures HexCharToInt(c) == d <==> c == Ascii("0123456789abcdef")[d] || c == Ascii("0123456789ABCDEF")[d]
    ensures IsHexDigit(c) <==> HexCharToInt(c) >= 0
    ensures IsDigit(c) <==> 0 <= HexCharToInt(c) < 10
  {
  }

  /** The letters of the short escapes, and what each stands for. */
  lemma ShortEscapesAre(c: byte, b: byte)
    ensures SimpleEscape(c) == Some(b)
            <==> exists k :: 0 <= k < 8 && c == Ascii("\"\\/bfnrt")[k] && b == [0x22, 0x5C, 0x2F, 0x08, 0x0C, 0x0A, 0x0D, 0x09][k]
  {
    var letters, bytes := Ascii("\"\\/bfnrt"), [0x22, 0x5C, 0x2F, 0x08, 0x0C, 0x0A, 0x0D, 0x09];
    assert letters == [0x22, 0x5C, 0x2F, 0x62, 0x66, 0x6E, 0x72, 0x74];
    if SimpleEscape(c) == Some(b) {
      assert (c == letters[0] && b == bytes[0]) || (c == letters[1] && b == bytes[1]) || (c == letters[2] && b == bytes[2])
          || (c == letters[3] && b == bytes[3]) || (c == letters[4] && b == bytes[4]) || (c == letters[5] && b == bytes[5])
          || (c == letters[6] && b == bytes[6]) || (c == letters[7] && b == bytes[7]);
    }
  }

  lemma ExponentLetterIs(c: byte)
    ensures IsLetter(c, 0x65) <==> c == 'e' as int || c == 'E' as int
  {
  }

  /** A hexadecimal numeral starts with `0x` or `0X` and a digit, with or without a point before it. */
  lemma HexStarts(s: CString, i: nat)
    requires i <= |s|
    ensures HexAt(s, i)
            <==> && (Holds(s, i, Ascii("0x")) || Holds(s, i, Ascii("0X")))
                 && (IsHexDigit(At(s, i + 2)) || (At(s, i + 2) == 0x2E && IsHexDigit(At(s, i + 3))))
  {
    assert Ascii("0x") == [0x30, 0x78] && Ascii("0X") == [0x30, 0x58];
    if i + 2 <= |s| {
      assert s[i..i + 2] == [s[i], s[i + 1]];
    }
  }

  function LowerCase(c: byte): byte {
    if 0x41 <= c <= 0x5A then c + 0x20 else c
  }

  /** `inf` and `nan` are recognised in any mixture of cases. */
  lemma WordsStart(s: CString, i: nat)
    requires i <= |s|
    ensures WordAt(s, i)
            <==> && i + 3 <= |s|
                 && var w := [LowerCase(s[i]), LowerCase(s[i + 1]), LowerCase(s[i + 2])]; w == Ascii("inf") || w == Ascii("nan")
  {
    assert Ascii("inf") == [0x69, 0x6E, 0x66] && Ascii("nan") == [0x6E, 0x61, 0x6E];
  }

  /** Encodings of each length (RFC 3629, section 7, and the bounds of section 3). */
  lemma EncodingsAre()
    ensures Encode(0x7F) == [0x7F] && Encode(0x80) == [0xC2, 0x80] && Encode(0x7FF) == [0xDF, 0xBF]
    ensures Encode(0x2262) == [0xE2, 0x89, 0xA2] && Encode(0xFFFF) == [0xEF, 0xBF, 0xBF]
    ensures Encode(0x1_0000) == [0xF0, 0x90, 0x80, 0x80] && Encode(0x233B4) == [0xF0, 0xA3, 0x8E, 0xB4]
    ensures Scalar(0x10FFFF) && !Scalar(0x11_0000) && Scalar(0xD7FF) && !Scalar(0xD800) && !Scalar(0xDFFF) && Scalar(0xE000)
  {
  }
}
