/** UTF-8 as RFC 3629 defines it, and the checker of the JSON library. */
module Utf8 {
  import opened Bytes

  /** A Unicode scalar value: any code point that is not a surrogate. */
  predicate Scalar(cp: int) {
    0 <= cp <= 0x10FFFF && !(0xD800 <= cp <= 0xDFFF)
  }

  /** The UTF-8 form of a scalar value (RFC 3629, section 3): the shortest of the four patterns that fits. */
  function Encode(cp: int): (e: seq<byte>)
    requires Scalar(cp)
    ensures 1 <= |e| <= 4
  {
    if cp < 0x80 then [cp]
    else if cp < 0x800 then [0xC0 + cp / 0x40, 0x80 + cp % 0x40]
    else if cp < 0x1_0000 then [0xE0 + cp / 0x1000, 0x80 + cp / 0x40 % 0x40, 0x80 + cp % 0x40]
    else [0xF0 + cp / 0x4_0000, 0x80 + cp / 0x1000 % 0x40, 0x80 + cp / 0x40 % 0x40, 0x80 + cp % 0x40]
  }

  function EncodeAll(cps: seq<int>): seq<byte>
    requires forall i :: 0 <= i < |cps| ==> Scalar(cps[i])
  {
    if cps == [] then [] else Encode(cps[0]) + EncodeAll(cps[1..])
  }

  /** `(b & 0xC0) == 0x80` */
  predicate IsCont(b: byte) {
    b / 0x40 == 2
  }

  /** The length a lead byte announces; 0 for a byte that cannot lead. */
  function SequenceLength(c: byte): nat {
    if c == 0xC0 || c == 0xC1 || c > 0xF4 || IsCont(c) then 0
    else if c / 0x80 == 0 then 1
    else if c / 0x20 == 6 then 2
    else if c / 0x10 == 0xE then 3
    else if c / 8 == 0x1E then 4
    else 0
  }

  /** A byte of a span that is followed by a NUL, for the definitions; the code reads through `ReadAt`. */
  function Peek(s: seq<byte>, i: nat): byte {
    if i < |s| then s[i] else NUL
  }

  /** Reads a byte of a span or the NUL behind it; nothing past that NUL can be read. */
  function ReadAt(s: seq<byte>, i: nat): (b: byte)
    requires i <= |s|
    ensures b == Peek(s, i)
  {
    if i == |s| then NUL else s[i]
  }

  datatype CodePoint = CodePoint(cp: int, len: nat)

  /** The value of a sequence of the announced length, -1 when a continuation byte is missing. */
  function Assemble(b0: byte, b1: byte, b2: byte, b3: byte): int {
    var len := SequenceLength(b0);
    if len == 1 then b0
    else if len == 2 && IsCont(b1) then b0 % 0x20 * 0x40 + b1 % 0x40
    else if len == 3 && IsCont(b1) && IsCont(b2) then (b0 % 0x10 * 0x40 + b1 % 0x40) * 0x40 + b2 % 0x40
    else if len == 4 && IsCont(b1) && IsCont(b2) && IsCont(b3) then
      ((b0 % 8 * 0x40 + b1 % 0x40) * 0x40 + b2 % 0x40) * 0x40 + b3 % 0x40
    else -1
  }

  /** Rejects missing continuations, overlong forms, values past U+10FFFF and surrogates. */
  predicate Admissible(cp: int, len: nat) {
    && cp >= 0
    && !((cp < 0x80 && len > 1) || (cp < 0x800 && len > 2) || (cp < 0x1_0000 && len > 3))
    && cp <= 0x10FFFF
    && !(0xD800 <= cp <= 0xDFFF)
  }

  /** The code point whose sequence starts at `i`, if the checker accepts one there. */
  function CodePointAt(s: seq<byte>, i: nat): (r: Option<CodePoint>)
    ensures r.Some? ==> 1 <= r.value.len <= 4
  {
    var cp := Assemble(Peek(s, i), Peek(s, i + 1), Peek(s, i + 2), Peek(s, i + 3));
    var len := SequenceLength(Peek(s, i));
    if Admissible(cp, len) then Some(CodePoint(cp, len)) else None
  }

  /** Splits a code point into the six-bit groups of its encoding. */
  lemma SixBitGroups(cp: int)
    requires 0 <= cp
    ensures cp / 0x1000 == cp / 0x40 / 0x40 && cp / 0x4_0000 == cp / 0x1000 / 0x40
    ensures cp == cp / 0x40 * 0x40 + cp % 0x40
    ensures cp / 0x40 == cp / 0x1000 * 0x40 + cp / 0x40 % 0x40
    ensures cp / 0x1000 == cp / 0x4_0000 * 0x40 + cp / 0x1000 % 0x40
  {
  }

  /** Horner's rule in base 64 is undone by division and remainder. */
  lemma SixBitDigits(a: nat, b: nat, c: nat, d: nat)
    requires b < 0x40 && c < 0x40 && d < 0x40
    ensures (a * 0x40 + b) / 0x40 == a && (a * 0x40 + b) % 0x40 == b
    ensures var x := (a * 0x40 + b) * 0x40 + c; x / 0x1000 == a && x / 0x40 % 0x40 == b && x % 0x40 == c
    ensures var x := ((a * 0x40 + b) * 0x40 + c) * 0x40 + d;
            x / 0x4_0000 == a && x / 0x1000 % 0x40 == b && x / 0x40 % 0x40 == c && x % 0x40 == d
  {
  }

  /** The leading byte of each length, and a continuation byte, split into marker and payload. */
  lemma SplitBytes(b0: byte, b: byte)
    ensures SequenceLength(b0) == 2 ==> b0 == 0xC0 + b0 % 0x20
    ensures SequenceLength(b0) == 3 ==> b0 == 0xE0 + b0 % 0x10
    ensures SequenceLength(b0) == 4 ==> b0 == 0xF0 + b0 % 8
    ensures SequenceLength(b0) == 1 ==> b0 < 0x80
    ensures IsCont(b) ==> b == 0x80 + b % 0x40
  {
  }

  /** The smallest scalar value whose encoding a byte leads. */
  function Led(c: byte): int {
    if c < 0x80 then c
    else if c < 0xE0 then (c - 0xC0) * 0x40
    else if c < 0xF0 then if c == 0xE0 then 0x800 else (c - 0xE0) * 0x1000
    else if c == 0xF0 then 0x1_0000 else (c - 0xF0) * 0x4_0000
  }

  /** A length is announced by exactly the bytes that lead an encoding of that length. */
  lemma LeadIff(c: byte, n: nat)
    requires 1 <= n
    ensures SequenceLength(c) == n <==> exists cp :: Scalar(cp) && |Encode(cp)| == n && Encode(cp)[0] == c
  {
    if SequenceLength(c) == n {
      assert Scalar(Led(c)) && |Encode(Led(c))| == n && Encode(Led(c))[0] == c;
    }
    if cp :| Scalar(cp) && |Encode(cp)| == n && Encode(cp)[0] == c {
      LeadOf(cp);
    }
  }

  lemma LeadOf(cp: int)
    requires Scalar(cp)
    ensures SequenceLength(Encode(cp)[0]) == |Encode(cp)|
  {
    if cp >= 0x1_0000 {
      assert cp / 0x4_0000 <= 4;
    }
  }

  lemma AssembleEncodes(b0: byte, b1: byte, b2: byte, b3: byte)
    requires Admissible(Assemble(b0, b1, b2, b3), SequenceLength(b0))
    ensures var cp := Assemble(b0, b1, b2, b3);
            Scalar(cp) && |Encode(cp)| == SequenceLength(b0) && Encode(cp) == [b0, b1, b2, b3][..SequenceLength(b0)]
  {
    hide SequenceLength, IsCont;
    var len := SequenceLength(b0);
    SplitBytes(b0, b1);
    SplitBytes(b0, b2);
    SplitBytes(b0, b3);
    if len == 2 {
      SixBitDigits(b0 % 0x20, b1 % 0x40, 0, 0);
    } else if len == 3 {
      SixBitDigits(b0 % 0x10, b1 % 0x40, b2 % 0x40, 0);
    } else if len == 4 {
      SixBitDigits(b0 % 8, b1 % 0x40, b2 % 0x40, b3 % 0x40);
    }
  }

  lemma EncodeAssembles(cp: int, b0: byte, b1: byte, b2: byte, b3: byte)
    requires Scalar(cp) && Encode(cp) == [b0, b1, b2, b3][..|Encode(cp)|]
    ensures SequenceLength(b0) == |Encode(cp)| && Assemble(b0, b1, b2, b3) == cp && Admissible(cp, |Encode(cp)|)
  {
    SixBitGroups(cp);
    var e := Encode(cp);
    assert e[0] == b0;
    if cp >= 0x80 {
      assert e[1] == b1 && IsCont(b1);
      if cp >= 0x800 {
        assert e[2] == b2 && IsCont(b2);
        if cp >= 0x1_0000 {
          assert e[3] == b3 && IsCont(b3);
        }
      }
    }
  }

  lemma EncodeDecodes(s: seq<byte>, i: nat, cp: int)
    requires Scalar(cp) && Holds(s, i, Encode(cp))
    ensures CodePointAt(s, i) == Some(CodePoint(cp, |Encode(cp)|))
  {
    hide Encode, Assemble, SequenceLength;
    var e, f := Encode(cp), [Peek(s, i), Peek(s, i + 1), Peek(s, i + 2), Peek(s, i + 3)];
    assert forall k :: 0 <= k < |e| ==> f[k] == s[i + k] == s[i..i + |e|][k] == e[k];
    assert e == f[..|e|];
    EncodeAssembles(cp, f[0], f[1], f[2], f[3]);
  }

  /** A sequence that is accepted ends within the span, since no NUL is a continuation. */
  lemma SequenceFits(s: seq<byte>, i: nat)
    requires i < |s| && CodePointAt(s, i).Some?
    ensures i + CodePointAt(s, i).value.len <= |s|
  {
    hide SequenceLength;
    assert !IsCont(NUL);
  }

  lemma DecodeEncodes(s: seq<byte>, i: nat)
    requires i < |s| && CodePointAt(s, i).Some?
    ensures var c := CodePointAt(s, i).value; Scalar(c.cp) && c.len == |Encode(c.cp)| && Holds(s, i, Encode(c.cp))
  {
    hide Encode, Assemble, SequenceLength, Admissible;
    var c, f := CodePointAt(s, i).value, [Peek(s, i), Peek(s, i + 1), Peek(s, i + 2), Peek(s, i + 3)];
    SequenceFits(s, i);
    AssembleEncodes(f[0], f[1], f[2], f[3]);
    assert forall k :: 0 <= k < c.len ==> f[k] == s[i + k];
    assert s[i..i + c.len] == f[..c.len];
  }

  /** The checker accepts at `i` exactly the UTF-8 form of a scalar value, and reads off that value. */
  lemma CodePointIffEncode(s: seq<byte>, i: nat, cp: int, len: nat)
    requires i < |s|
    ensures CodePointAt(s, i) == Some(CodePoint(cp, len))
            <==> Scalar(cp) && len == |Encode(cp)| && Holds(s, i, Encode(cp))
  {
    hide Encode, Holds;
    if CodePointAt(s, i) == Some(CodePoint(cp, len)) {
      DecodeEncodes(s, i);
    }
    if Scalar(cp) && len == |Encode(cp)| && Holds(s, i, Encode(cp)) {
      EncodeDecodes(s, i, cp);
    }
  }

  predicate ValidFrom(s: seq<byte>, i: nat)
    decreases |s| - i
  {
    i >= |s| || match CodePointAt(s, i)
                case None => false
                case Some(c) => ValidFrom(s, i + c.len)
  }

  /** What `is_valid_utf8` decides. */
  predicate Valid(s: seq<byte>) {
    ValidFrom(s, 0)
  }

  /** The check stays in step across the encoding of a scalar value. */
  lemma ValidSkipsEncoding(s: seq<byte>, i: nat, cp: int)
    requires Scalar(cp) && Holds(s, i, Encode(cp))
    ensures ValidFrom(s, i) == ValidFrom(s, i + |Encode(cp)|)
  {
    hide Encode, CodePointAt;
    EncodeDecodes(s, i, cp);
  }

  /** A byte string is accepted exactly when it is the encoding of a sequence of scalar values. */
  lemma ValidIffEncodings(s: seq<byte>)
    ensures Valid(s) <==> exists cps: seq<int> :: (forall k :: 0 <= k < |cps| ==> Scalar(cps[k])) && EncodeAll(cps) == s
  {
    if Valid(s) {
      var cps := Decoded(s, 0);
      assert s[0..] == s;
    }
    if cps: seq<int> :| (forall k :: 0 <= k < |cps| ==> Scalar(cps[k])) && EncodeAll(cps) == s {
      EncodingsAreValid(cps, s, 0);
    }
  }

  lemma {:induction false} Decoded(s: seq<byte>, i: nat) returns (cps: seq<int>)
    requires i <= |s| && ValidFrom(s, i)
    ensures forall k :: 0 <= k < |cps| ==> Scalar(cps[k])
    ensures EncodeAll(cps) == s[i..]
    decreases |s| - i
  {
    hide Encode, CodePointAt;
    if i == |s| {
      return [];
    }
    var c := CodePointAt(s, i).value;
    DecodeEncodes(s, i);
    var rest := Decoded(s, i + c.len);
    cps := [c.cp] + rest;
    assert cps[1..] == rest;
    assert s[i..] == s[i..i + c.len] + s[i + c.len..];
  }

  lemma {:induction false} EncodingsAreValid(cps: seq<int>, s: seq<byte>, i: nat)
    requires forall k :: 0 <= k < |cps| ==> Scalar(cps[k])
    requires i <= |s| && s[i..] == EncodeAll(cps)
    ensures ValidFrom(s, i)
    decreases |cps|
  {
    hide Encode, CodePointAt;
    if cps != [] {
      var e := Encode(cps[0]);
      var rest := EncodeAll(cps[1..]);
      assert e + rest == s[i..];
      assert (e + rest)[..|e|] == s[i..i + |e|] && (e + rest)[|e|..] == s[i + |e|..];
      EncodingsAreValid(cps[1..], s, i + |e|);
      ValidSkipsEncoding(s, i, cps[0]);
    }
  }

  /** `verify_utf8_sequence`: nothing behind the NUL that ends the text is read. */
  method VerifySequence(s: seq<byte>, i: nat) returns (ok: bool, len: nat)
    requires i < |s|
    ensures ok == CodePointAt(s, i).Some?
    ensures ok ==> len == CodePointAt(s, i).value.len
  {
    var b0 := s[i];
    len := SequenceLength(b0);
    var cp := 0;
    if len == 1 {
      cp := b0;
    } else if len == 2 && IsCont(ReadAt(s, i + 1)) {
      cp := b0 % 0x20;
      cp := cp * 0x40 + ReadAt(s, i + 1) % 0x40;
    } else if len == 3 && IsCont(ReadAt(s, i + 1)) && IsCont(ReadAt(s, i + 2)) {
      cp := b0 % 0x10;
      cp := cp * 0x40 + ReadAt(s, i + 1) % 0x40;
      cp := cp * 0x40 + ReadAt(s, i + 2) % 0x40;
    } else if len == 4 && IsCont(ReadAt(s, i + 1)) && IsCont(ReadAt(s, i + 2)) && IsCont(ReadAt(s, i + 3)) {
      cp := b0 % 8;
      cp := cp * 0x40 + ReadAt(s, i + 1) % 0x40;
      cp := cp * 0x40 + ReadAt(s, i + 2) % 0x40;
      cp := cp * 0x40 + ReadAt(s, i + 3) % 0x40;
    } else {
      return false, len;
    }
    if (cp < 0x80 && len > 1) || (cp < 0x800 && len > 2) || (cp < 0x1_0000 && len > 3) {
      return false, len;
    }
    if cp > 0x10FFFF {
      return false, len;
    }
    if 0xD800 <= cp <= 0xDFFF {
      return false, len;
    }
    return true, len;
  }

  method IsValidUtf8(s: seq<byte>) returns (valid: bool)
    ensures valid == Valid(s)
  {
    hide CodePointAt;
    var i := 0;
    while i < |s|
      invariant 0 <= i
      invariant ValidFrom(s, i) == Valid(s)
    {
      var ok, len := VerifySequence(s, i);
      if !ok {
        return false;
      }
      i := i + len;
    }
    return true;
  }
}
