/** Bytes and NUL-terminated strings as the C sources see them. */
module Bytes {
  type byte = b: int | 0 <= b < 0x100

  /** The contents of a `char *`: everything before the terminating NUL. */
  type CString = s: seq<byte> | 0 !in s

  datatype Option<+T> = None | Some(value: T)

  const NUL: byte := 0x00
  const QUOTE: byte := 0x22
  const BACKSLASH: byte := 0x5C

  /** The bytes of a text in ASCII. */
  function Ascii(t: string): (b: seq<byte>)
    requires forall i :: 0 <= i < |t| ==> 0 < t[i] as int < 128
    ensures |b| == |t| && NUL !in b && forall i :: 0 <= i < |t| ==> b[i] == t[i] as int
  {
    seq(|t|, i requires 0 <= i < |t| => t[i] as int)
  }

  /** Texts one after the other, with a separator between any two. */
  function Joined(parts: seq<seq<byte>>, separator: seq<byte>): seq<byte> {
    if parts == [] then []
    else if |parts| == 1 then parts[0]
    else parts[0] + separator + Joined(parts[1..], separator)
  }

  /** Reads the character at `i`; the terminator is readable, anything past it is not. */
  function At(s: CString, i: nat): (b: byte)
    requires i <= |s|
    ensures b == NUL <==> i == |s|
  {
    if i < |s| then assert s[i] in s; s[i] else NUL
  }

  /** The text `t` stands in `s` at offset `i`. */
  predicate Holds(s: seq<byte>, i: nat, t: seq<byte>) {
    i + |t| <= |s| && s[i..i + |t|] == t
  }

  /** A concatenation stands somewhere exactly when its two parts stand one after the other. */
  lemma HoldsConcat(s: seq<byte>, i: nat, t: seq<byte>, u: seq<byte>)
    ensures Holds(s, i, t + u) <==> Holds(s, i, t) && Holds(s, i + |t|, u)
  {
    if i + |t| + |u| <= |s| {
      var w := s[i..i + |t| + |u|];
      assert w[..|t|] == s[i..i + |t|];
      assert w[|t|..] == s[i + |t|..i + |t| + |u|];
      assert w == w[..|t|] + w[|t|..];
      assert (t + u)[..|t|] == t && (t + u)[|t|..] == u;
    }
  }

  /** The characters of a text that stands at `i`. */
  lemma HoldsElements(s: seq<byte>, i: nat, t: seq<byte>)
    requires Holds(s, i, t)
    ensures i + |t| <= |s| && s[i..i + |t|] == t
    ensures forall k :: i <= k < i + |t| ==> s[k] == t[k - i]
  {
  }

  lemma HoldsConcat4(s: seq<byte>, i: nat, a: seq<byte>, b: seq<byte>, c: seq<byte>, d: seq<byte>)
    ensures Holds(s, i, a + b + c + d)
            <==> Holds(s, i, a) && Holds(s, i + |a|, b) && Holds(s, i + |a| + |b|, c) && Holds(s, i + |a| + |b| + |c|, d)
    ensures |a + b + c + d| == |a| + |b| + |c| + |d|
  {
    hide Holds;
    HoldsConcat(s, i, a + b + c, d);
    HoldsConcat(s, i, a + b, c);
    HoldsConcat(s, i, a, b);
  }
}
