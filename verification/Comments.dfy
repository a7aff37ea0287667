/** Blanking of comments before parsing: every recognised comment is overwritten with spaces. */
module Comments {
  import opened Bytes

  const BLANK: byte := 0x20

  /** The two comment forms the library removes, one pass each. */
  datatype Tokens = Tokens(start: CString, end: CString)

  const BLOCK := Tokens([0x2F, 0x2A], [0x2A, 0x2F])
  const LINE := Tokens([0x2F, 0x2F], [0x0A])

  /** Where the scan stands: inside a string literal or not, behind a backslash or not. */
  datatype Mode = Mode(inString: bool, escaped: bool)

  function Blanks(n: nat): (b: CString)
    ensures |b| == n && forall k :: 0 <= k < n ==> b[k] == BLANK
  {
    seq(n, _ => BLANK)
  }

  predicate Starts(s: CString, token: CString) {
    |token| <= |s| && s[..|token|] == token
  }

  /** `strstr`: the first position at or behind `i` where the token stands. */
  function Find(s: CString, token: CString): (r: Option<nat>)
    ensures r.Some? ==> r.value + |token| <= |s| && Starts(s[r.value..], token)
  {
    if Starts(s, token) then Some(0)
    else if s == [] then None
    else match Find(s[1..], token)
         case None => None
         case Some(i) => assert s[1..][i..] == s[i + 1..]; Some(i + 1)
  }

  lemma StartsIsHolds(s: CString, i: nat, token: CString)
    requires i <= |s|
    ensures Starts(s[i..], token) <==> Holds(s, i, token)
  {
    if i + |token| <= |s| {
      assert s[i..][..|token|] == s[i..i + |token|];
    }
  }

  /** What is found is the first occurrence, and nothing is found only where there is none. */
  lemma {:induction false} FindIsFirst(s: CString, i: nat, token: CString)
    requires i <= |s|
    ensures match Find(s[i..], token)
            case None => forall k :: i <= k <= |s| ==> !Holds(s, k, token)
            case Some(p) => Holds(s, i + p, token) && forall k :: i <= k < i + p ==> !Holds(s, k, token)
    decreases |s| - i
  {
    hide Holds, Starts;
    StartsIsHolds(s, i, token);
    if !Starts(s[i..], token) && i < |s| {
      assert s[i..][1..] == s[i + 1..];
      FindIsFirst(s, i + 1, token);
    }
  }

  /** The mode behind a character that does not open a comment. */
  function Next(c: byte, m: Mode): Mode {
    if c == BACKSLASH && !m.escaped then m.(escaped := true)
    else if c == QUOTE && !m.escaped then Mode(!m.inString, false)
    else m.(escaped := false)
  }

  /** Does a comment open here? */
  predicate Opens(s: CString, m: Mode, t: Tokens) {
    && s != [] && !m.inString && Starts(s, t.start)
    && !(s[0] == BACKSLASH && !m.escaped) && !(s[0] == QUOTE && !m.escaped)
  }

  /** The length of the comment that opens here, both tokens included; None when it is not terminated. */
  function CommentLength(s: CString, t: Tokens): (r: Option<nat>)
    requires Starts(s, t.start)
    ensures r.Some? ==> |t.start| + |t.end| <= r.value <= |s|
  {
    match Find(s[|t.start|..], t.end)
    case None => None
    case Some(i) => Some(|t.start| + i + |t.end|)
  }

  /** `e` is where the token stands first from `i` on. */
  predicate FirstAt(s: CString, i: nat, token: CString, e: nat) {
    i <= e && Holds(s, e, token) && forall k :: i <= k < e ==> !Holds(s, k, token)
  }

  /** The first end token behind the start token at `i` stands at `e`. */
  predicate EndsAt(s: CString, t: Tokens, i: nat, e: nat) {
    FirstAt(s, i + |t.start|, t.end, e)
  }

  /** A comment ends behind the first end token that follows its start token. */
  lemma CommentLengthIff(s: CString, i: nat, t: Tokens, e: nat)
    requires Holds(s, i, t.start)
    ensures i <= |s| && Starts(s[i..], t.start)
    ensures CommentLength(s[i..], t) == Some(e + |t.end| - i) <==> EndsAt(s, t, i, e)
    ensures CommentLength(s[i..], t).None? <==> forall k :: i + |t.start| <= k <= |s| ==> !Holds(s, k, t.end)
  {
    hide Find, Starts;
    HoldsElements(s, i, t.start);
    StartsIsHolds(s, i, t.start);
    assert s[i..][|t.start|..] == s[i + |t.start|..];
    FindIsFirst(s, i + |t.start|, t.end);
  }

  /** The text with its comments blanked; behind an unterminated comment start nothing more is changed. */
  function Blanked(s: CString, m: Mode, t: Tokens): (r: CString)
    requires t.start != []
    ensures |r| == |s|
    decreases |s|
  {
    if s == [] then []
    else if Opens(s, m, t) then
      match CommentLength(s, t)
      case None => Blanks(|t.start|) + s[|t.start|..]
      case Some(n) => Blanks(n) + Blanked(s[n..], m.(escaped := false), t)
    else [s[0]] + Blanked(s[1..], Next(s[0], m), t)
  }

  /** Every comment the scan recognises is terminated. */
  predicate AllTerminated(s: CString, m: Mode, t: Tokens)
    requires t.start != []
    decreases |s|
  {
    if s == [] then true
    else if Opens(s, m, t) then
      match CommentLength(s, t)
      case None => false
      case Some(n) => AllTerminated(s[n..], m.(escaped := false), t)
    else AllTerminated(s[1..], Next(s[0], m), t)
  }

  lemma OpensStarts(s: CString, m: Mode, t: Tokens)
    requires Opens(s, m, t)
    ensures Starts(s, t.start)
  {
  }

  lemma BlankedKeeps(s: CString, m: Mode, t: Tokens)
    requires t.start != [] && s != [] && !Opens(s, m, t)
    ensures Blanked(s, m, t) == [s[0]] + Blanked(s[1..], Next(s[0], m), t)
  {
  }

  lemma BlankedJumps(rest: CString, m: Mode, t: Tokens, n: nat)
    requires t.start != [] && Opens(rest, m, t) && CommentLength(rest, t) == Some(n)
    ensures Blanked(rest, m, t) == Blanks(n) + Blanked(rest[n..], m.(escaped := false), t)
  {
  }

  lemma BlankedEnds(rest: CString, m: Mode, t: Tokens)
    requires t.start != [] && Opens(rest, m, t) && CommentLength(rest, t).None?
    ensures |t.start| <= |rest| && Blanked(rest, m, t) == Blanks(|t.start|) + rest[|t.start|..]
  {
  }

  /** Characters only ever change to spaces. */
  lemma {:induction false} OnlyToBlanks(s: CString, m: Mode, t: Tokens)
    requires t.start != []
    ensures forall k :: 0 <= k < |s| ==> Blanked(s, m, t)[k] == s[k] || Blanked(s, m, t)[k] == BLANK
    decreases |s|
  {
    hide Blanked, Opens, CommentLength, Next;
    if s == [] {
    } else if !Opens(s, m, t) {
      BlankedKeeps(s, m, t);
      OnlyToBlanks(s[1..], Next(s[0], m), t);
    } else {
      OpensStarts(s, m, t);
      match CommentLength(s, t)
      case None => BlankedEnds(s, m, t);
      case Some(n) =>
        BlankedJumps(s, m, t, n);
        OnlyToBlanks(s[n..], m.(escaped := false), t);
    }
  }

  // --- What becomes blank ---

  /** The mode in which the scan reaches position `i`, None when it jumps over it or stops before it. */
  function Reached(s: CString, m: Mode, t: Tokens, i: nat): Option<Mode>
    requires t.start != [] && i <= |s|
    decreases |s|
  {
    if i == 0 then Some(m)
    else if Opens(s, m, t) then
      match CommentLength(s, t)
      case None => None
      case Some(n) => if i < n then None else Reached(s[n..], m.(escaped := false), t, i - n)
    else Reached(s[1..], Next(s[0], m), t, i - 1)
  }

  lemma DropBoth(s: seq<byte>, a: seq<byte>, b: seq<byte>, i: nat)
    requires |a| <= i <= |s| && |s| == |a| + |b|
    ensures (a + b)[i..] == b[i - |a|..] && s[|a|..][i - |a|..] == s[i..]
  {
  }

  /** From a position the scan reaches it goes on as if the text started there. */
  lemma {:induction false} ReachedGoesOn(s: CString, m: Mode, t: Tokens, i: nat)
    requires t.start != [] && i <= |s| && Reached(s, m, t, i).Some?
    ensures Blanked(s, m, t)[i..] == Blanked(s[i..], Reached(s, m, t, i).value, t)
    decreases |s|
  {
    hide Blanked, CommentLength, Blanks, Starts, Next;
    if i == 0 {
      assert s[0..] == s && Blanked(s, m, t)[0..] == Blanked(s, m, t);
    } else if Opens(s, m, t) {
      var n := CommentLength(s, t).value;
      BlankedJumps(s, m, t, n);
      ReachedGoesOn(s[n..], m.(escaped := false), t, i - n);
      DropBoth(s, Blanks(n), Blanked(s[n..], m.(escaped := false), t), i);
    } else {
      BlankedKeeps(s, m, t);
      ReachedGoesOn(s[1..], Next(s[0], m), t, i - 1);
      DropBoth(s, [s[0]], Blanked(s[1..], Next(s[0], m), t), i);
    }
  }

  /** A comment opens at `i`: the scan gets there outside strings, and finds the start token. */
  predicate OpensAt(s: CString, m: Mode, t: Tokens, i: nat)
    requires t.start != []
  {
    && i < |s| && Reached(s, m, t, i).Some? && Holds(s, i, t.start)
    && var r := Reached(s, m, t, i).value;
       !r.inString && (r.escaped || (s[i] != QUOTE && s[i] != BACKSLASH))
  }

  lemma OpensAtIs(s: CString, m: Mode, t: Tokens, i: nat)
    requires t.start != [] && i <= |s| && Reached(s, m, t, i).Some?
    ensures OpensAt(s, m, t, i) <==> Opens(s[i..], Reached(s, m, t, i).value, t)
  {
    hide Reached, Starts, Holds;
    StartsIsHolds(s, i, t.start);
    if i < |s| {
      assert s[i..][0] == s[i];
    }
  }

  /** From a position it reaches, the scan gets to the same positions as if the text started there. */
  lemma {:induction false} ReachedFrom(s: CString, m: Mode, t: Tokens, i: nat, k: nat)
    requires t.start != [] && i <= k <= |s| && Reached(s, m, t, i).Some?
    ensures Reached(s, m, t, k) == Reached(s[i..], Reached(s, m, t, i).value, t, k - i)
    decreases |s|
  {
    hide CommentLength, Starts, Next;
    if i == 0 {
      assert s[0..] == s;
    } else if Opens(s, m, t) {
      var n := CommentLength(s, t).value;
      assert s[n..][i - n..] == s[i..];
      ReachedFrom(s[n..], m.(escaped := false), t, i - n, k - n);
    } else {
      assert s[1..][i - 1..] == s[i..];
      ReachedFrom(s[1..], Next(s[0], m), t, i - 1, k - 1);
    }
  }

  lemma ReachedBehind(s: CString, m: Mode, t: Tokens, n: nat)
    requires t.start != [] && Opens(s, m, t) && CommentLength(s, t) == Some(n)
    ensures 0 < n <= |s| && Reached(s, m, t, n) == Some(m.(escaped := false))
  {
  }

  lemma ReachedNone(s: CString, m: Mode, t: Tokens, k: nat)
    requires t.start != [] && Opens(s, m, t) && CommentLength(s, t).None? && 0 < k <= |s|
    ensures Reached(s, m, t, k).None?
  {
  }

  /**
   * A comment that opens at `i` becomes blank up to the first end token behind its start token, that token included,
   * and the scan goes on behind it.
   */
  lemma CommentIsBlanked(s: CString, m: Mode, t: Tokens, i: nat, e: nat)
    requires t.start != [] && OpensAt(s, m, t, i) && EndsAt(s, t, i, e)
    ensures e + |t.end| <= |s| && forall k :: i <= k < e + |t.end| ==> Blanked(s, m, t)[k] == 0x20
    ensures Reached(s, m, t, e + |t.end|) == Some(Reached(s, m, t, i).value.(escaped := false))
  {
    hide CommentLength, Opens, Reached, FirstAt, Blanked;
    var r, mode, n := Blanked(s, m, t), Reached(s, m, t, i).value, e + |t.end| - i;
    CommentLengthIff(s, i, t, e);
    OpensAtIs(s, m, t, i);
    ReachedGoesOn(s, m, t, i);
    BlankedJumps(s[i..], mode, t, n);
    ReachedBehind(s[i..], mode, t, n);
    ReachedFrom(s, m, t, i, i + n);
    assert forall k :: i <= k < i + n ==> r[k] == r[i..][k - i];
  }

  /** Of a comment without an end token the start token becomes blank; all behind it stays, and the scan is over. */
  lemma UnterminatedStays(s: CString, m: Mode, t: Tokens, i: nat)
    requires t.start != [] && OpensAt(s, m, t, i) && forall k :: i + |t.start| <= k <= |s| ==> !Holds(s, k, t.end)
    ensures var n := |t.start|;
            i + n <= |s| && Blanked(s, m, t)[i..i + n] == Blanks(n) && Blanked(s, m, t)[i + n..] == s[i + n..]
    ensures forall k :: i < k <= |s| ==> Reached(s, m, t, k).None?
  {
    hide CommentLength, Opens, Reached, Blanked;
    var r, n, mode := Blanked(s, m, t), |t.start|, Reached(s, m, t, i).value;
    CommentLengthIff(s, i, t, i);
    OpensAtIs(s, m, t, i);
    ReachedGoesOn(s, m, t, i);
    BlankedEnds(s[i..], mode, t);
    assert r[i..][..n] == r[i..i + n] && r[i..][n..] == r[i + n..] && s[i..][n..] == s[i + n..];
    forall k | i < k <= |s|
      ensures Reached(s, m, t, k).None?
    {
      ReachedFrom(s, m, t, i, k);
      ReachedNone(s[i..], mode, t, k - i);
    }
  }

  lemma ReachedOne(s: CString, m: Mode, t: Tokens)
    requires t.start != [] && s != [] && !Opens(s, m, t)
    ensures Reached(s, m, t, 1) == Some(Next(s[0], m))
  {
  }

  /** A character that the scan reaches and that opens no comment stays, and the scan goes on behind it. */
  lemma OutsideUntouched(s: CString, m: Mode, t: Tokens, i: nat)
    requires t.start != [] && i < |s| && Reached(s, m, t, i).Some? && !OpensAt(s, m, t, i)
    ensures Reached(s, m, t, i + 1) == Some(Next(s[i], Reached(s, m, t, i).value)) && Blanked(s, m, t)[i] == s[i]
  {
    hide Reached, Opens, Next, Blanked;
    var mode := Reached(s, m, t, i).value;
    OpensAtIs(s, m, t, i);
    ReachedFrom(s, m, t, i, i + 1);
    ReachedOne(s[i..], mode, t);
    ReachedGoesOn(s, m, t, i);
    BlankedKeeps(s[i..], mode, t);
    assert Blanked(s, m, t)[i..][0] == Blanked(s, m, t)[i];
  }

  /** Inside a comment the scan stops nowhere. */
  lemma ReachedInside(s: CString, m: Mode, t: Tokens, i: nat, e: nat, k: nat)
    requires t.start != [] && OpensAt(s, m, t, i) && EndsAt(s, t, i, e) && i < k < e + |t.end| && k <= |s|
    ensures Reached(s, m, t, k).None?
  {
    hide CommentLength, Opens, Reached, FirstAt;
    CommentLengthIff(s, i, t, e);
    OpensAtIs(s, m, t, i);
    ReachedFrom(s, m, t, i, k);
    JumpsOver(s[i..], Reached(s, m, t, i).value, t, k - i);
  }

  lemma JumpsOver(s: CString, m: Mode, t: Tokens, k: nat)
    requires t.start != [] && Opens(s, m, t) && CommentLength(s, t).Some? && 0 < k <= |s| && k < CommentLength(s, t).value
    ensures Reached(s, m, t, k).None?
  {
  }

  /** What opens at `i` covers `k`: with its start token, or up to the end of its first end token. */
  ghost predicate Covers(s: CString, t: Tokens, i: nat, k: nat) {
    k < i + |t.start| || exists e: nat :: EndsAt(s, t, i, e) && k < e + |t.end|
  }

  ghost predicate CoveredFrom(s: CString, m: Mode, t: Tokens, from: nat, k: nat)
    requires t.start != []
  {
    exists i :: from <= i <= k && OpensAt(s, m, t, i) && Covers(s, t, i, k)
  }

  lemma CoversUpTo(s: CString, t: Tokens, i: nat, e: nat, k: nat)
    requires EndsAt(s, t, i, e)
    ensures i + |t.start| <= e && (Covers(s, t, i, k) <==> k < e + |t.end|)
  {
    if e': nat :| EndsAt(s, t, i, e') && k < e' + |t.end| {
      assert e' == e;
    }
  }

  lemma CoversStart(s: CString, t: Tokens, i: nat, k: nat)
    requires !exists e :: EndsAt(s, t, i, e)
    ensures Covers(s, t, i, k) <==> k < i + |t.start|
  {
  }

  lemma OpensIsReached(s: CString, m: Mode, t: Tokens, i: nat)
    requires t.start != [] && OpensAt(s, m, t, i)
    ensures i + |t.start| <= |s| && Reached(s, m, t, i).Some?
  {
  }

  lemma NotInside(s: CString, m: Mode, t: Tokens, i: nat, e: nat, k: nat)
    requires t.start != [] && OpensAt(s, m, t, i) && EndsAt(s, t, i, e) && i < k < e + |t.end|
    ensures !OpensAt(s, m, t, k)
  {
    hide Reached, OpensAt, EndsAt;
    if OpensAt(s, m, t, k) {
      OpensIsReached(s, m, t, k);
      ReachedInside(s, m, t, i, e, k);
    }
  }

  /** Behind a comment it plays no part any more. */
  lemma BehindComment(s: CString, m: Mode, t: Tokens, i: nat, e: nat, k: nat)
    requires t.start != [] && OpensAt(s, m, t, i) && EndsAt(s, t, i, e) && e + |t.end| <= k < |s|
    ensures i < e && (CoveredFrom(s, m, t, e + |t.end|, k) <==> CoveredFrom(s, m, t, i, k))
  {
    hide OpensAt, EndsAt, Covers;
    CoversUpTo(s, t, i, e, k);
    forall x | i < x < e + |t.end|
      ensures !OpensAt(s, m, t, x)
    {
      NotInside(s, m, t, i, e, x);
    }
  }

  /** Where nothing is found first, nothing is found. */
  lemma {:induction false} FirstExists(s: CString, t: Tokens, i: nat, k: nat)
    requires i + |t.start| <= k && Holds(s, k, t.end)
    ensures exists e :: EndsAt(s, t, i, e)
    decreases k
  {
    hide Holds;
    if x :| i + |t.start| <= x < k && Holds(s, x, t.end) {
      FirstExists(s, t, i, x);
    } else {
      assert EndsAt(s, t, i, k);
    }
  }

  /** Behind a comment that does not end nothing opens. */
  lemma NothingBehind(s: CString, m: Mode, t: Tokens, i: nat)
    requires t.start != [] && OpensAt(s, m, t, i) && !exists e :: EndsAt(s, t, i, e)
    ensures forall x :: i < x ==> !OpensAt(s, m, t, x)
    ensures forall x :: i + |t.start| <= x <= |s| ==> !Holds(s, x, t.end)
  {
    hide Reached, OpensAt, EndsAt, Blanked, Holds;
    forall x | i + |t.start| <= x <= |s|
      ensures !Holds(s, x, t.end)
    {
      if Holds(s, x, t.end) {
        FirstExists(s, t, i, x);
      }
    }
    UnterminatedStays(s, m, t, i);
    forall x | i < x
      ensures !OpensAt(s, m, t, x)
    {
      if OpensAt(s, m, t, x) {
        OpensIsReached(s, m, t, x);
      }
    }
  }

  /** What opens without ending covers its start token only. */
  lemma BehindStart(s: CString, m: Mode, t: Tokens, i: nat, k: nat)
    requires t.start != [] && i <= k < |s| && OpensAt(s, m, t, i) && !exists e :: EndsAt(s, t, i, e)
    ensures Blanked(s, m, t)[k] == if CoveredFrom(s, m, t, i, k) then BLANK else s[k]
  {
    hide OpensAt, EndsAt, Blanked, Holds;
    NothingBehind(s, m, t, i);
    UnterminatedStays(s, m, t, i);
    var r, n := Blanked(s, m, t), i + |t.start|;
    assert k < n ==> r[k] == r[i..n][k - i];
    assert k >= n ==> r[k] == r[n..][k - n] && s[k] == s[n..][k - n];
    CoversStart(s, t, i, k);
  }

  lemma {:induction false} BlankOrKept(s: CString, m: Mode, t: Tokens, i: nat, k: nat)
    requires t.start != [] && i <= k < |s| && Reached(s, m, t, i).Some?
    ensures Blanked(s, m, t)[k] == if CoveredFrom(s, m, t, i, k) then BLANK else s[k]
    decreases |s| - i
  {
    hide Blanked, Reached, OpensAt, EndsAt, Covers;
    if !OpensAt(s, m, t, i) {
      OutsideUntouched(s, m, t, i);
      if i < k {
        BlankOrKept(s, m, t, i + 1, k);
      }
    } else if e: nat :| EndsAt(s, t, i, e) {
      CommentIsBlanked(s, m, t, i, e);
      CoversUpTo(s, t, i, e, k);
      if k >= e + |t.end| {
        BehindComment(s, m, t, i, e, k);
        BlankOrKept(s, m, t, e + |t.end|, k);
      }
    } else {
      BehindStart(s, m, t, i, k);
    }
  }

  /**
   * The whole effect, character by character: blank is what some comment covers, from a start token that the scan
   * reaches outside strings to the first end token behind it; everything else stays.
   */
  lemma BlankedIff(s: CString, m: Mode, t: Tokens, k: nat)
    requires t.start != [] && k < |s|
    ensures Blanked(s, m, t)[k]
            == if exists i :: 0 <= i <= k && OpensAt(s, m, t, i) && Covers(s, t, i, k) then 0x20 else s[k]
  {
    hide Blanked, OpensAt, Covers;
    BlankOrKept(s, m, t, 0, k);
  }

  lemma OneBlank(r: CString, m: Mode, t: Tokens)
    requires t == BLOCK || t == LINE
    ensures Blanked([BLANK] + r, m, t) == [BLANK] + Blanked(r, m.(escaped := false), t)
  {
    var s := [BLANK] + r;
    assert s[0] == BLANK && s[1..] == r;
    assert |t.start| <= |s| ==> s[..|t.start|][0] == s[0];
    assert !Opens(s, m, t);
  }

  lemma {:induction false} BlanksPass(n: nat, r: CString, m: Mode, t: Tokens)
    requires (t == BLOCK || t == LINE) && 0 < n
    ensures Blanked(Blanks(n) + r, m, t) == Blanks(n) + Blanked(r, m.(escaped := false), t)
    decreases n
  {
    hide Blanked;
    var rest := m.(escaped := false);
    assert Blanks(n) + r == [BLANK] + (Blanks(n - 1) + r);
    OneBlank(Blanks(n - 1) + r, m, t);
    if n == 1 {
      assert Blanks(0) + r == r;
    } else {
      BlanksPass(n - 1, r, rest, t);
    }
    assert [BLANK] + (Blanks(n - 1) + Blanked(r, rest, t)) == Blanks(n) + Blanked(r, rest, t);
  }

  /** No comment start is recognised. */
  predicate NothingOpens(s: CString, m: Mode, t: Tokens)
    decreases |s|
  {
    s == [] || (!Opens(s, m, t) && NothingOpens(s[1..], Next(s[0], m), t))
  }

  lemma {:induction false} UnchangedIff(s: CString, m: Mode, t: Tokens)
    requires t == BLOCK || t == LINE
    ensures Blanked(s, m, t) == s <==> NothingOpens(s, m, t)
    decreases |s|
  {
    if s != [] {
      if Opens(s, m, t) {
        assert s[0] == s[..|t.start|][0] == t.start[0];
        assert Blanked(s, m, t)[0] == BLANK;
      } else {
        UnchangedIff(s[1..], Next(s[0], m), t);
        assert s == [s[0]] + s[1..];
        assert Blanked(s, m, t)[1..] == Blanked(s[1..], Next(s[0], m), t);
      }
    }
  }

  /** Every recognised comment is terminated, or nothing that would open a comment stands behind the one that is not. */
  predicate Settled(s: CString, m: Mode, t: Tokens)
    requires t.start != []
    decreases |s|
  {
    if s == [] then true
    else if Opens(s, m, t) then
      match CommentLength(s, t)
      case None => NothingOpens(s[|t.start|..], m.(escaped := false), t)
      case Some(n) => Settled(s[n..], m.(escaped := false), t)
    else Settled(s[1..], Next(s[0], m), t)
  }

  lemma SamePrefix(p: seq<byte>, x: seq<byte>, y: seq<byte>)
    ensures p + x == p + y <==> x == y
  {
    assert (p + x)[|p|..] == x && (p + y)[|p|..] == y;
  }

  /** Blanking the tail of a text opens no comment at its head. */
  lemma HeadStaysClosed(s: CString, m: Mode, t: Tokens)
    requires (t == BLOCK || t == LINE) && s != [] && !Opens(s, m, t)
    ensures !Opens([s[0]] + Blanked(s[1..], Next(s[0], m), t), m, t)
  {
  }

  /** A second pass changes nothing if and only if the text is settled. */
  lemma {:induction false} IdempotentIff(s: CString, m: Mode, t: Tokens)
    requires t == BLOCK || t == LINE
    ensures Blanked(Blanked(s, m, t), m, t) == Blanked(s, m, t) <==> Settled(s, m, t)
    decreases |s|
  {
    if s != [] {
      if Opens(s, m, t) {
        match CommentLength(s, t)
        case None =>
          var rest := s[|t.start|..];
          BlanksPass(|t.start|, rest, m, t);
          UnchangedIff(rest, m.(escaped := false), t);
          SamePrefix(Blanks(|t.start|), Blanked(rest, m.(escaped := false), t), rest);
        case Some(n) =>
          var r := Blanked(s[n..], m.(escaped := false), t);
          BlanksPass(n, r, m, t);
          IdempotentIff(s[n..], m.(escaped := false), t);
          SamePrefix(Blanks(n), Blanked(r, m.(escaped := false), t), r);
      } else {
        var r := Blanked(s[1..], Next(s[0], m), t);
        HeadStaysClosed(s, m, t);
        assert ([s[0]] + r)[1..] == r;
        IdempotentIff(s[1..], Next(s[0], m), t);
        SamePrefix([s[0]], Blanked(r, Next(s[0], m), t), r);
      }
    }
  }

  lemma {:induction false} TerminatedIsSettled(s: CString, m: Mode, t: Tokens)
    requires t.start != [] && AllTerminated(s, m, t)
    ensures Settled(s, m, t)
    decreases |s|
  {
    if s != [] {
      if Opens(s, m, t) {
        TerminatedIsSettled(s[CommentLength(s, t).value..], m.(escaped := false), t);
      } else {
        TerminatedIsSettled(s[1..], Next(s[0], m), t);
      }
    }
  }

  /** When every recognised comment is terminated, one pass is enough. */
  lemma TerminatedIsIdempotent(s: CString, t: Tokens)
    requires (t == BLOCK || t == LINE) && AllTerminated(s, Mode(false, false), t)
    ensures var once := Blanked(s, Mode(false, false), t); Blanked(once, Mode(false, false), t) == once
  {
    TerminatedIsSettled(s, Mode(false, false), t);
    IdempotentIff(s, Mode(false, false), t);
  }

  /** No comment is left exactly when the text is settled; in particular when every recognised comment is terminated. */
  lemma NoCommentLeftIff(s: CString, m: Mode, t: Tokens)
    requires t == BLOCK || t == LINE
    ensures NothingOpens(Blanked(s, m, t), m, t) <==> Settled(s, m, t)
    ensures AllTerminated(s, m, t) ==> NothingOpens(Blanked(s, m, t), m, t)
  {
    hide Blanked, NothingOpens, Settled, AllTerminated;
    IdempotentIff(s, m, t);
    UnchangedIff(Blanked(s, m, t), m, t);
    if AllTerminated(s, m, t) {
      TerminatedIsSettled(s, m, t);
    }
  }

  /** A second pass can change more: behind the unterminated start in slash-star-slash-star it finds another one. */
  lemma SecondPassMatters()
    ensures var s: CString := BLOCK.start + BLOCK.start; var m := Mode(false, false);
            Blanked(Blanked(s, m, BLOCK), m, BLOCK) != Blanked(s, m, BLOCK)
  {
    var s: CString, m := BLOCK.start + BLOCK.start, Mode(false, false);
    var rest := s[2..];
    assert rest == BLOCK.start && Starts(s, BLOCK.start);
    assert rest[0..] == rest && rest[..2][0] == 0x2F != BLOCK.end[0];
    assert Opens(rest, m, BLOCK) && !NothingOpens(rest, m, BLOCK);
    IdempotentIff(s, m, BLOCK);
  }

  // --- In place ---

  /** The buffer holds the part already scanned, the rest of the text, and what stands behind the text. */
  ghost predicate Shows(buf: array<byte>, done: seq<byte>, rest: seq<byte>, tail: seq<byte>)
    reads buf
  {
    buf[..] == done + rest + tail
  }

  lemma ShowsRest(buf: array<byte>, done: seq<byte>, rest: seq<byte>, tail: seq<byte>)
    requires Shows(buf, done, rest, tail)
    ensures buf.Length == |done| + |rest| + |tail| && buf[|done|..|done| + |rest|] == rest
    ensures rest != [] ==> buf[|done|] == rest[0]
    ensures rest == [] && tail != [] ==> buf[|done|] == tail[0]
  {
  }

  method Blank(buf: array<byte>, i: nat, n: nat, ghost done: seq<byte>, ghost rest: seq<byte>, ghost tail: seq<byte>)
    requires Shows(buf, done, rest, tail) && i == |done| && n <= |rest|
    modifies buf
    ensures Shows(buf, done + Blanks(n), rest[n..], tail)
  {
    for k := 0 to n
      invariant Shows(buf, done + Blanks(k), rest[k..], tail)
    {
      buf[i + k] := BLANK;
    }
  }

  /** The state of the scan: at `i`, with `goal` still to be reached from the rest of the text in mode `m`. */
  ghost predicate Scanning(buf: array<byte>, i: int, len: nat, done: seq<byte>, rest: CString, tail: seq<byte>, m: Mode, t: Tokens, goal: seq<byte>)
    reads buf
  {
    && t.start != [] && tail != [] && tail[0] == NUL
    && i == |done| && len == i + |rest| && Shows(buf, done, rest, tail)
    && done + Blanked(rest, m, t) == goal
  }

  /** Blanks the comment that opens at `i`, or only its start token when it is not terminated. */
  method BlankComment(buf: array<byte>, i: nat, len: nat, t: Tokens, ghost done: seq<byte>, ghost rest: CString, ghost tail: seq<byte>)
    returns (next: Option<nat>)
    requires Shows(buf, done, rest, tail) && i == |done| && len == i + |rest| && Starts(rest, t.start)
    modifies buf
    ensures match CommentLength(rest, t)
            case None => next == None && Shows(buf, done + Blanks(|t.start|), rest[|t.start|..], tail)
            case Some(n) => next == Some(i + n) && Shows(buf, done + Blanks(n), rest[n..], tail)
  {
    hide Shows, Blanks, Starts, Find;
    var k := |t.start|;
    StartsFits(rest, t.start);
    Blank(buf, i, k, done, rest, tail);
    ShowsRest(buf, done + Blanks(k), rest[k..], tail);
    match Find(buf[i + k..len], t.end)
    case None =>
      next := None;
    case Some(p) =>
      var n := p + |t.end|;
      Blank(buf, i + k, n, done + Blanks(k), rest[k..], tail);
      BlanksJoin(done, k, n);
      assert rest[k..][n..] == rest[k + n..];
      next := Some(i + k + n);
  }

  lemma StartsFits(s: CString, token: CString)
    requires Starts(s, token)
    ensures |token| <= |s|
  {
  }

  lemma BlanksJoin(done: seq<byte>, k: nat, n: nat)
    ensures done + Blanks(k) + Blanks(n) == done + Blanks(k + n)
  {
  }

  /** The scan of the text `s`, blanked up to `i`. */
  ghost predicate ScanAt(buf: array<byte>, i: int, s: CString, tail: seq<byte>, m: Mode, t: Tokens)
    reads buf
  {
    && 0 <= i <= |s| && i <= buf.Length && t.start != []
    && Scanning(buf, i, |s|, buf[..i], s[i..], tail, m, t, Blanked(s, Mode(false, false), t))
  }

  lemma ScanAtLooks(buf: array<byte>, i: int, s: CString, tail: seq<byte>, m: Mode, t: Tokens)
    requires ScanAt(buf, i, s, tail, m, t)
    ensures 0 <= i <= |s| < buf.Length && buf[i..|s|] == s[i..]
    ensures if i == |s| then buf[i] == NUL && Blanked(s, Mode(false, false), t) + tail == buf[..] else buf[i] == s[i..][0] != NUL
  {
  }

  lemma ScanAtKeeps(buf: array<byte>, i: int, s: CString, tail: seq<byte>, m: Mode, t: Tokens)
    requires ScanAt(buf, i, s, tail, m, t) && i < |s| && !Opens(s[i..], m, t)
    ensures ScanAt(buf, i + 1, s, tail, Next(s[i..][0], m), t)
  {
    hide Blanked, Opens, Next;
    BlankedKeeps(s[i..], m, t);
    assert buf[..i + 1] == buf[..i] + [s[i..][0]];
  }

  lemma ShowsFront(buf: array<byte>, done: seq<byte>, rest: seq<byte>, tail: seq<byte>)
    requires Shows(buf, done, rest, tail)
    ensures |done| <= buf.Length && buf[..|done|] == done
  {
  }

  /** The scan jumps behind a terminated comment, and ends at one that is not. */
  method ScanComment(buf: array<byte>, i: nat, t: Tokens, len: nat, ghost s: CString, ghost tail: seq<byte>, ghost m: Mode)
    returns (next: Option<nat>)
    requires ScanAt(buf, i, s, tail, m, t) && len == |s| && Opens(s[i..], m, t)
    modifies buf
    ensures match next
            case None => buf[..] == Blanked(s, Mode(false, false), t) + tail
            case Some(j) => i < j <= len && ScanAt(buf, j, s, tail, m.(escaped := false), t)
  {
    hide Blanked, CommentLength, Shows;
    ghost var done := buf[..i];
    next := BlankComment(buf, i, len, t, done, s[i..], tail);
    if next.None? {
      ScanEnds(buf, i, s, tail, m, t, done);
    } else {
      ScanJumps(buf, i, s, tail, m, t, done, next.value - i);
    }
  }

  lemma ScanEnds(buf: array<byte>, i: nat, s: CString, tail: seq<byte>, m: Mode, t: Tokens, done: seq<byte>)
    requires i <= |s| && t.start != [] && Opens(s[i..], m, t) && CommentLength(s[i..], t).None?
    requires done + Blanked(s[i..], m, t) == Blanked(s, Mode(false, false), t)
    requires Shows(buf, done + Blanks(|t.start|), s[i..][|t.start|..], tail)
    ensures buf[..] == Blanked(s, Mode(false, false), t) + tail
  {
    hide Blanked, Blanks, CommentLength, Opens;
    var n, rest := |t.start|, s[i..];
    BlankedEnds(rest, m, t);
    assert done + Blanks(n) + rest[n..] == done + (Blanks(n) + rest[n..]);
  }

  lemma ScanJumps(buf: array<byte>, i: nat, s: CString, tail: seq<byte>, m: Mode, t: Tokens, done: seq<byte>, n: nat)
    requires i <= |s| && i == |done| && t.start != [] && tail != [] && tail[0] == NUL
    requires Opens(s[i..], m, t) && CommentLength(s[i..], t) == Some(n)
    requires done + Blanked(s[i..], m, t) == Blanked(s, Mode(false, false), t)
    requires Shows(buf, done + Blanks(n), s[i..][n..], tail)
    ensures 0 < n && i + n <= |s| && ScanAt(buf, i + n, s, tail, m.(escaped := false), t)
  {
    hide Blanked, Blanks, CommentLength, Shows, Opens;
    var goal, front, after := Blanked(s, Mode(false, false), t), done + Blanks(n), s[i..][n..];
    var r := Blanked(after, m.(escaped := false), t);
    BlankedJumps(s[i..], m, t, n);
    assert front + r == done + (Blanks(n) + r);
    assert Scanning(buf, i + n, |s|, front, after, tail, m.(escaped := false), t, goal);
    ShowsFront(buf, front, after, tail);
    assert after == s[i + n..];
  }

  /** `remove_comments` on a buffer whose text ends at its first NUL, `len`; what stands behind the text is not touched. */
  method RemoveComments(buf: array<byte>, len: nat, t: Tokens)
    requires len < buf.Length && buf[len] == NUL && NUL !in buf[..len]
    modifies buf
    ensures (t.start == [] || t.end == []) ==> buf[..] == old(buf[..])
    ensures t.start != [] && t.end != [] ==> buf[..] == Blanked(old(buf[..len]), Mode(false, false), t) + old(buf[len..])
  {
    if |t.start| == 0 || |t.end| == 0 {
      return;
    }
    ghost var s: CString, tail := buf[..len], buf[len..];
    var inString, escaped := false, false;
    var i := 0;
    ScanBegins(buf, s, tail, t);
    hide ScanAt, Blanked, Starts;
    ScanAtLooks(buf, i, s, tail, Mode(inString, escaped), t);
    while buf[i] != NUL
      invariant 0 <= i <= len && ScanAt(buf, i, s, tail, Mode(inString, escaped), t)
      decreases len - i
    {
      ghost var m := Mode(inString, escaped);
      var c := buf[i];
      ScanAtLooks(buf, i, s, tail, m, t);
      if c == BACKSLASH && !escaped {
        escaped := true;
      } else if c == QUOTE && !escaped {
        inString := !inString;
        escaped := false;
      } else if !inString && Starts(buf[i..len], t.start) {
        var next := ScanComment(buf, i, t, len, s, tail, m);
        if next.None? {
          return;
        }
        i, escaped := next.value, false;
        continue;
      } else {
        escaped := false;
      }
      ScanAtKeeps(buf, i, s, tail, m, t);
      i := i + 1;
    }
    ScanAtLooks(buf, i, s, tail, Mode(inString, escaped), t);
  }

  lemma ScanBegins(buf: array<byte>, s: CString, tail: seq<byte>, t: Tokens)
    requires buf[..] == s + tail && tail != [] && tail[0] == NUL && t.start != []
    ensures ScanAt(buf, 0, s, tail, Mode(false, false), t)
  {
  }
}
