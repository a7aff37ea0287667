/** The recursive-descent parser: a cursor over the text, building every object in a hash table. */
module Parser {
  import opened Bytes
  import opened Items
  import opened HashTable
  import opened Quotes
  import opened Json
  import opened Numerals
  import opened Grammar

  /** Texts are addressed with 32-bit lengths, so no object outgrows its table. */
  const MAX_TEXT := 0x8000_0000

  method SkipWhitespaces(s: CString, i: nat) returns (j: nat)
    requires i <= |s|
    ensures j == SkipSpaces(s, i) && SkipSpaces(s, j) == j
  {
    j := i;
    while IsSpace(At(s, j))
      invariant j <= |s| && SkipSpaces(s, j) == SkipSpaces(s, i)
      decreases |s| - j
    {
      j := j + 1;
    }
  }

  /** `strlen` of a NUL-terminated buffer. */
  method Strlen(a: array<byte>) returns (n: nat)
    requires 0 < a.Length && a[a.Length - 1] == NUL
    ensures n < a.Length && a[n] == NUL && NUL !in a[..n]
  {
    n := 0;
    while a[n] != NUL
      invariant n < a.Length && NUL !in a[..n]
      decreases a.Length - n
    {
      n := n + 1;
    }
  }

  /** `is_decimal`, scanning backwards for a hexadecimal marker. */
  method CheckDecimal(t: seq<byte>) returns (ok: bool)
    ensures ok == IsDecimal(t)
  {
    if |t| > 1 && t[0] == ZERO && t[1] != POINT {
      return false;
    }
    if |t| > 2 && t[0] == MINUS && t[1] == ZERO && t[2] != POINT {
      return false;
    }
    var length := |t|;
    while length > 0
      invariant 0 <= length <= |t|
      invariant forall k :: length <= k < |t| ==> t[k] != 0x78 && t[k] != 0x58
    {
      length := length - 1;
      if t[length] == 0x78 || t[length] == 0x58 {
        return false;
      }
    }
    return true;
  }

  method ParseNumberValue(s: CString, i: nat) returns (r: Parse<Json>)
    requires i <= |s|
    ensures r == NumberAt(s, i)
  {
    var c := StrtodAt(s, i);
    var ok := CheckDecimal(s[i..c.end]);
    if !ok {
      return Failed(Rejected);
    }
    match c.double
    case Whole(n) => r := Done(Number(n), c.end);
    case NotFinite => r := Failed(Rejected);
    case Other => r := Failed(OutsideModel);
  }

  method ParseStringValue(s: CString, i: nat) returns (r: Parse<Json>)
    requires i <= |s|
    ensures r == StringAt(s, i)
  {
    var text, len, end := GetQuotedString(s, i);
    r := if text == null then Failed(Rejected) else Done(String(text[..len]), end);
  }

  method ParseValue(s: CString, i: nat, nesting: nat) returns (r: Parse<Json>)
    requires i <= |s| < MAX_TEXT
    ensures r == ValueAt(s, i, nesting)
    decreases |s| - i, 2
  {
    if nesting > MAX_NESTING {
      return Failed(Rejected);
    }
    var j := SkipWhitespaces(s, i);
    var c := At(s, j);
    if c == LBRACE {
      r := ParseObjectValue(s, j, nesting + 1);
    } else if c == LBRACKET {
      r := ParseArrayValue(s, j, nesting + 1);
    } else if c == QUOTE {
      r := ParseStringValue(s, j);
    } else if c == 0x66 || c == 0x74 {
      r := BooleanAt(s, j);
    } else if c == MINUS || IsDigit(c) {
      r := ParseNumberValue(s, j);
    } else if c == 0x6E {
      r := TokenAt(s, j, NULL, Null);
    } else {
      r := Failed(Rejected);
    }
  }

  method ParseArrayValue(s: CString, i: nat, nesting: nat) returns (r: Parse<Json>)
    requires i < |s| < MAX_TEXT && At(s, i) == LBRACKET
    ensures r == ArrayAt(s, i, nesting)
    decreases |s| - i, 1
  {
    hide ValueAt, ItemsAt, SkipSpaces, IsSpace;
    var items := [];
    var p := SkipWhitespaces(s, i + 1);
    if At(s, p) == RBRACKET {
      return Done(Array(items), p + 1);
    }
    while At(s, p) != NUL
      invariant i < p <= |s| && SkipSpaces(s, p) == p
      invariant ItemsAt(s, p, nesting, items) == ArrayAt(s, i, nesting)
      decreases |s| - p
    {
      ItemsStep(s, p, nesting, items);
      var v := ParseValue(s, p, nesting);
      if v.Failed? {
        return Failed(v.why);
      }
      items := items + [v.value];
      p := SkipWhitespaces(s, v.end);
      if At(s, p) != COMMA {
        break;
      }
      p := SkipWhitespaces(s, p + 1);
      if At(s, p) == RBRACKET {
        break;
      }
    }
    ItemsStep(s, p, nesting, items);
    assert CloseArray(s, p, items) == ArrayAt(s, i, nesting);
    p := SkipWhitespaces(s, p);
    if At(s, p) != RBRACKET {
      return Failed(Rejected);
    }
    return Done(Array(items), p + 1);
  }

  /** One `name: value` pair; the name is refused when it holds a NUL. */
  method ParseMember(s: CString, i: nat, nesting: nat) returns (r: Parse<Entry<Json>>)
    requires i <= |s| < MAX_TEXT
    ensures r == MemberAt(s, i, nesting)
    decreases |s| - i, 3
  {
    hide ValueAt, QuotedAt;
    var key, keyLen, p := GetQuotedString(s, i);
    if key == null {
      return Failed(Rejected);
    }
    ghost var text := key[..keyLen];
    var n := Strlen(key);
    if keyLen != n {
      assert text[n] == NUL;
      return Failed(Rejected);
    }
    p := SkipWhitespaces(s, p);
    if At(s, p) != COLON {
      return Failed(Rejected);
    }
    var name: CString := key[..keyLen];
    var v := ParseValue(s, p + 1, nesting);
    if v.Failed? {
      return Failed(v.why);
    }
    return Done(Entry(name, v.value), v.end);
  }

  /** Parses one pair and adds it to the table; a name that is already there is refused. */
  method ParseMemberInto(s: CString, i: nat, nesting: nat, table: JsonObject<Json>) returns (r: Parse<()>)
    requires i <= |s| < MAX_TEXT && table.Valid() && table.count < MAX_ITEMS
    modifies table.Repr()
    ensures table.Valid() && fresh(table.Repr() - old(table.Repr()))
    ensures match MemberAt(s, i, nesting)
            case Failed(why) => r == Failed(why)
            case Done(m, end) =>
              if HasName(old(table.Contents()), m.name) then r == Failed(Rejected)
              else r == Done((), end) && table.Contents() == old(table.Contents()) + [m]
    decreases |s| - i, 4
  {
    hide MemberAt, Consistent, JsonObject.Allocated, JsonObject.Contents;
    var m := ParseMember(s, i, nesting);
    if m.Failed? {
      return Failed(m.why);
    }
    var ok := table.Add(m.value.name, m.value.value);
    if !ok {
      return Failed(Rejected);
    }
    return Done((), m.end);
  }

  /** One round of the loop over the pairs; `more` says whether another pair should follow at the cursor. */
  method ParseRound(s: CString, p: nat, nesting: nat, table: JsonObject<Json>) returns (r: Parse<()>, more: bool)
    requires p < |s| < MAX_TEXT && table.Valid() && 2 * |table.Contents()| <= p
    modifies table.Repr()
    ensures table.Valid() && fresh(table.Repr() - old(table.Repr()))
    ensures r.Failed? ==> MembersAt(s, p, nesting, old(table.Contents())) == Failed(r.why)
    ensures r.Done? ==>
              && p < r.end <= |s| && SkipSpaces(s, r.end) == r.end && 2 * |table.Contents()| <= r.end
              && MembersAt(s, p, nesting, old(table.Contents()))
                 == if more then MembersAt(s, r.end, nesting, table.Contents()) else CloseObject(s, r.end, table.Contents())
    decreases |s| - p, 5
  {
    hide MemberAt, MembersAt, SkipSpaces, HasName, CloseObject, IsSpace, Consistent, JsonObject.Allocated, JsonObject.Contents;
    MembersStep(s, p, nesting, table.Contents());
    var m := ParseMemberInto(s, p, nesting, table);
    if m.Failed? {
      return m, false;
    }
    var q := SkipWhitespaces(s, m.end);
    if At(s, q) != COMMA {
      return Done((), q), false;
    }
    q := SkipWhitespaces(s, q + 1);
    return Done((), q), At(s, q) != RBRACE;
  }

  /** The loop over the pairs of an object, up to where its closing brace should stand. */
  method ParseMembers(s: CString, i: nat, nesting: nat, table: JsonObject<Json>) returns (r: Parse<()>)
    requires i <= |s| < MAX_TEXT && SkipSpaces(s, i) == i
    requires table.Valid() && 2 * |table.Contents()| <= i
    modifies table.Repr()
    ensures table.Valid()
    ensures match r
            case Failed(why) => MembersAt(s, i, nesting, old(table.Contents())) == Failed(why)
            case Done(_, end) => end <= |s| && SkipSpaces(s, end) == end
                                 && MembersAt(s, i, nesting, old(table.Contents())) == CloseObject(s, end, table.Contents())
    decreases |s| - i, 6
  {
    hide MembersAt, SkipSpaces, Consistent, JsonObject.Allocated, JsonObject.Contents;
    r := Done((), i);
    var more := true;
    while more && At(s, r.end) != NUL
      invariant r.Done? && i <= r.end <= |s| && SkipSpaces(s, r.end) == r.end
      invariant table.Valid() && fresh(table.Repr() - old(table.Repr())) && 2 * |table.Contents()| <= r.end
      invariant MembersAt(s, i, nesting, old(table.Contents()))
                == if more then MembersAt(s, r.end, nesting, table.Contents()) else CloseObject(s, r.end, table.Contents())
      decreases |s| - r.end
    {
      r, more := ParseRound(s, r.end, nesting, table);
      if r.Failed? {
        return;
      }
    }
    if more {
      MembersStep(s, r.end, nesting, table.Contents());
    }
  }

  method ParseObjectValue(s: CString, i: nat, nesting: nat) returns (r: Parse<Json>)
    requires i < |s| < MAX_TEXT && At(s, i) == LBRACE
    ensures r == ObjectAt(s, i, nesting)
    decreases |s| - i, 1
  {
    hide MembersAt, SkipSpaces, Consistent, JsonObject.Allocated, JsonObject.Contents;
    var table := new JsonObject<Json>(0);
    var p := SkipWhitespaces(s, i + 1);
    if At(s, p) == RBRACE {
      return Done(Object([]), p + 1);
    }
    var m := ParseMembers(s, p, nesting, table);
    if m.Failed? {
      return Failed(m.why);
    }
    var members := table.Contents();
    p := SkipWhitespaces(s, m.end);
    if At(s, p) != RBRACE {
      return Failed(Rejected);
    }
    return Done(Object(members), p + 1);
  }

  method JsonParseString(s: CString) returns (r: Parse<Json>)
    requires |s| < MAX_TEXT
    ensures r == ParseString(s)
  {
    if Holds(s, 0, BOM) {
      r := ParseValue(s, 3, 0);
    } else {
      r := ParseValue(s, 0, 0);
    }
  }
}
