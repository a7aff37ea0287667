/** What the recursive-descent parser accepts, as functions of the text and a position. */
module Grammar {
  import opened Bytes
  import opened Items
  import opened Quotes
  import opened Json
  import opened Numerals

  /** `Rejected`: the parser returns NULL.  `OutsideModel`: a decimal numeral of a number that is no exact integer. */
  datatype Failure = Rejected | OutsideModel

  datatype Parse<+T> = Failed(why: Failure) | Done(value: T, end: nat)

  /** `isspace` in the C locale. */
  predicate IsSpace(c: byte) {
    c == SPACE || 0x09 <= c <= 0x0D
  }

  function SkipSpaces(s: CString, i: nat): (j: nat)
    requires i <= |s|
    ensures i <= j <= |s| && !IsSpace(At(s, j))
    decreases |s| - i
  {
    if IsSpace(At(s, i)) then SkipSpaces(s, i + 1) else i
  }

  function NumberAt(s: CString, i: nat): (r: Parse<Json>)
    requires i <= |s|
    ensures r.Done? ==> i <= r.end <= |s|
  {
    var c := StrtodAt(s, i);
    if !IsDecimal(s[i..c.end]) then Failed(Rejected)
    else match c.double
         case Whole(n) => Done(Number(n), c.end)
         case NotFinite => Failed(Rejected)
         case Other => Failed(OutsideModel)
  }

  function TokenAt(s: CString, i: nat, token: CString, v: Json): Parse<Json> {
    if Holds(s, i, token) then Done(v, i + |token|) else Failed(Rejected)
  }

  function StringAt(s: CString, i: nat): (r: Parse<Json>)
    requires i <= |s|
    ensures r.Done? ==> i <= r.end <= |s|
  {
    match QuotedAt(s, i)
    case None => Failed(Rejected)
    case Some((text, end)) => Done(String(text), end)
  }

  function BooleanAt(s: CString, i: nat): Parse<Json> {
    if Holds(s, i, TRUE) then TokenAt(s, i, TRUE, Boolean(true)) else TokenAt(s, i, FALSE, Boolean(false))
  }

  function ValueAt(s: CString, i: nat, nesting: nat): (r: Parse<Json>)
    requires i <= |s|
    ensures r.Done? ==> i <= r.end <= |s|
    decreases |s| - i, 2
  {
    if nesting > MAX_NESTING then Failed(Rejected)
    else
      var j := SkipSpaces(s, i);
      var c := At(s, j);
      if c == LBRACE then ObjectAt(s, j, nesting + 1)
      else if c == LBRACKET then ArrayAt(s, j, nesting + 1)
      else if c == QUOTE then StringAt(s, j)
      else if c == 0x66 || c == 0x74 then BooleanAt(s, j)
      else if c == MINUS || IsDigit(c) then NumberAt(s, j)
      else if c == 0x6E then TokenAt(s, j, NULL, Null)
      else Failed(Rejected)
  }

  function ArrayAt(s: CString, i: nat, nesting: nat): (r: Parse<Json>)
    requires i < |s|
    ensures r.Done? ==> i <= r.end <= |s|
    decreases |s| - i, 1
  {
    var j := SkipSpaces(s, i + 1);
    if At(s, j) == RBRACKET then Done(Array([]), j + 1) else ItemsAt(s, j, nesting, [])
  }

  /** The items from `i` on, behind the items `before`; a comma before the closing bracket is accepted. */
  function ItemsAt(s: CString, i: nat, nesting: nat, before: seq<Json>): (r: Parse<Json>)
    requires i <= |s|
    ensures r.Done? ==> i <= r.end <= |s|
    decreases |s| - i, 3
  {
    if At(s, i) == NUL then Failed(Rejected)
    else match ValueAt(s, i, nesting)
         case Failed(why) => Failed(why)
         case Done(v, end) =>
           var j := SkipSpaces(s, end);
           if At(s, j) != COMMA then CloseArray(s, j, before + [v])
           else
             var k := SkipSpaces(s, j + 1);
             if At(s, k) == RBRACKET then CloseArray(s, k, before + [v]) else ItemsAt(s, k, nesting, before + [v])
  }

  function CloseArray(s: CString, i: nat, items: seq<Json>): Parse<Json>
    requires i <= |s|
  {
    if At(s, i) == RBRACKET then Done(Array(items), i + 1) else Failed(Rejected)
  }

  function ObjectAt(s: CString, i: nat, nesting: nat): (r: Parse<Json>)
    requires i < |s|
    ensures r.Done? ==> i <= r.end <= |s|
    decreases |s| - i, 1
  {
    var j := SkipSpaces(s, i + 1);
    if At(s, j) == RBRACE then Done(Object([]), j + 1) else MembersAt(s, j, nesting, [])
  }

  /** One `name: value` pair at `i`; a name with an embedded NUL is refused. */
  function MemberAt(s: CString, i: nat, nesting: nat): (r: Parse<Entry<Json>>)
    requires i <= |s|
    ensures r.Done? ==> i + 2 <= r.end <= |s|
    decreases |s| - i, 3
  {
    match QuotedAt(s, i)
    case None => Failed(Rejected)
    case Some((name, end)) =>
      var j := SkipSpaces(s, end);
      if NUL in name || At(s, j) != COLON then Failed(Rejected)
      else match ValueAt(s, j + 1, nesting)
           case Failed(why) => Failed(why)
           case Done(v, k) => Done(Entry(name, v), k)
  }

  /** The members from `i` on, behind the members `before`; a name seen before is refused. */
  function MembersAt(s: CString, i: nat, nesting: nat, before: seq<Entry<Json>>): (r: Parse<Json>)
    requires i <= |s|
    ensures r.Done? ==> i <= r.end <= |s|
    decreases |s| - i, 4
  {
    if At(s, i) == NUL then Failed(Rejected)
    else match MemberAt(s, i, nesting)
         case Failed(why) => Failed(why)
         case Done(m, end) =>
           if HasName(before, m.name) then Failed(Rejected)
           else
             var j := SkipSpaces(s, end);
             if At(s, j) != COMMA then CloseObject(s, j, before + [m])
             else
               var k := SkipSpaces(s, j + 1);
               if At(s, k) == RBRACE then CloseObject(s, k, before + [m]) else MembersAt(s, k, nesting, before + [m])
  }

  function CloseObject(s: CString, i: nat, members: seq<Entry<Json>>): Parse<Json>
    requires i <= |s|
  {
    if At(s, i) == RBRACE then Done(Object(members), i + 1) else Failed(Rejected)
  }

  /** The UTF-8 byte order mark. */
  const BOM: CString := [0xEF, 0xBB, 0xBF]

  /** `json_parse_string`: a byte order mark is skipped, text behind the first value is ignored. */
  function ParseString(s: CString): (r: Parse<Json>)
  {
    if Holds(s, 0, BOM) then ValueAt(s, 3, 0) else ValueAt(s, 0, 0)
  }

  /** One round of the array loop. */
  lemma ItemsStep(s: CString, i: nat, nesting: nat, before: seq<Json>)
    requires i <= |s|
    ensures ItemsAt(s, i, nesting, before) ==
            if At(s, i) == NUL then Failed(Rejected)
            else match ValueAt(s, i, nesting)
            case Failed(why) => Failed(why)
            case Done(v, end) =>
              var j := SkipSpaces(s, end);
              if At(s, j) != COMMA then CloseArray(s, j, before + [v])
              else
                var k := SkipSpaces(s, j + 1);
                if At(s, k) == RBRACKET then CloseArray(s, k, before + [v]) else ItemsAt(s, k, nesting, before + [v])
  {
  }

  /** One round of the object loop. */
  lemma MembersStep(s: CString, i: nat, nesting: nat, before: seq<Entry<Json>>)
    requires i <= |s|
    ensures MembersAt(s, i, nesting, before) ==
            if At(s, i) == NUL then Failed(Rejected)
            else match MemberAt(s, i, nesting)
            case Failed(why) => Failed(why)
            case Done(m, end) =>
              if HasName(before, m.name) then Failed(Rejected)
              else
                var j := SkipSpaces(s, end);
                if At(s, j) != COMMA then CloseObject(s, j, before + [m])
                else
                  var k := SkipSpaces(s, j + 1);
                  if At(s, k) == RBRACE then CloseObject(s, k, before + [m]) else MembersAt(s, k, nesting, before + [m])
  {
  }
}
