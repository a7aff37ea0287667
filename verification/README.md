# A verified model of the delivery order server

The server loads orders from a JSON file, lets a kitchen thread finish each of them, and hands finished orders to
couriers who announce themselves over a socket. Its two intricate parts are modelled here: the JSON library
(`order_process_server/parson.c`) and the dispatch protocol (`courier_manager.c`, `order_manager.c`,
`time_manager.c`). `dafny verify dfyconfig.toml` checks the whole project.

Code that changes things step by step is written as methods and classes over arrays; each such method is proved
against a function, and the properties below are proved of those functions.

| Module | What it models |
|---|---|
| `Bytes`, `Arithmetic` | bytes, NUL-terminated strings, the readable terminator; products and remainders |
| `CellLayout` | the cell array of the object hash table: linear probing and backward-shift deletion on cyclic positions |
| `Items` | the ordered member list an object stands for, and the finite map behind it |
| `HashTable` | class `JsonObject`: the table itself, five arrays and three counters |
| `Utf8` | UTF-8 well-formedness (RFC 3629, sections 3 and 4) and the library's checker |
| `StringCodec` | what the raw text of a JSON string denotes: escapes, surrogate pairs (RFC 2781, section 2.2) |
| `Quotes` | quoted strings: scanning, unescaping into a buffer, and how strings are written |
| `Json` | JSON values, and the text printed for them, compact or pretty |
| `Numerals` | what `strtod` converts, with fractions and exponents, and which of it is accepted |
| `Grammar` | what the parser accepts, with its deviations from RFC 8259 |
| `Spelling` | the same texts as a grammar that generates them, and that the parser accepts exactly these |
| `RoundTrip` | printing and parsing undo each other |
| `PrintedText` | the compact and the pretty text of every value, character for character |
| `Parser`, `Printer` | the parser with its moving cursor, and the serializer that measures and then writes |
| `Equality`, `Validation` | `json_value_equals`, `json_validate` |
| `DottedPaths`, `ObjectTree` | dotted names on values, and on nested objects and arrays that are changed in place; deep copies |
| `Comments`, `Commented` | blanking comments in place; parsing with comments allowed |
| `Pools`, `Sweep` | the courier ring, the swap-remove pools, the time records; the listener's sweep |
| `Lexicon` | the fixed characters, words and tables, spelled out |
| `Dispatch`, `DispatchRuns`, `Threads` | the protocol as a state machine, what holds over all its runs, and the threads' code on the pools as runs of it |

The parser is modelled with the deviations from RFC 8259 it has: layout includes vertical tab and form feed; a comma
before a closing bracket is accepted; a name that occurs twice is refused, so is a name with an embedded NUL;
containers nest to 2048 levels; text behind the first value is ignored. Of numerals, a point may stand last, or first
behind a minus sign; a zero with an exponent but no point is refused; where a number is tried, whatever `strtod`
converts is taken, so that `5e` reads five, `0x` reads zero, and a minus sign without a numeral is a zero that
leaves the sign unread.

Two promises of the sources do not hold and are stated exactly instead. The repository's `README.md` (lines 39 and
45) says that an order without a courier waits in the ready list; the arrival step (`courier_manager.c:161-169`)
drops the order or the courier when it finds only one of the two. For an arrival that runs through,
`DispatchRuns.ArrivalLosesOrderIff` and `DispatchRuns.ArrivalLosesCourierIff` say exactly when. Interleaved with other
threads, an arrival for any order can lose one as well (`DispatchRuns.SomeRunLosesUnnamed`); how many orders a whole
run loses is `DispatchRuns.OrdersLostOverRun`. `DispatchRuns.SomeRunLosesAnOrder` says that losses happen, and
`DispatchRuns.LostForGood` that a lost order is never delivered. Nor does a courier for any order ever wait
(`DispatchRuns.RingEmptyAtRest`, `DispatchRuns.ArrivalAtRest`). Nothing in the code bounds the ready list or the time
records: `DispatchRuns.SafeIffOrdersFit` says that they are safe for exactly the order files of at most 1000 orders.
Of `json_validate`, transitivity fails through an empty array; `Validation.TransitiveIffFirm` gives the exact condition
on the middle document, and `Validation.SubsumesIsExact` the exact relation between two schemas.

Assumptions: a section between lock and unlock is one step; the listener's match, which reads the pools without a
lock, is one step too, and so is recording a delivery (`time_manager.c:14-18`), which takes no lock; allocation
succeeds; the locale is `C`; `strtod` is exact on decimal numerals of integers below 2^53, and so is `%1.17g` on these
integers; `rand` is a parameter; `unsigned long` has 64 bits. Orders and couriers carry a ticket that tells them apart
as their addresses do.

## Model

| member | source | states |
|---|---|---|
| CellLayout.EmptyCellExists | order_process_server/parson.c:540-557 | a table with more cells than items has an empty cell, so every probe meets its name or stops |
| CellLayout.HomeIsLowPart | order_process_server/parson.c:530 | the home cell is the low part of the hash, whatever stands above |
| CellLayout.InsertKeepsPlaced | order_process_server/parson.c:585-590 | storing an item in the empty cell its probe found keeps cells and positions inverse and every probe path unbroken |
| CellLayout.SwapStartsShifting | order_process_server/parson.c:641-649 | moving the last item into the freed slot leaves two cells on one item, and an intact table but for the freed cell |
| CellLayout.MoveKeepsShifting | order_process_server/parson.c:663-668 | moving an item back into the hole keeps every other item reachable, when its home is not between hole and cell |
| CellLayout.SkipKeepsShifting | order_process_server/parson.c:657-669 | an item whose home is between hole and cell may stay |
| CellLayout.StopRestoresPlaced | order_process_server/parson.c:659-670 | once an empty cell is met, emptying the hole restores the whole table invariant |
| HashTable.GrowthMakesRoom | order_process_server/parson.c:429-440 | a table starts with 16 cells and doubles, which keeps the capacity a power of two and makes the item capacity strictly larger, so add and grow recurse once |
| HashTable.LoadFactor | order_process_server/parson.c:440 | up to 2^24 cells exactly seven tenths of them, rounded down, may be taken |
| HashTable.HashAppends | order_process_server/parson.c:399-410 | the hash of no characters is 5381, and each character takes it on to 33 times as much plus itself, in 64 bits |
| HashTable.HashString | order_process_server/parson.c:393-412 | the loop computes the hash of the first n characters, 64-bit wrap-around included |
| HashTable.AfterIsSource | order_process_server/parson.c:663-664 | the sources' condition for moving an item is the cyclic "its home does not lie after the hole" |
| HashTable.JsonObject.constructor | order_process_server/parson.c:429-469 | a new table is valid and empty |
| HashTable.JsonObject.GetCellIx | order_process_server/parson.c:529-558 | finds the cell of a name exactly when the name is present, and else the empty cell where its probe path ends, within one lap |
| HashTable.JsonObject.Add | order_process_server/parson.c:560-594 | refuses exactly the names that are present, else appends the member; the table stays valid |
| HashTable.JsonObject.GrowAndRehash | order_process_server/parson.c:499-527 | same members in the same order, twice the capacity, room for one more |
| HashTable.JsonObject.CopyInto | order_process_server/parson.c:514-523 | the rehash loop adds every member in order and never fails |
| HashTable.JsonObject.GetN | order_process_server/parson.c:596-612 | looking up a name by its first n characters answers what the member list says |
| HashTable.JsonObject.SetValue | order_process_server/parson.c:2061-2102 | overwrites in place or appends; refuses exactly attached values, and then touches nothing |
| HashTable.JsonObject.RemoveInternal | order_process_server/parson.c:614-672 | succeeds exactly for present names; the last member moves into the gap, and the table is valid again |
| HashTable.JsonObject.SwapWithLast | order_process_server/parson.c:639-649 | the dense arrays lose one item; the cells are intact except for the freed one |
| HashTable.JsonObject.ShiftBack | order_process_server/parson.c:651-670 | the backward shift ends before a full lap and restores the table invariant |
| HashTable.JsonObject.PerformAll | order_process_server/parson.c:529-672 | over every sequence of add, set, remove and lookup the table answers as the member list does |
| Items.RunRefinesMap | order_process_server/parson.c:529-672 | over every such sequence the member list answers as a finite map, and its names stay distinct |
| Items.LookupAfterWithout | order_process_server/parson.c:614-672 | after a removal the name is gone and every other name keeps its value |
| Items.LookupAfterPut | order_process_server/parson.c:2061-2102 | after setting a name it has the new value and every other name keeps its own |
| Utf8.CodePointIffEncode | order_process_server/parson.c:324-364 | the checker accepts at a position exactly the shortest encoding of a scalar value, and its length is that encoding's |
| Utf8.LeadIff | order_process_server/parson.c:309-322 | a length is announced by exactly the bytes that lead an encoding of that length |
| Utf8.ValidIffEncodings | order_process_server/parson.c:366-376 | a byte string is valid exactly when it is the concatenated encodings of scalar values |
| Utf8.VerifySequence | order_process_server/parson.c:324-364 | computes that decision, reading nothing behind the NUL that ends the text |
| Utf8.IsValidUtf8 | order_process_server/parson.c:366-376 | computes validity of the whole string |
| StringCodec.PieceShrinks | order_process_server/parson.c:843-874 | every step of unescaping moves on and writes no more bytes than it reads |
| StringCodec.UnescapeShrinks | order_process_server/parson.c:830-883 | hence the buffer of `input_len + 1` always suffices |
| StringCodec.EscapeIffSpelled | order_process_server/parson.c:781-825 | an escape is accepted, with the bytes it writes and the position behind it, exactly when its hex digits are the UTF-16 form of a scalar value and the bytes its shortest UTF-8 form |
| StringCodec.EscapeWritesEncoding | order_process_server/parson.c:781-825 | the bytes an accepted escape writes are valid UTF-8 |
| StringCodec.EscapeRefusedIff | order_process_server/parson.c:781-825 | escapes are refused exactly when they spell no scalar value |
| StringCodec.LoneSurrogateRefused | order_process_server/parson.c:799-825 | so a trail surrogate alone, or a lead surrogate without a trail, is refused |
| StringCodec.UnescapeKeepsUtf8 | order_process_server/parson.c:830-883 | valid UTF-8 between the quotes gives a valid UTF-8 string |
| Quotes.SkipQuotes | order_process_server/parson.c:761-779 | the scan ends behind the first quote that no backslash escapes, or fails when there is none |
| Quotes.ScanAligns | order_process_server/parson.c:761-779 | the span it accepts holds no bare quote and no dangling backslash |
| Quotes.PieceLocal | order_process_server/parson.c:781-883 | on such a span every step reads the same whether or not it knows where the span ends, and stays aligned: it never passes the closing quote |
| Quotes.ParseUtf16Hex | order_process_server/parson.c:293-307 | accepts exactly four hex digits, stopping at the first NUL |
| Quotes.ParseUtf16 | order_process_server/parson.c:781-828 | writes exactly the bytes the escape denotes, and leaves both cursors on their last byte |
| Quotes.ProcessString | order_process_server/parson.c:830-885 | the new buffer holds what the span denotes and a NUL; null exactly when the span denotes nothing |
| Quotes.GetQuotedString | order_process_server/parson.c:887-896 | the same from the opening quote, with the cursor behind the closing one |
| Quotes.QuotedIffLiteral | order_process_server/parson.c:887-896 | a string is read as some bytes up to some position exactly when a string literal that denotes them stands there, escapes anywhere in it |
| Quotes.QuotedRoundTrip | order_process_server/parson.c:1251-1316 | for every byte string, NULs and quotes included, reading its written form ends at the final quote and gives the same bytes |
| RoundTrip.PrintThenParse | order_process_server/parson.c:1108-1332 | parsing the compact or pretty text of a value gives the value, exactly when it nests no deeper than 2048; deeper values are refused |
| PrintedText.CompactArray | order_process_server/parson.c:1124-1153 | compact arrays are the items' texts with single commas between them, in brackets, and nothing else |
| PrintedText.CompactObject | order_process_server/parson.c:1154-1203 | compact objects are the quoted names, each with a colon and its value's text, with single commas between them, in braces, and nothing else |
| PrintedText.PrettyArray | order_process_server/parson.c:1124-1153 | pretty arrays have every item on a line of its own behind four more spaces than the brackets; empty ones are `[]` |
| PrintedText.PrettyObject | order_process_server/parson.c:1154-1203 | pretty objects the same with quoted names, a colon and a space; empty ones are `{}` |
| PrintedText.CompactAtAnyLevel | order_process_server/parson.c:1108-1203 | compact text does not depend on how deep the value stands |
| PrintedText.StringsArePrinted | order_process_server/parson.c:1251-1316 | strings are their bytes' escapes one after the other, between quotes |
| PrintedText.EscapesArePrinted | order_process_server/parson.c:1258-1312 | the escape of every byte, `/` by the slash setting, control characters by two hex digits |
| PrintedText.NumbersArePrinted | order_process_server/parson.c:1223-1236 | numbers are printed in decimal without leading zeros, behind a minus sign if they are negative |
| PrintedText.WordsArePrinted | order_process_server/parson.c:1216-1242 | `null`, `true` and `false` |
| RoundTrip.RestIsIgnored | order_process_server/parson.c:1360-1368 | a printed value is read back whatever text stands behind it, unless it is a number behind which a digit, a point, an exponent with a digit, or (behind a zero) a hexadecimal marker with a digit stands; exactly then something else is read, or nothing |
| RoundTrip.MarkIsIgnored | order_process_server/parson.c:1364-1366 | a byte order mark in front changes nothing, under the same exact condition |
| Spelling.ParseIffSpelled | order_process_server/parson.c:898-1095 | the parser accepts a text as a value exactly when the text starts with a legal spelling of the value: RFC 8259 with layout, escapes, fractions and exponents anywhere, a trailing comma allowed, repeated names and names with a NUL excluded, nesting up to 2048 |
| Spelling.ReadIffSpelled | order_process_server/parson.c:898-921 | the same at every position and nesting level |
| Spelling.DerivedIsRead | order_process_server/parson.c:898-921 | every legal spelling is read, or refused for its nesting alone |
| Spelling.ParsedIsWellFormed | order_process_server/parson.c:898-1043 | whatever is accepted has distinct names in every object, exact numbers, and stays within the nesting limit |
| RoundTrip.ParsePrintParse | order_process_server/parson.c:1360-1368 | printing an accepted value and parsing it again gives the same value |
| Spelling.NumeralIsRead | order_process_server/parson.c:1073-1086 | a legal numeral of an integer, with or without fraction and exponent, that nothing continues is read in full, as its value |
| Spelling.OutsideIff | order_process_server/parson.c:1073-1086 | the model gives no answer for a number exactly where a legal numeral stands whose number is no integer below 2^53 |
| Numerals.NumberIffSpelled | order_process_server/parson.c:1073-1086 | a conversion is accepted exactly where a legal decimal numeral stands that nothing continues, with the number it denotes, or where a minus sign stands bare; leading zeros, hexadecimal numerals, infinities and NaNs are refused |
| Numerals.NumeralIsConverted | order_process_server/parson.c:1077 | `strtod` converts the longest numeral: one that nothing continues is converted in full |
| Numerals.LongestIsConverted | order_process_server/parson.c:1077 | and it reads at least as far as any numeral that stands there |
| Numerals.DoubleOfIff | order_process_server/parson.c:1077-1085 | the integer below 2^53 that a numeral denotes, from its digits alone: the digits before and behind the point, the number of those behind it, the digits and the sign of the exponent |
| Spelling.ElementsAreRead | order_process_server/parson.c:1015-1034 | the array loop reads spelled-out elements behind those it has, in order, up to the closing bracket |
| Spelling.ElementsAreSpelled | order_process_server/parson.c:1015-1034 | and whatever it reads is spelled out |
| Spelling.PairsAreRead | order_process_server/parson.c:944-986 | the object loop reads spelled-out pairs behind those it has, in order, up to the closing brace |
| Spelling.PairsAreSpelled | order_process_server/parson.c:944-986 | and whatever it reads is spelled out, without a repeated name |
| Lexicon.LayoutIsMadeOf | order_process_server/parson.c:76 | the six characters that are layout |
| Lexicon.PunctuationIs | order_process_server/parson.c:904-918 | the characters of the grammar |
| Lexicon.WordsAre | order_process_server/parson.c:1058-1095 | the three words |
| Lexicon.MarkIs | order_process_server/parson.c:1364 | the byte order mark is the UTF-8 form of U+FEFF |
| Lexicon.HexDigitsAre | order_process_server/parson.c:282-291 | the value of a hex digit is its place among the digits of either case |
| Lexicon.ShortEscapesAre | order_process_server/parson.c:843-852 | the eight short escapes and what each stands for; there is no other |
| Lexicon.HexStarts | order_process_server/parson.c:1077-1081 | which numerals are hexadecimal |
| Lexicon.WordsStart | order_process_server/parson.c:1077 | infinity and NaN are recognised in every mixture of cases |
| Lexicon.ExponentLetterIs | order_process_server/parson.c:1077 | the letter of an exponent, in either case |
| Lexicon.EncodingsAre | order_process_server/parson.c:324-364 | encodings at the bounds of each length, and which code points are surrogates |
| Lexicon.CommentTokensAre | order_process_server/parson.c:1377-1378 | the tokens of the two comment forms |
| Parser.CheckDecimal | order_process_server/parson.c:378-391 | the backward scan decides: no leading zero, no hexadecimal marker |
| Parser.ParseValue | order_process_server/parson.c:898-921 | the moving cursor reads exactly what the grammar says, or fails exactly when it does |
| Parser.ParseArrayValue | order_process_server/parson.c:996-1043 | the same for arrays |
| Parser.ParseMemberInto | order_process_server/parson.c:945-975 | one pair lands in the table as its last member, unless its name is there already |
| Parser.ParseRound | order_process_server/parson.c:944-986 | one round adds one pair to the table, and says whether another must follow |
| Parser.ParseMembers | order_process_server/parson.c:944-986 | the loop over the pairs leaves the members in the table in source order |
| Parser.ParseObjectValue | order_process_server/parson.c:923-994 | an object is what its table holds in the end |
| Parser.JsonParseString | order_process_server/parson.c:1360-1368 | the entry point computes what the grammar says of the whole text |
| Printer.AppendString | order_process_server/parson.c:1327-1332 | appends exactly the text and a NUL, or only measures it |
| Printer.SerializeString | order_process_server/parson.c:1251-1316 | appends exactly the quoted form, byte by byte, and counts it |
| Printer.Serialize | order_process_server/parson.c:1108-1249 | measuring and writing return the same count, and writing appends exactly the text and a NUL within that room |
| Printer.SerializationSize | order_process_server/parson.c:1776-1780 | the length of the text and one byte for the NUL |
| Printer.SerializeToBuffer | order_process_server/parson.c:1782-1793 | fails exactly for a buffer that is too small and leaves it alone; else text and NUL stand at its front |
| Printer.SerializeToString | order_process_server/parson.c:1817-1834 | the buffer is filled exactly and ends in its only NUL |
| Equality.EqualsIffCanonical | order_process_server/parson.c:2341-2404 | the comparison holds exactly when the values are equal as trees whose objects are finite maps |
| Equality.EqualsIsEquivalence | order_process_server/parson.c:2341-2404 | it is reflexive, symmetric and transitive, although only the left object's names are walked |
| Equality.SameMaps | order_process_server/parson.c:2376-2391 | equal member counts and agreement on one side's names make two objects the same map |
| Validation.CountCheckIsRedundant | order_process_server/parson.c:2311-2322 | the early rejection by member count never refuses what the member checks would accept |
| Validation.AcceptsIff | order_process_server/parson.c:2281-2339 | which values each kind of schema accepts: all for null, its own kind for a leaf, and for containers by the first item and by the required members |
| Validation.SubsumesIsSound | order_process_server/parson.c:2281-2339 | what a more demanding schema accepts, the less demanding one accepts |
| Validation.SubsumesIsExact | order_process_server/parson.c:2281-2339 | a decidable comparison of two schemas holds if and only if everything the second accepts the first accepts |
| Validation.TransitiveIffFirm | order_process_server/parson.c:2281-2339 | the exact condition on a middle document for validation to be transitive through it, over all schemas and all values |
| Validation.ValidateIsTransitive | order_process_server/parson.c:2281-2339 | in particular it is through every middle document without an empty array |
| Validation.EmptyArrayBreaksTransitivity | order_process_server/parson.c:2294-2307 | through an empty array it is not: a concrete triple |
| DottedPaths.DotSetThenDotGet | order_process_server/parson.c:2149-2198 | what was set is read back; a name that is neither prefix nor extension keeps its result; names stay distinct |
| DottedPaths.SetPathThenGetPath | order_process_server/parson.c:2149-2198 | after a set, reading any path at all: behind it inside the value, at a prefix an object, elsewhere as before |
| DottedPaths.DotSetFailsIff | order_process_server/parson.c:2149-2198 | setting fails exactly when the value has a parent or a proper prefix leads to something that is no object |
| DottedPaths.DotGetIsGetPath | order_process_server/parson.c:1418-1425 | reading a dotted name is reading along its components |
| DottedPaths.ComponentsIff | order_process_server/parson.c:1418-1425 | the components of a name are the one way to split it into pieces without dots |
| ObjectTree.ObjectNode.DotGetValue | order_process_server/parson.c:1418-1425 | on nested tables, finds what the tree of values holds under the name |
| ObjectTree.ObjectNode.DotSetValue | order_process_server/parson.c:2149-2198 | changes the nested tables in place to the tree the name and value describe; on failure the tree is what it was |
| ObjectTree.ObjectNode.SetBelow | order_process_server/parson.c:2165-2173 | a change inside one member's object changes that member alone |
| ObjectTree.ObjectNode.MakeBelow | order_process_server/parson.c:2174-2196 | a missing object is added only once the value is in it, so a failure leaves nothing behind |
| ObjectTree.CopySlot | order_process_server/parson.c:1686-1765 | a deep copy is an equal tree of objects and arrays that shares nothing with the original |
| ObjectTree.ObjectNode.DeepCopy | order_process_server/parson.c:1719-1748 | its object branch, which looks every member up by name |
| ObjectTree.ListNode.DeepCopy | order_process_server/parson.c:1698-1718 | its array branch |
| ObjectTree.ListNode.Add | order_process_server/parson.c:707-736 | appends an item, in an array of twice the capacity when it is full |
| Comments.OnlyToBlanks | order_process_server/parson.c:232-265 | characters change only to spaces |
| Comments.OutsideUntouched | order_process_server/parson.c:232-265 | a character that the scan reaches and that opens no comment stays, and the scan goes on behind it |
| Comments.CommentIsBlanked | order_process_server/parson.c:247-260 | a comment becomes blank from its start token through the first end token behind that, and the scan goes on behind it |
| Comments.UnterminatedStays | order_process_server/parson.c:248-256 | of a comment without an end token only the start token becomes blank; all behind it stays, and the scan is over |
| Comments.BlankedIff | order_process_server/parson.c:232-265 | the whole effect, character by character: blank is exactly what a comment covers that opens outside strings, up to its first end token |
| Comments.FindIsFirst | order_process_server/parson.c:248 | a token is found where it stands first, and not found only where it does not stand |
| Comments.NoCommentLeftIff | order_process_server/parson.c:232-265 | no comment is left exactly when none opens behind an unterminated one, so none is left when all are terminated |
| Comments.IdempotentIff | order_process_server/parson.c:232-265 | a second pass changes nothing if and only if no comment start is recognised behind an unterminated one |
| Comments.TerminatedIsIdempotent | order_process_server/parson.c:232-265 | in particular when every recognised comment is terminated |
| Comments.SecondPassMatters | order_process_server/parson.c:248-256 | a text on which a second pass does change something |
| Comments.RemoveComments | order_process_server/parson.c:232-265 | in place: the buffer holds the blanked text, and nothing from its NUL on is touched |
| Commented.JsonParseStringWithComments | order_process_server/parson.c:1370-1383 | both passes over a copy, and then the parser |
| Commented.CommentsChangeNothing | order_process_server/parson.c:1370-1383 | a text accepted without comments allowed gives the same value with them allowed, unless it starts with a byte order mark |
| Commented.MarkIsRefused | order_process_server/parson.c:1370-1383 | with comments allowed, a byte order mark is always refused |
| Commented.BlockCommentsFirst | order_process_server/parson.c:1377-1378 | block comments are removed before line comments: a text that starts with two slashes and a star is refused whatever follows |
| Commented.PrintThenParseWithComments | order_process_server/parson.c:1370-1383 | printed text holds no comment and is read back with comments allowed |
| Pools.RandomCouriers.Enqueue | order_process_server/courier_manager.c:43-56 | the ring appends to a queue of at most 1000 couriers, and drops a courier when full |
| Pools.RandomCouriers.Dequeue | order_process_server/courier_manager.c:97-115 | takes the courier who has waited longest, if there is one |
| Pools.RingAppend | order_process_server/courier_manager.c:50-52 | writing behind the last value of a ring appends to its queue, wrap-around included |
| Pools.RingTail | order_process_server/courier_manager.c:107-109 | moving the front of a ring on takes the head off its queue |
| Pools.TargetCouriers.Add | order_process_server/courier_manager.c:71-85 | appends, or drops the courier when full |
| Pools.TargetCouriers.Remove | order_process_server/courier_manager.c:58-69 | the last courier fills the gap |
| Pools.ReadyOrders.Add | order_process_server/order_manager.c:23-30 | appends, given room |
| Pools.ReadyOrders.Remove | order_process_server/order_manager.c:88-100 | the last order fills the gap |
| Pools.ReadyOrders.PopRandom | order_process_server/order_manager.c:102-123 | takes out exactly the order the random number selects |
| Pools.TimeRecords.Add | order_process_server/time_manager.c:14-18 | appends one waiting time to each record, given room |
| Sweep.DeliverOrder | order_process_server/courier_manager.c:178-193 | records how long the order and the courier have waited |
| Sweep.FindNamed | order_process_server/courier_manager.c:202-203 | the first ready order of the name, or none |
| Sweep.SweepPools | order_process_server/courier_manager.c:201-216 | the nested loops over the shared arrays do what the sweep on lists does, delivery by delivery, and record both waiting times of each |
| Sweep.SweepsAccount | order_process_server/courier_manager.c:195-222 | over any number of sweeps no courier and no order is made, lost or delivered twice, and each courier gets the order they wait for |
| Sweep.SweepsFinish | order_process_server/courier_manager.c:195-222 | after min(couriers, orders) sweeps no match is left, although a sweep passes over the courier who was swapped in |
| Sweep.SweepServesHalf | order_process_server/courier_manager.c:201-216 | of couriers whose orders are all ready, one sweep serves exactly the first half, rounded up, in order |
| Sweep.EachNameDelivered | order_process_server/courier_manager.c:195-222 | each name is delivered exactly min(couriers for it, orders of it) times |
| Dispatch.StepKeepsPlaces | order_process_server/courier_manager.c:151-169 | no step makes, copies or destroys an order; a courier appears only by arriving |
| Dispatch.ArrivesWhere | order_process_server/courier_manager.c:151-158 | a courier announced as "none" joins the ring, any other the pool of named couriers; each holds 1000, and who comes then is lost |
| Threads.Dispatcher.JoinPool | order_process_server/courier_manager.c:151-158 | the same on the arrays of the two pools |
| Dispatch.RunKeepsInv | order_process_server/courier_manager.c:117-222 | over every interleaving orders and couriers are accounted for and the courier pools stay within 1000 |
| DispatchRuns.EveryOrderInOnePlace | order_process_server/order_manager.c:32-56 | every order is always in exactly one of: held by a thread, ready, paired, delivered, lost; none is delivered twice |
| DispatchRuns.OnlyEntitledDeliveries | order_process_server/courier_manager.c:151-216 | whoever delivers an order came for that name or for any order |
| DispatchRuns.NeverOverflows | order_process_server/order_manager.c:23-30 | with at most 1000 orders neither the ready list nor the time records are written past their end |
| DispatchRuns.CanOverflow | order_process_server/order_manager.c:23-30 | with more, some run does write past the end of the ready list |
| DispatchRuns.SafeIffOrdersFit | order_process_server/order_manager.c:19-30 | every run is safe if and only if there are at most 1000 orders |
| DispatchRuns.LostForGood | order_process_server/courier_manager.c:161-169 | an order once lost is delivered in no continuation |
| DispatchRuns.ArrivalLosesOrderIff | order_process_server/courier_manager.c:151-169 | an uninterrupted arrival loses an order exactly when one is ready, the ring is empty and the courier came for a name |
| DispatchRuns.ArrivalLosesCourierIff | order_process_server/courier_manager.c:151-169 | it loses a courier exactly when their pool is full, or no order is ready and the ring is not empty by then; it never lengthens the ring |
| DispatchRuns.SomeRunLosesAnOrder | order_process_server/courier_manager.c:161-169 | with any order at all, some run from the start loses one |
| DispatchRuns.SomeRunLosesUnnamed | order_process_server/courier_manager.c:161-169 | with any two orders, some run loses one although no courier comes for a named order: `prepare` takes the courier in between |
| DispatchRuns.OrdersLostOverRun | order_process_server/courier_manager.c:151-169 | over every run, orders lost and arrivals that find neither order nor courier together are at most the named arrivals, the drops at a full ring and the hand-overs by `prepare`; exactly as many whenever no arrival is under way |
| DispatchRuns.RingEmptyAtRest | order_process_server/courier_manager.c:151-169 | over every run, the ring is empty whenever no arrival is under way: no courier for any order ever waits |
| DispatchRuns.ArrivalAtRest | order_process_server/courier_manager.c:151-169 | in such a state a courier for any order leaves with an order if one is ready and is lost exactly if none is; a courier for a name makes the ready order that is picked get lost |
| DispatchRuns.SweepIsRun | order_process_server/courier_manager.c:195-222 | a sweep is a run of the state machine that touches nothing but the pools and the deliveries |
| Threads.Dispatcher.HandOver | order_process_server/order_manager.c:44-53 | the end of `prepare` on the shared pools is a run of the state machine, and each delivery's waiting times are recorded |
| Threads.Dispatcher.ArrivalStep | order_process_server/courier_manager.c:151-169 | so is the end of a courier's way |
| Threads.Dispatcher.Listen | order_process_server/courier_manager.c:195-219 | and so is one sweep of the listener |
| Threads.Dispatcher.Perform | order_process_server/courier_manager.c:151-222 | every section of every thread, taken alone from any state that leaves it room, changes pools and variables as its step says, and records the waiting times of what it delivers |
| Threads.Dispatcher.PerformAll | order_process_server/courier_manager.c:117-222 | so every interleaving of the sections is a run of the state machine, within the arrays for at most 1000 orders, and the time records hold the waiting times of all it delivered, in order |
| Threads.ThreadsHaveRoom | order_process_server/time_manager.c:14-18 | every state that at most 1000 orders lead to meets what these methods ask for |

## Left out

- HashTable.JsonObject.Add: asks for fewer members than a table of 2^31 cells holds; the counters of the sources are 32 bits wide and go wrong beyond. The parent pointer it sets in the value is not modelled.
- HashTable.JsonObject.SetValue: the same bound; freeing the old value and the parent pointer are not modelled, `attached` stands for a value that has a parent.
- HashTable.JsonObject.PerformAll: the same bound, for all calls together.
- HashTable.LoadFactor: for tables of up to 2^24 cells; beyond, the float nearest 0.7, which `ItemCapacity` models, gives less.
- Utf8.IsValidUtf8: decides the bytes of the string alone; the original can read past a span that is followed by a continuation byte.
- RoundTrip.PrintThenParse: for integers of magnitude below 2^53; printing and reading other numbers is the C library's.
- Spelling.ParseIffSpelled: for numbers that are integers below 2^53; a legal numeral of any other number is `OutsideModel` (`Spelling.OutsideIff`), although the original reads it, unless it overflows.
- Spelling.ReadIffSpelled: the same.
- Spelling.ParsedIsWellFormed: the same; the doubles the original accepts besides are not modelled.
- Numerals.NumberIffSpelled: which double `strtod` rounds other numerals to, and when it overflows, is not modelled.
- Parser.ParseArrayValue: the parsed arrays are sequences; growing arrays in place is `ObjectTree.ListNode`.
- Parser.JsonParseString: texts of less than 2^31 bytes; a numeral of no such integer gives `OutsideModel`, never a value. Minus zero is zero.
- Printer.Serialize: counts are unbounded; the original counts in `int`. Serialisation with a user-set float format is not part of this model.
- ObjectTree.ObjectNode.DotSetValue: there must be room for a member in every object on the way; parent pointers are the flag `attached`.
- ObjectTree.CopySlot: there must be room for a member in every object of the tree.
- Comments.RemoveComments: each pass does what it promises alone; together a quote inside a line comment misleads the first, so nothing is promised of what a text with both kinds of comments means.
- Commented.JsonParseStringWithComments: texts of less than 2^31 bytes, as for `json_parse_string`.
- Pools.ReadyOrders.Add: asks for the room that the original does not check; `Threads.ThreadsHaveRoom` says when it is there.
- Pools.TimeRecords.Add: likewise.
- Sweep.DeliverOrder: likewise; what it prints is left out.
- Threads.Dispatcher.HandOver: runs through without interruption; its sections one by one, interleaved with others, are `Threads.Dispatcher.PerformAll`.
- Threads.Dispatcher.ArrivalStep: likewise.
- Threads.Dispatcher.Listen: no other thread changes the pools while a sweep is on; the data races of the listener, and its use of freed memory, are below the level of the steps.
- Threads.Dispatcher.Perform: asks for the room that the original does not check.
- Threads.Dispatcher.PerformAll: for at most 1000 orders; with more, the original can write past its arrays (`DispatchRuns.CanOverflow`).
- `json_object_clear` leaves the cells pointing at stale items, so no invariant of the table survives it.
- Failing allocations, freeing, the allocator hooks, and the clean-up paths behind them.
- Removal along dotted names, and the typed getters, setters and append wrappers: they only forward to what is modelled.
- Files, sockets, signals, `sleep`, printing and thread creation, and how `process_orders` passes an order to its thread.
- The averages printed from the time records.
