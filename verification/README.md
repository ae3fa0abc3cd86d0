# ChatHub verification

A Dafny model of the parts of ChatHub that every chat message passes through, with proofs about
them: the JSON library (`lib/parson.c`), the table that maps socket descriptors to connections
(`lib/hashtable.c`), the message layer (`lib/message.c`) and the credential text inside login
messages (`lib/config.c`, `client/client.c`).

Each procedure that works step by step in C (a cursor moving over a text, a buffer filled behind a
pointer, a table or an array changed in place) is a method here, proved against a function that says
what it computes. The theorems are about those functions.

## What is proved

- **The parser accepts exactly a grammar.** `Layout` and `Glyphs` state the grammar of JSON texts
  and strings without mentioning the parser (sections 2 and 7 of RFC 8259, with plain integers as
  numbers). `Grammar.ParsesExactlyTheGrammar` says that a value is read up to a rest if and only if
  the text up to the rest is a spelling of it and it fits under the nesting limit. The serializer
  writes one of the spellings, so parsing undoes printing, and printing is injective.
- **The text of each style is determined**: `Style.Gap` gives the whitespace between two tokens from
  these two and the number of open brackets, and every string is spelled in the shortest legal way
  that leaves no slash bare.
- **The measuring pass and the writing pass agree**, the allocated buffer is exactly long enough, and
  nothing beyond it is written.
- **UTF-8 is checked exactly, and kept.** The checker accepts exactly the shortest-form encodings of
  scalar values; parsing well-formed text gives well-formed strings.
- **Comment removal never touches a text of the grammar**, and comments count as whitespace: block
  comments always, a line comment exactly when its body meets a condition that is read off the body.
- **Objects are finite maps** under every run of additions, updates, removals and clearings, through
  growth by doubling and removal by swapping with the last member.
- **The hash table is a bounded map**, including the searches that never return, throughout a run of
  calls if and only if no deletion of the run frees a slot on another key's probe path. In the
  server's table this holds in every run.
- **Equality** is being the same tree up to the order of members and the tolerance in numbers.
- **Equality and validation** are not transitive; the exact conditions under which they are, are proved.
- **Messages and credentials** survive packing, transport as text and unpacking exactly under the
  conditions stated below.

## What the code does that its documentation does not say

The model follows the code. Each point is a theorem, or is in the function that models the code.

- A string with a cut-off `\u` escape makes `parse_utf16_hex` examine bytes behind the closing quote,
  as in `"\u"abc`. It never passes the terminating NUL, the result never depends on those bytes, and
  it happens only in strings that are refused. `Strings.Overreads` is the exact condition.
- A zero with an exponent and no fraction, as in `0e1`, is refused as a superfluous leading zero.
- A block comment that is never closed loses only its start; what follows is read.
- A lone minus sign reads as zero and is not consumed, so `-x` is the number 0 followed by `-x`.
- `json_parse_string_with_comments` skips no byte order mark, although `json_parse_string` does. Its
  first pass, for block comments, does not know about line comments: an open quote or an open block
  comment in one of those, or a star right behind its slashes, makes a text read as something else
  (`Comments.HarmlessIffLineSafe`).
- `json_value_equals` is not transitive on numbers, because of its tolerance: 0.0, 0.0000006 and
  0.0000012. It is on the trees over a set of numbers exactly when it is on the numbers.
- Validation is not transitive: an empty array accepts every array and satisfies every array schema.
  `Compare.Covers` compares two schemas and is the exact condition.
- `json_object_dotset_value` with a value that already has a parent fails, but leaves the intermediate
  objects it has created. Without a parent, a failed write changes nothing.
- `hash_delete` empties a slot without repairing the probe paths through it: a live key can be lost.
  A full table ignores updates as well as insertions, and a search in it for an absent key never ends
  (`HashTable.Search`).
- `json_object_set_string` silently stores nothing for a text that is not UTF-8, so a packed message
  with such a text lacks the member, and `unpack_message` then copies from a null pointer.
- `msg2user` leaves the time unset when the name or the password is empty or contains whitespace in a
  way that makes a conversion fail.

## Modules

| file | what it holds |
|---|---|
| Bytes, Json | bytes, C strings, character classes; values as trees and their depth |
| Utf8 | encoding of scalar values and the checker |
| Strings, Glyphs, StringReader | escapes: functions, the grammar of strings, the code over a cursor and a buffer |
| Numbers, NumberForms | number tokens; those that are refused or not modelled |
| Parser, ParserMethods | the parser as functions and as the code over a cursor |
| Layout, RoundTrip, Grammar, Soundness | the grammar, reading what is spelled, and only that |
| Style | the whitespace and the escapes of printed text |
| Serializer | the code in both modes |
| Comments | comment removal |
| Objects, DotPaths, Compare | objects as arrays, dotted paths, equality, copying and validation |
| HashTable, HashMap | probing over slots, the table as an object |
| Messages, Credentials | the message layer |

## Model

| member | source | states |
|---|---|---|
| Grammar.ParsesExactlyTheGrammar | lib/parson.c:629-796 | for every text, nesting, value and rest: the parser returns the value and stops at the rest if and only if the text up to the rest is a spelling of the value in the grammar (any whitespace, any legal escapes, distinct names; or the lone minus sign) and the value fits under the nesting limit |
| Grammar.Unambiguous | lib/parson.c:629-796 | two spellings of one text, of which one fits under the nesting limit, denote the same value |
| Grammar.ParsedIsGrammatical | lib/parson.c:629-796 | from any successful parse, at any nesting, a grammatical spelling of the value is recovered from the bytes consumed |
| Grammar.ForeignHasNumber | lib/parson.c:629-796 | a text that is neither read nor refused within the model holds a number outside of it |
| Grammar.NumberIsDecimal | lib/parson.c:250-262 | a number read within the model was spelled in the only decimal form of its integer, with no leading zero, and the next bytes do not continue it |
| Grammar.LoneMinusStays | lib/parson.c:777-787 | a minus sign without digits reads as zero, and the cursor stays on it |
| RoundTrip.ParseWoven | lib/parson.c:629-748 | any spelling with any whitespace between its tokens, in any context, is read as its value when nesting plus height is at most 2048, and rejected when it is more |
| RoundTrip.ParseUndoesPrint | lib/parson.c:809-943 | printed text, compact or pretty, at every indentation level, after any whitespace and before any rest that does not continue a top-level number, parses back to the same tree with its member order and stops exactly at the rest, if and only if it fits under the limit |
| RoundTrip.PrintedNumberNeedsAnEnd | lib/parson.c:777-787 | the condition on the rest after a top-level number is also necessary |
| RoundTrip.ParseTextUndoesPrint | lib/parson.c:1048-1056 | `json_parse_string` of serialized text gives the tree back; no byte order mark is mistaken |
| RoundTrip.ByteOrderMark | lib/parson.c:1048-1056 | exactly one U+FEFF in UTF-8 is skipped at the front of a text |
| RoundTrip.PrintInjective | lib/parson.c:1461-1478 | values with equal texts are equal, even across the two styles |
| Style.TextIsLaid | lib/parson.c:809-943 | at every level, the text of either style is the value's tokens with exactly the whitespace of the rule `Gap` between them: none in the compact style; in the pretty one a line break and four spaces a level before elements, names and closing brackets of containers that are not empty, and a space behind a colon |
| Style.CompactIsTokens | lib/parson.c:809-943 | compact text is the concatenation of the tokens |
| Style.PrintedExample | lib/parson.c:871-896 | one object in both styles, byte by byte |
| Style.TextIsTidy | lib/parson.c:955 | in printed text every slash stands behind the backslash of its escape, so no end tag of a surrounding document occurs in it, and the digits of escapes are in lower case |
| Style.CompactIsOneLine | lib/parson.c:945-1004 | compact text has no byte below 0x20, whatever its strings contain |
| Style.TextIsWoven | lib/parson.c:1006-1013 | printed text is the tokens with only whitespace between them |
| Layout.CanonicalDenotes | lib/parson.c:809-943 | the serializer's spelling is grammatical and denotes the value |
| Soundness.ParsedFits | lib/parson.c:43 | every parsed value has NUL-free strings, distinct names in every object, exactly held integers, and does not pass the nesting limit |
| Json.HeightIsDeepest | lib/parson.c:629-633 | the height that the nesting limit bounds is the length of a path to a value in the tree |
| Json.HeightBoundsPaths | lib/parson.c:629-633 | no path to a value is longer |
| Soundness.ParsedReprints | lib/parson.c:1048-1056 | whatever text a value came from, printing it in either style and parsing again gives the same value |
| Soundness.ParseKeepsUtf8 | lib/parson.c:629-796 | parsing well-formed UTF-8 gives well-formed strings and names, and leaves well-formed text |
| ParserMethods.ParseValueAt | lib/parson.c:629-652 | the recursive code over a cursor ends on every text, agrees with the parser function in value and final position, and never reads behind the NUL |
| ParserMethods.ParseObjectValue | lib/parson.c:654-708 | the member loop agrees with its function, including the refusal of a repeated name; it is entered at a nesting of at most 2049 |
| ParserMethods.ParseArrayValue | lib/parson.c:710-748 | the element loop agrees with its function; it is entered at a nesting of at most 2049 |
| ParserMethods.ParseNumberValue | lib/parson.c:777-787 | number, refusal or unmodelled token, with the cursor where the function leaves it |
| ParserMethods.JsonParseString | lib/parson.c:1048-1056 | the public entry point computes the value of the text function |
| Numbers.NumberRoundTrip | lib/parson.c:777-787 | a printed integer reads back as itself, and ends there, if and only if the next bytes do not extend the token |
| Numbers.DecimalLength | lib/parson.c:45-46 | a printed number needs at most 17 bytes, within the scratch buffer used for measuring |
| Numbers.CheckDecimal | lib/parson.c:250-262 | the backwards loop decides the absence of superfluous zeros and of hexadecimal marks |
| NumberForms.ExtendsSpelled | lib/parson.c:777-787 | which next three bytes continue a printed integer |
| NumberForms.LeadingZeroIsRefused | lib/parson.c:251-256 | a superfluous leading zero is refused, with either sign and whatever follows |
| NumberForms.HexIsRefused | lib/parson.c:257-261 | a hexadecimal constant is refused |
| NumberForms.NotFiniteIsRefused | lib/parson.c:1305-1309 | minus infinity and not-a-number are refused |
| NumberForms.MarkedIsUnmodelled | lib/parson.c:777-787 | an integer with a fraction or an exponent is a number outside the model, except that a zero with an exponent alone is refused |
| NumberForms.BeyondIsUnmodelled | lib/parson.c:777-787 | so are negative zero and the integers beyond 2^53 |
| NumberForms.UnmodelledIsBeyond | lib/parson.c:777-787 | and no others |
| Glyphs.GetQuotedIff | lib/parson.c:493-627 | a quoted string is read as a text up to a rest if and only if it is a token of the string grammar for that text, cut at an escaped NUL |
| Glyphs.GlyphsRead | lib/parson.c:562-614 | every sequence of legal characters and escapes decodes to its meaning, and the first unescaped quote behind it is the closing one |
| Glyphs.QuotedRoundTrip | lib/parson.c:945-1004 | reading a printed string gives the string back with the cursor right behind it, whatever follows |
| Glyphs.QuotedIsPrefixFree | lib/parson.c:945-1004 | escaping is injective, and no printed string is a prefix of another |
| Glyphs.EscapeIsShortest | lib/parson.c:945-1004 | of the legal spellings of a byte other than a bare slash the serializer picks the shortest, and in lower case there is only one |
| Glyphs.EscapeIsLegal | lib/parson.c:945-1004 | its choice is such a spelling |
| Strings.GetQuotedIgnoresRest | lib/parson.c:618-627 | the decoded text depends only on the bytes up to the closing quote |
| Strings.OverreadFails | lib/parson.c:165-179 | a string in which an escape is cut short by the closing quote is refused; in all others decoding never looks past the quote |
| Strings.OverreadExample | lib/parson.c:165-179 | a concrete text on which bytes behind the closing quote are examined |
| Strings.SurrogatePairs | lib/parson.c:534-547 | surrogate pairs correspond one to one with the code points from 0x10000 to 0x10FFFF |
| Strings.CombineInvertsSplit | lib/parson.c:534-547 | a pair stands for a code point if and only if it is the split of it in section 2.1 of RFC 2781 |
| Strings.CombineIncreases | lib/parson.c:534-547 | pairs are ordered as their code points, the lead first |
| Strings.ClefExample | lib/parson.c:534-547 | the escaped pair of section 7 of RFC 8259 is U+1D11E |
| Strings.LetterEscapes | lib/parson.c:576-583 | the eight escapes of one letter and what they stand for |
| Strings.RefusedPieces | lib/parson.c:584-596 | raw control characters, unknown escapes, and surrogates out of place are refused |
| Strings.HexDigits16 | lib/parson.c:154-163 | the sixteen digits the serializer uses, and that they are read back |
| Strings.HexLetterCase | lib/parson.c:154-163 | both cases of a letter are the same digit, and there are no other digits |
| Strings.Hex4ReadsDigits | lib/parson.c:165-179 | four digits are read with the most significant first |
| Strings.SurrogateBits | lib/parson.c:543 | the masks and the shift that combine a pair are the arithmetic of the model |
| Strings.HexBits | lib/parson.c:177 | the shifts that combine four hexadecimal digits are the arithmetic of the model |
| Strings.UnescapeKeepsUtf8 | lib/parson.c:562-614 | decoding the escapes of well-formed UTF-8 gives well-formed UTF-8 |
| StringReader.SkipQuotesAt | lib/parson.c:493-511 | the cursor ends behind the first unescaped quote, or there is none |
| StringReader.ParseUtf16Hex | lib/parson.c:165-179 | four hexadecimal digits before the closing quote or failure; the last position examined is behind the quote exactly when fewer than three bytes precede it, and never behind the NUL |
| StringReader.ReadUtf16 | lib/parson.c:513-557 | reads one code point, from one escape or from a surrogate pair, and says when it looks past the closing quote |
| StringReader.PutCodePoint | lib/parson.c:524-552 | exactly the encoding of the code point is written, and nothing else changes |
| StringReader.ProcessString | lib/parson.c:562-614 | the result is the decoded text and its NUL; every write stays within the len+1 bytes; the last position examined is behind the closing quote if and only if the string overreads |
| StringReader.GetQuotedString | lib/parson.c:616-627 | a fresh C string with the decoded text, and the cursor behind the closing quote |
| Utf8.IsValidIffWellFormed | lib/parson.c:196-248 | a text is accepted exactly when it is a concatenation of shortest-form encodings of scalar values (section 4 of RFC 3629) |
| Utf8.VerifyFindsEncoding | lib/parson.c:196-237 | an accepted sequence is the encoding of the scalar value assembled from it |
| Utf8.EncodeAllInjective | lib/parson.c:196-248 | no text encodes two sequences of scalar values |
| Utf8.EncodingExamples | lib/parson.c:524-552 | the encodings given as examples in section 7 of RFC 3629 |
| Utf8.IsValidUtf8 | lib/parson.c:238-248 | the loop over a C string decides well-formedness |
| Utf8.VerifyUtf8Sequence | lib/parson.c:196-237 | the code for one sequence computes its length or refuses it, without reading behind the NUL |
| Utf8.EncodeBits | lib/parson.c:524-552 | the shifts and masks of the C code are the divisions and remainders of the model |
| Utf8.AssembleBits | lib/parson.c:196-216 | the same for assembling a code point |
| Utf8.MasksAreArithmetic | lib/parson.c:181-194 | the masks that classify a first byte are the ranges of the model |
| Serializer.SerializeToBuffer | lib/parson.c:809-943 | measuring and writing return the length of the specified text; writing changes only that text and the terminator behind it |
| Serializer.SerializeString | lib/parson.c:945-1004 | the escaped string, in both modes |
| Serializer.SerializeNumber | lib/parson.c:921-934 | an exactly held integer is printed behind the text, or into the scratch space without overrunning it |
| Serializer.AppendIndent | lib/parson.c:1006-1013 | four spaces a level, in both modes |
| Serializer.SerializationSize | lib/parson.c:1420-1424 | the measured size is the length of the text plus one |
| Serializer.SerializeInto | lib/parson.c:1426-1437 | a buffer is written if and only if it holds the text and its NUL; the bytes behind stay as they were, and a short buffer is untouched |
| Serializer.SerializeToString | lib/parson.c:1521-1538 | the allocated buffer is exactly the text and its NUL |
| Comments.RemoveCommentsInPlace | lib/parson.c:298-331 | the in-place loop computes the comment removal function of the old text and keeps the terminator |
| Comments.StripOnlyBlanks | lib/parson.c:309-328 | removal changes no byte into anything but a space |
| Comments.UnclosedCommentIsRead | lib/parson.c:312-321 | a block comment that is never closed loses its start, and what follows is read |
| Comments.GrammaticalHasNoComments | lib/parson.c:298-331 | removal with any tokens, the first starting with a slash, changes nothing in any spelling of any value, whatever its strings contain |
| Comments.PrintedHasNoComments | lib/parson.c:953-955 | in particular nothing in serialized text is taken for a comment |
| Comments.ParseWithCommentsUndoesPrint | lib/parson.c:1058-1071 | the parser with comments undoes the serializer |
| Comments.CommentsAreWhitespace | lib/parson.c:1058-1071 | block comments, safe line comments and whitespace in any number between any tokens of any spelling do not change the value read |
| Comments.HarmlessIffLineSafe | lib/parson.c:1065-1066 | a line comment counts as whitespace in every text if and only if its body does not start with a star and the first pass, scanned over the line, ends outside of strings and comments |
| Comments.LineSplits | lib/parson.c:1065 | the first pass over a line that leaves no comment open is independent of what follows but for the open string, and leaves a line of the same length |
| Comments.UnsafeContext | lib/parson.c:1065-1066 | for every body that is not safe, one concrete text that reads as something else |
| Comments.QuotesInLineComments | lib/parson.c:1065-1066 | a quoted word and an escaped quote in a line comment are harmless; a single quote makes a concrete text be rejected |
| Comments.JsonParseStringWithComments | lib/parson.c:1058-1071 | the entry point computes the value of the function with two passes of comment removal |
| Objects.RunRefines | lib/parson.c:347-370 | every run of additions, updates, removals and clearings keeps names distinct and is that run on a finite map |
| Objects.AddRefines | lib/parson.c:347-370 | an addition fails exactly when the name is there, and else extends the map |
| Objects.SetRefines | lib/parson.c:1681-1700 | setting updates the map and keeps names distinct |
| Objects.RemoveRefines | lib/parson.c:1798-1817 | removal by swapping with the last member removes exactly that name from the map, and fails exactly when it is absent |
| Objects.SetKeepsOrder | lib/parson.c:1681-1700 | setting keeps every name in its place or puts a new one last, and changes no other value |
| Objects.RemoveKeepsOrder | lib/parson.c:1804-1813 | after a removal only the last pair has moved, into the freed place |
| Objects.JsonObject.Resize | lib/parson.c:372-400 | the members survive the move into new arrays of the new capacity |
| Objects.JsonObject.Add | lib/parson.c:347-370 | the arrays grow by doubling when full, the new pair is last, and the child's parent is the wrapping value |
| Objects.JsonObject.Set | lib/parson.c:1681-1700 | a value that has a parent is refused; otherwise the arrays hold the updated members and every child's parent is the wrapping value |
| Objects.JsonObject.Remove | lib/parson.c:1798-1817 | the in-place removal is the member list's removal and invents no child |
| Objects.JsonObject.NGetValue | lib/parson.c:402-414 | linear search by length and bytes finds what lookup in the member list finds |
| Objects.JsonObject.Clear | lib/parson.c:1836-1847 | no members are left, the capacity is kept |
| DotPaths.FirstDotIsFirst | lib/parson.c:1103 | a path is split at its first dot, so that a name on the way never contains one |
| DotPaths.DotGetJoins | lib/parson.c:1102-1109 | a path joined from two is read by reading the second in the object the first leads to |
| DotPaths.DotSetThenGet | lib/parson.c:1718-1748 | after a successful write, reading the same path gives the value |
| DotPaths.DotSetKeepsOthers | lib/parson.c:1718-1748 | a write, successful or not, leaves every diverging path as it was |
| DotPaths.DotSetSucceedsIff | lib/parson.c:1718-1748 | a write succeeds if and only if the value has no parent and no name on the way is held by a non-object |
| DotPaths.DotSetFailure | lib/parson.c:1718-1748 | a failed write changes the object if and only if the value had a parent and an intermediate object was missing |
| DotPaths.DotSetFailureChangesNothing | lib/parson.c:1718-1748 | for a parentless value a failed write leaves the object unchanged |
| DotPaths.DotSetKeepsWellFormed | lib/parson.c:1718-1748 | names stay distinct in every object of the tree |
| DotPaths.DotRemoveSucceedsIff | lib/parson.c:1819-1834 | a removal succeeds if and only if the path leads to a value |
| DotPaths.DotRemoveRemoves | lib/parson.c:1819-1834 | afterwards the path leads nowhere, and every diverging path leads where it did |
| Compare.JsonValueEquals | lib/parson.c:1909-1971 | the loops decide the equality relation, with lookups by name on both sides |
| Compare.EqualsIffAlike | lib/parson.c:1909-1971 | two trees are equal if and only if they are the same up to the order of members at any depth and differences below 0.000001 in numbers |
| Compare.EqualsIffReordered | lib/parson.c:1909-1971 | with exactly held integers: if and only if they are the same up to the order of members |
| Compare.EqualsIsMapEquality | lib/parson.c:1938-1953 | although only one side's names are walked, equality of objects is equality of finite maps |
| Compare.EqualsReflexive | lib/parson.c:1909-1971 | every well-formed tree equals itself |
| Compare.EqualsSymmetric | lib/parson.c:1909-1971 | equality is symmetric |
| Compare.EqualsIgnoresOrder | lib/parson.c:1909-1971 | reordering members at any depth does not change the answer |
| Compare.EqualsTransitiveIff | lib/parson.c:1909-1971 | for every set of numbers: equality is transitive on all trees with numbers from the set if and only if no three of the numbers are near in a chain but not end to end |
| Compare.EqualsTransitive | lib/parson.c:1909-1971 | so on trees with exactly held integers equality is transitive |
| Compare.EqualsNotTransitive | lib/parson.c:1962-1963 | three concrete numbers on which it is not |
| Compare.DeepCopy | lib/parson.c:1341-1418 | the copy of a well-formed tree never fails, has the same members in the same order, and is equal in the sense above |
| Compare.JsonValidate | lib/parson.c:1849-1907 | the loops decide the validation relation |
| Compare.SchemaTypes | lib/parson.h:94-103 | null accepts everything; a boolean, number or string exactly the values of its own type, whatever they hold; an empty array and an empty object all arrays and all objects |
| Compare.ArraySchema | lib/parson.h:94-103 | the first element of an array schema is asked of all elements, the others are ignored |
| Compare.ObjectSchema | lib/parson.h:94-103 | an object schema accepts exactly the objects that have a member of each of its names with an accepted value |
| Compare.CountCheckIsRedundant | lib/parson.c:1885-1889 | with distinct names the comparison of counts never changes the answer |
| Compare.AcceptsAllIff | lib/parson.c:1849-1907 | whatever one schema accepts another accepts too, if and only if the second covers the first in a walk over the two schemas |
| Compare.UncoveredIsRefused | lib/parson.c:1849-1907 | without cover, a value that tells the two schemas apart |
| Compare.AcceptedIsCovered | lib/parson.c:1849-1907 | a schema covers every value it accepts that contains no empty array |
| Compare.ValidatesTransitive | lib/parson.c:1849-1907 | so validation is transitive when the middle value contains no empty array |
| Compare.EmptyArrayBreaksTransitivity | lib/parson.c:1868-1870 | through an empty array it fails for every schema and value that do not match |
| Compare.ValidatesMoreMembers | lib/parson.c:1880-1902 | further members never turn a valid object invalid |
| HashTable.ProbeDiverges | lib/hashtable.c:37-56 | the search never ends if and only if the table is full and lacks the key |
| HashTable.ProbeMeaning | lib/hashtable.c:41-53 | the probe stops at the first free slot or the key on its way around the table |
| HashTable.NextIsModulo | lib/hashtable.c:44-48 | the probe steps forward by one modulo the capacity |
| HashTable.HomeOfKey | lib/hashtable.c:41 | a key below the capacity is at home in its own slot, and its sign does not matter |
| HashTable.HomeIsPeriodic | lib/hashtable.c:41 | keys that differ by the capacity share their home |
| HashTable.FindIsMapSearch | lib/hashtable.c:37-61 | in a well-formed table a search finds the value of a key that is in the map, and else reports its absence while there is room, and never returns when there is none |
| HashTable.SetRefines | lib/hashtable.c:63-90 | `hash_set` keeps keys unique and reachable, and is the update of a bounded map: a full table ignores insertions and updates |
| HashTable.CountIsMapSize | lib/hashtable.c:84-89 | the size field's meaning: occupied slots are as many as keys in the map |
| HashTable.DeleteIsSoundIff | lib/hashtable.c:92-123 | after deleting a key that is there, the table is well-formed and represents the map without it if and only if no remaining key's probe path crosses the freed slot |
| HashTable.CrossedKeyIsLost | lib/hashtable.c:92-123 | a key whose path crosses it is in the table but not found any more |
| HashTable.SafeRunRefines | lib/hashtable.c:37-123 | after any run of safe calls, every search, also one that never returns, is the search of the bounded map the run describes |
| HashTable.RunAgreesIff | lib/hashtable.c:37-123 | all calls of a run return and every search agrees with the map before and after each of them, if and only if each call is safe |
| HashTable.SetRunIsSafe | lib/hashtable.c:63-90 | runs of insertions and updates are safe for any keys |
| HashTable.DistinctHomesAreSafe | lib/hashtable.c:92-123 | when the keys have distinct home slots every run is safe, and every key stays in its home slot |
| HashTable.DescriptorRunsRefine | server/server.c:258 | so the server's table, keyed by descriptors below its capacity, agrees with a bounded map throughout every run from empty, and every search for a descriptor returns |
| HashTable.DeletionCanLoseAKey | lib/hashtable.c:92-123 | a concrete run after which a live key is not found |
| HashMaps.HashMap.constructor | lib/hashtable.c:13-19 | an empty table of the given capacity |
| HashMaps.HashMap.Find | lib/hashtable.c:37-56 | the probing loop ends and returns the node of the key or null |
| HashMaps.HashMap.HashGet | lib/hashtable.c:58-61 | the stored value, or null |
| HashMaps.HashMap.HashSet | lib/hashtable.c:63-90 | the slots become those of the specification; only the table and its nodes change |
| HashMaps.HashMap.HashDelete | lib/hashtable.c:92-123 | the slot of the key is emptied and its value returned |
| Messages.MessageRoundTrip | lib/message.c:10-57 | for every message with exactly held integers, any type and texts that fit their buffers: unpacking the packed text restores the message if both texts are well-formed UTF-8 and the type is an `int`, and is undefined otherwise |
| Messages.PackedParses | lib/message.c:10-30 | the packed text parses to the object that was built |
| Messages.PackedNames | lib/message.c:15-20 | the names of a packed message in order, without those of dropped texts |
| Messages.UnpackedFields | lib/message.c:43-52 | every field of an unpacked message by name; of a text as much is kept as its buffer holds |
| Messages.MissingNumberIsZero | lib/parson.c:1086-1088 | a missing number is read as 0 |
| Messages.GetNumberTruncates | lib/message.c:43-47 | a number is cut towards zero |
| Messages.PackMessage | lib/message.c:10-30 | the text with its NUL, and a reported size of the text length plus one |
| Messages.UnpackMessage | lib/message.c:37-57 | the structure's fields and buffers hold the unpacked message |
| Messages.StrNCpy | lib/message.c:49-52 | every byte of the buffer: the copied text, cut at its size, and NULs behind it |
| Credentials.CredentialsRoundTrip | lib/config.c:33-58 | the credentials are read back from their text if and only if name and password are non-empty and free of whitespace |
| Credentials.CredentialTextParts | lib/config.c:40 | name, password and time, in this order, with one space between them |
| Credentials.ScanAnySpacing | lib/config.c:51 | any whitespace is accepted around the words |
| Credentials.ScanLongReads | lib/config.c:51 | the time may have either sign and leading zeros, ends at its last digit, and must fit 64 bits |
| Credentials.LongWordIsUnread | lib/config.c:49-51 | a word of 20 bytes or more overruns its buffer |
| Credentials.UserMessageDelivers | lib/config.c:33-58 | from `user2msg` through packing and unpacking to `msg2user`: the user comes back if and only if name and password are such words and well-formed UTF-8 |
| Credentials.LoginDelivers | client/client.c:29-40 | the same for the client's login and registration messages |
| Credentials.LoginArrives | client/client.c:29-40 | the login message arrives with the type, the time, the sender and the text it was made with |
| Credentials.UserMessageIsTextOnly | lib/config.c:38-42 | `user2msg` fills in the text alone |
| Credentials.CredentialTextFits | lib/config.c:39-41 | the text never exceeds the buffers it is printed and copied into |
| Credentials.User2Msg | lib/config.c:33-43 | null exactly under the guard; otherwise the message structure holds the text |
| Credentials.Msg2User | lib/config.c:45-58 | the user structure holds what the conversions read |

## Left out

- Sockets, event callbacks, terminal input and signals (`client/client.c`, `server/server.c`): only the credential format and the table's keys are modelled.
- `server/dao.c`: its state lives in Redis.
- `malloc`, `free` and allocation failure: allocation succeeds, and freed values are dropped.
- File input and output (`read_file`, the `_to_file` functions).
- Floating point beyond the integers of magnitude at most 2^53: fractions, exponents, larger integers and negative zero have exact token extents, but their values are `Foreign` to the parser. `ParsesExactlyTheGrammar` is silent about texts that contain them, except that they do not parse within the model. A real number stands for a double only in the comparison with a tolerance.
- Grammar.ParsesExactlyTheGrammar: the same holds for the other theorems about the parser, `Grammar.ParsedIsGrammatical`, `Soundness.ParsedFits`, `Soundness.ParsedReprints`, `Soundness.ParseKeepsUtf8` and the members of `ParserMethods`: a text with a number outside the model ends as `Foreign` or `Unknown`.
- RoundTrip.ParseUndoesPrint: this and all theorems about printed values (`RoundTrip`, `Style`, `Layout.CanonicalDenotes`, `Comments.PrintedHasNoComments`, `Comments.ParseWithCommentsUndoesPrint`, the members of `Serializer`) are about values whose numbers are integers of magnitude at most 2^53; `Numbers.DecimalLength` bounds those only.
- Messages.MessageRoundTrip: numbers beyond 2^53 in magnitude, which the conversion to a double rounds, are excluded, here and in `Messages.PackedParses` and `Messages.PackMessage`.
- Compare.DeepCopy: that the copy shares no node with the original is not expressed on values.
- `int` overflow of the serialized length, and of `abs` on the least key of the hash table.
- Arrays as growable C arrays, `json_array_remove` and `json_array_replace_*`, and the per-type setters, getters and aliases: they add only easy members.
- Logging, `print_message`, `currentTimeMillis` (the time is a parameter), and the fields of a user that no message carries.
- Values, dotted paths, equality, copying, validation and the arrays of the parser are modelled on trees: aliasing between nested objects and update in place below the top object are not captured. `Objects.JsonObject` models the arrays of one object.
- HashMaps.HashMap.Find: calls that never return, on a full table without the key, are excluded by the precondition; `HashTable.ProbeDiverges` states exactly which they are.
- HashMaps.HashMap.HashGet: the same calls are excluded.
- HashMaps.HashMap.HashDelete: the same calls are excluded.
- Messages.UnpackMessage: calls that read through a null pointer are excluded by the precondition; `MessageRoundTrip` states which packed messages lead to them.
- Credentials.Msg2User: calls that leave the time unset or overrun a 20-byte buffer are excluded by the precondition; out-of-range times count among them.
