# c-json-parser in Dafny

A model of the C JSON parser in `json_parser.c` and `json_parser.h`. The parser
reads a byte buffer and builds a tree of nodes. Each node keeps its label and its
value as windows into the document, so nothing is copied. The children of a node
are the chain that starts at its first child and follows next-sibling links.

The model has these parts.

- **Bytes** (`bytes.dfy`) holds the byte type, the character classes, the hex
  digit decoder, and `Buffer`, a window `(start, size)` into the document.
- **Tokenizer** (`tokenizer.dfy`) models `JSON_next_token` and its `parser_*`
  helpers as pure functions of the document and the cursor.
- **NumberGrammar** (`number_grammar.dfy`) writes the accepted number lexemes as
  a grammar. It proves that a Number token is the longest prefix of the input
  that the grammar accepts.
- **Nodes** (`nodes.dfy`) holds the node datatype, the `foreach_sibling` and
  `foreach_child` orders, and `attach_child_node`.
- **TreeBuilder** (`tree_builder.dfy`) models `JSON_parse_node` as mutually
  recursive functions, one per loop or step of the C code, and `JSON_parse`.
- **Lookup** (`lookup.dfy`) models `buffer_and_string_are_equal`, `JSON_find`,
  `JSON_find_sibling` and `JSON_find_child`. Each search is proved to return the
  first match in its visiting order.
- **Escapes** (`escapes.dfy`) is a reference decoder for the escapes that
  `JSON_node_to_new_string_resolved` accepts, with an encoder that it inverts.
- **Accessors** (`accessors.dfy`) models the value accessors. The loop of
  `JSON_node_to_new_string_resolved` is a method proved equal to the reference
  decoder.
- **Documents** (`documents.dfy`) is a reference for the tree builder: JSON
  values, their compact serialization, and the tree shape each should parse to.
  It proves that `JSON_parse` reads the serialization of every value back into
  that shape.
- **Examples** (`examples.dfy`) holds concrete documents that show where the
  parser departs from RFC 8259. It includes the full tree built for
  `{"a":{"b":1},"b":2}`.

The model follows the code as written, including its departures from RFC 8259:

- `01` is two numbers.
- `-.5` and `-e5` are numbers.
- A keyword cut short by the end of the input is still the keyword.
- Objects accept a trailing comma; arrays do not, and reject `[ ]`.
- A document that ends where a key or an element is expected is accepted, as
  in `{`, `[`, `[1,` and `{"a":1,`. One that ends where a separator is expected,
  as in `[1` or `{"a":1`, is rejected.
- Anything after the first value is ignored.
- The literals `true` and `null` carry an empty value, so `JSON_node_to_bool`
  and `JSON_node_is_null` are false on them. Both are true on the strings
  `"true"` and `"null"`.
- A string ends at the first `"` that is not preceded by a `\`, or that is
  preceded by `\\`. Only two bytes are looked back at, so in `"\\\"x"` the string
  ends after the third backslash.
- The resolved-string accessor refuses `\"` (json_parser.c:583-586), although
  the comment at json_parser.c:181-182 lists `\"` among the escapes.
- The cursor can end up to four bytes past the end of the document. This
  happens for an `f` as the last byte: the keyword match at json_parser.c:175
  moves past all four bytes of `alse` (json_parser.c:135-146).
- Where `char` is signed, a label search for a name with a byte of 0x80 or more
  never finds anything. `buffer_and_string_are_equal` (json_parser.c:424)
  compares an unsigned window byte with a `char` of the name, and such a `char`
  is negative. The Lookup members take `signedChar` to choose the platform.

C pointers become `Option<Node>`, and a null data pointer becomes the empty
window. A read the C code makes past the end of the buffer without a bounds
check is modelled as a byte that matches nothing.

## Model

| member | source | states |
|---|---|---|
| Tokenizer.Ordinal | json_parser.h:27-45 | every token type has an enumerator below Token_Count; Token_Error is 11 and Token_End_Of_Stream is 12 |
| Tokenizer.OrdinalInjective | json_parser.h:27-45 | distinct token types have distinct enumerator values |
| Bytes.HexDigitToByte | json_parser.c:88-100 | the result is below 16 exactly for a hex digit, and MAX_BYTE_VALUE for any other byte |
| Bytes.HexDigitRoundTrip | json_parser.c:88-100 | decoding the digit of any value below 16, upper or lower case, gives the value back |
| Bytes.Slice | json_parser.h:21-25 | a window of the document holds `size` bytes starting at its start |
| Tokenizer.SkipWhiteSpace | json_parser.c:102-108 | every skipped byte is whitespace, and the byte it stops on, if any, is not |
| Bytes.CharacterClasses | json_parser.c:76-100 | the decimal digits are exactly the hex digits worth less than ten, and no whitespace byte is a hex digit |
| Tokenizer.LookIsOneByteMatch | json_parser.c:119-146 | look_character succeeds iff a one-byte match_characters would, inside the document, and then the match moves one byte; look_back_character looks at the byte before the cursor |
| Tokenizer.MatchCharacters | json_parser.c:135-146 | the match succeeds iff every expected byte inside the document agrees; bytes past the end are not compared; on success the cursor moves past the whole expected text, and on failure it stops on the first differing byte |
| Tokenizer.MatchDigits | json_parser.c:148-155 | the cursor moves over a maximal run of digits |
| Tokenizer.ScanString | json_parser.c:178-220 | the token is a String ending at the first closing quote, or an Error spanning the rest of the document when no quote closes it; the cursor ends one past the value |
| Tokenizer.IntegerEnd | json_parser.c:233-244 | the integer part is digits after an optional `-`: a single `0`, a maximal digit run not starting with `0`, or empty after `-` |
| Tokenizer.FractionEnd | json_parser.c:246-252 | a fraction is taken iff `.` is followed by a digit, and then it is a maximal digit run |
| Tokenizer.ExponentEnd | json_parser.c:254-267 | an exponent is taken iff `e`/`E` and an optional sign are followed by a digit; otherwise marker and sign are given back |
| Tokenizer.ScanNumber | json_parser.c:222-273 | the token is a Number whose value ends at the cursor, or an Error only for a lone `-`, with an empty value, having consumed only it |
| Tokenizer.ScanKeyword | json_parser.c:174-176 | a keyword token has an empty value and is the keyword or an Error |
| Tokenizer.Lex | json_parser.c:157-282 | the cursor advances on non-empty input and stays within four bytes past the end; the token's value lies in the document; End_Of_Stream iff only whitespace is left; only Number, String and Error tokens carry a value |
| Tokenizer.NextToken | json_parser.c:157-282 | the tokenizer changes only the cursor of the parser, never backwards, and the token's value lies in the document |
| Tokenizer.LexPunctuation | json_parser.c:165-172 | each of `: , { } [ ]` is a one-byte token with an empty value |
| Tokenizer.LexKeyword | json_parser.c:174-176 | after `t`, `f` or `n` the token is the keyword iff the rest of the keyword matches where the document has bytes, with an empty value |
| Tokenizer.LexString | json_parser.c:178-220 | a string token holds exactly the bytes between its quotes; it is a String iff some later quote closes it, and it ends at the first such quote |
| Tokenizer.LexDispatchesKeyword | json_parser.c:174-176 | after whitespace, `t`, `f` or `n` hands the rest of the keyword to the keyword match |
| Tokenizer.LexDispatchesNumber | json_parser.c:222-233 | after whitespace, `-` or a digit hands the token to the number case from that byte |
| Tokenizer.LexOtherByte | json_parser.c:157-166 | any byte that starts no token is an Error that consumes one byte |
| NumberGrammar.ScanIsSplit | json_parser.c:222-273 | the bytes the number case takes split into sign, integer, fraction and exponent of the number grammar |
| NumberGrammar.LexemesWithinScan | json_parser.c:222-273 | no number lexeme starting at the token extends past where the number case stops |
| NumberGrammar.NumberScanIsLongest | json_parser.c:222-273 | a Number token is a number lexeme ending at the cursor, and no longer prefix of the input is one |
| NumberGrammar.ErrorScanHasNoLexeme | json_parser.c:269-273 | when the number case fails, no prefix of the input from that byte is a number lexeme |
| NumberGrammar.LexemeBytes | json_parser.c:222-273 | every number lexeme starts with `-` or a digit and holds only digits, signs, `.` and exponent markers |
| NumberGrammar.LexemeIsScannedWhole | json_parser.c:222-273 | a number lexeme followed by the end or by a byte no lexeme holds is scanned as exactly one Number token |
| NumberGrammar.NumberTokenIsLongestLexeme | json_parser.c:222-273 | a Number token is a number lexeme and no longer prefix of the input is one; an Error from `-` means no prefix is a lexeme |
| Nodes.Siblings | json_parser.h:70 | foreach_sibling visits the node itself first, ends at a node without next sibling, and is empty for a null node |
| Nodes.SiblingsFollowLinks | json_parser.h:70 | each node foreach_sibling visits is the next sibling of the one before |
| Nodes.Children | json_parser.h:69 | foreach_child visits no node iff there is no first child, and otherwise starts at the first child |
| Nodes.ChildrenExcludeSelf | json_parser.h:69-70 | foreach_child never visits the node, only strictly smaller ones, while foreach_sibling starts with it |
| Nodes.SiblingsAreSmaller | json_parser.h:70 | no node foreach_sibling visits is larger than the chain it starts |
| Nodes.AppendSibling | json_parser.c:289-293 | linking the child after the last sibling leaves the first node's label, value and children alone, and the chain then holds its old nodes plus the child's |
| Nodes.AppendSiblingKeepsOrder | json_parser.c:289-293 | walking to the last sibling and linking the child there keeps the chain's nodes in order, changing only the last link, and puts the child's chain after them |
| Nodes.AttachChild | json_parser.c:284-298 | attaching keeps label, value and sibling of the parent and its children in order, and makes the child its last child |
| Nodes.AttachChildWellFormed | json_parser.c:284-298 | attaching a well-formed child under a valueless node keeps every window in the document |
| TreeBuilder.ParseNode | json_parser.c:300-382 | a scalar token becomes the node's value; the end of the input changes nothing; `: , } ]` or an Error sets the error flag and changes nothing else; `{` and `[` keep the value and only add children. The cursor never moves back, the error flag is never cleared, the node's label, link and existing children are kept, input is consumed when there is any, and a fresh node stays well-formed |
| TreeBuilder.ParseMembers | json_parser.c:305-340 | the object loop stops at once at the end of the input or after an error, and after a `}` in place of a key; on a String key and `:` its first new child is the node the value parses to, labelled with the key; it only adds children after the existing ones and never changes the value |
| TreeBuilder.ParseMember | json_parser.c:326-331 | a member adds one child after the existing ones: labelled with the key, with the value and children its value parses to |
| TreeBuilder.AfterMember | json_parser.c:326-339 | the parsed member becomes the next child with its label, value and children, after the existing ones |
| TreeBuilder.ParseElements | json_parser.c:349-363 | the array loop stops at once at the end of the input or after an error, and otherwise its first new child is the node the next value parses to; it adds only unlabelled children, after the existing ones, and never changes the value |
| TreeBuilder.AfterElement | json_parser.c:350-362 | the parsed element becomes the next, unlabelled child with its value and children, after the existing ones |
| TreeBuilder.Parse | json_parser.c:384-399 | a tree is returned iff the error flag stayed clear; the root is unlabelled, has no sibling, and every window of the tree lies in the document |
| TreeBuilder.OpensObject | json_parser.c:303-305 | after `{` the member loop runs on the same node |
| TreeBuilder.OpensArray | json_parser.c:343-349 | after `[` a raw `]` byte gives the empty array, and otherwise the element loop runs |
| TreeBuilder.MemberWithKey | json_parser.c:305-330 | with input left, no error, a String key and `:`, the loop parses the value into a new node labelled with the key and attaches it |
| TreeBuilder.MemberSeparator | json_parser.c:332-339 | after a member, `}` ends the object and `,` runs the loop again, with the child attached |
| TreeBuilder.ElementStep | json_parser.c:349-353 | with input left and no error, the loop parses the next value into a fresh node and attaches it |
| TreeBuilder.ElementSeparator | json_parser.c:355-362 | after an element, `]` ends the array and `,` runs the loop again, with the child attached |
| TreeBuilder.FirstPunctuation | json_parser.c:384-390 | a document starting, after whitespace, with `{` or `[` gives that token first and moves the cursor just past it |
| TreeBuilder.ParseByFirstToken | json_parser.c:366-381 | a scalar first token becomes the root's value, End_Of_Stream gives an empty root, and `: , } ]` or an Error gives no tree |
| TreeBuilder.ParseBlankDocument | json_parser.c:376 | an empty or all-whitespace document gives an empty root |
| TreeBuilder.ParseEmptyObject | json_parser.c:304-319 | `{}` and a `{` that ends the document give an empty root |
| TreeBuilder.ParseEmptyArray | json_parser.c:343-349 | `[]` and a `[` that ends the document give an empty root |
| TreeBuilder.ParseRejectsSpacedEmptyArray | json_parser.c:343-364 | `[` followed by whitespace and `]` gives no tree |
| TreeBuilder.MembersAcceptClosingBrace | json_parser.c:319-321 | `}` where a key is expected ends the object without error |
| TreeBuilder.ElementsRejectClosingBracket | json_parser.c:349-353 | `]` where an element is expected sets the error flag |
| TreeBuilder.LoopsStopAtEndOfInput | json_parser.c:305 | at the end of the input both loops stop without error |
| TreeBuilder.ElementSeparatorRequired | json_parser.c:355-362 | any token but `,` or `]` after an element sets the error flag |
| TreeBuilder.MemberSeparatorRequired | json_parser.c:333-339 | any token but `,` or `}` after a member sets the error flag |
| TreeBuilder.KeyMustBeStringThenColon | json_parser.c:309-324 | a String key without `:` ends the object with the error flag set and nothing attached; any other non-`}` key sets the flag |
| Lookup.CharValue | json_parser.c:424 | a name byte keeps its value in the comparison unless `char` is signed and the byte is 0x80 or more, when it is out of the range of window bytes |
| Lookup.BufferAndStringAreEqual | json_parser.c:421-434 | the window equals the C string iff both have the same bytes and length and, where `char` is signed, the string has no byte of 0x80 or more |
| Lookup.FindSibling | json_parser.c:455-467 | a result is a labelled node of the chain; no result iff no node of the chain has the label |
| Lookup.FindSiblingIsFirstMatch | json_parser.c:455-467 | the result is the first labelled node in foreach_sibling order |
| Lookup.FindChild | json_parser.c:469-475 | the result is the first labelled child, and none for a null node |
| Lookup.Find | json_parser.c:436-453 | a result is a labelled node the pre-order walk visits, and a labelled start node is returned itself |
| Lookup.FindIsFirstMatch | json_parser.c:436-453 | the result is the first labelled node in pre-order over the node, its subtree and its later siblings; none iff no such node has the label |
| Lookup.EmptyLabelMatchesUnlabelled | json_parser.c:421-434 | the empty C string matches exactly the unlabelled nodes, so every search for it finds an unlabelled start node |
| Lookup.SignednessMattersOnlyForHighBytes | json_parser.c:421-475 | an ASCII name finds the same node with a signed or an unsigned `char`; with a signed `char`, a name holding a byte of 0x80 or more makes find and find_sibling return nothing |
| Documents.ParseReadsSerialization | json_parser.c:300-399 | JSON_parse returns a tree for the serialization of every valid value, and the tree has that value's shape: keys and scalar values spell the bytes written for them, and members and elements are children in document order |
| Documents.ParseReadsValue | json_parser.c:300-382 | parsing a serialized value followed by `,`, `}`, `]` or the end into a fresh node stops just after the value, without error, with the value's shape |
| Documents.ParseReadsObject | json_parser.c:304-341 | a serialized object parses to a node whose children are its members in order, each labelled with its key |
| Documents.ParseReadsArray | json_parser.c:343-364 | a serialized array parses to a node whose unlabelled children are its elements in order |
| Documents.EmptyArrayReads | json_parser.c:343-347 | `[]` ends after the `]` and leaves the node unchanged |
| Documents.ParseReadsMembers | json_parser.c:305-340 | the member loop over serialized members appends one child per member, in order, and stops just after the `}` |
| Documents.ParseReadsElements | json_parser.c:349-363 | the element loop over serialized elements appends one child per element, in order, and stops just after the `]` |
| Documents.MemberTail | json_parser.c:326-339 | after a member the child is appended to the shape, and `}` stops the loop while `,` continues it |
| Documents.ElementTail | json_parser.c:350-362 | after an element the child is appended to the shape, and `]` stops the loop while `,` continues it |
| Documents.ScalarShape | json_parser.c:366-374 | a scalar token makes the token's window the node's value, and nothing else changes |
| Documents.ParseReadsNumber | json_parser.c:222-273 | a serialized number is read back as the node's value, bytes unchanged |
| Documents.ParseReadsString | json_parser.c:178-220 | a serialized string is read back as the node's value, the bytes between the quotes |
| Documents.ParseReadsKeyword | json_parser.c:174-176 | `true`, `false` and `null` leave the node's value empty and move past the whole keyword |
| Documents.LexStringText | json_parser.c:178-220 | a quoted text with no quote and no lone final `\` is one String token holding exactly that text |
| Documents.LexNumberText | json_parser.c:222-273 | a number lexeme followed by `,`, `}`, `]` or the end is one Number token holding exactly that lexeme |
| Documents.LexKeywordText | json_parser.c:174-176 | a whole keyword is lexed as its token, with an empty value |
| Documents.LexPunctuationAt | json_parser.c:165-172 | each punctuation byte at the cursor is its one-byte token |
| Documents.AttachChildShape | json_parser.c:284-298 | attaching a child adds its shape after the parent's other children and changes nothing else |
| Escapes.ShortEscapeInvertsEscapeLetter | json_parser.c:553-559 | every one-letter escape the encoder writes decodes back to its byte, and `\/` is the only other one accepted |
| Escapes.Unescape | json_parser.c:549-594 | decoding never lengthens the value and is the identity without a backslash; a successful decode of a value with a backslash is shorter than the value |
| Escapes.UnescapeEscape | json_parser.c:549-594 | decoding an escaped byte string gives it back |
| Escapes.CodeUnitBytes | json_parser.c:573-574 | the two bytes a `\u` escape yields are the low and the high byte of the code unit |
| Escapes.UnicodeEscapeLowByteFirst | json_parser.c:560-577 | `\u` and four hex digits of either case decode to the low byte of the code unit, then the high byte |
| Escapes.DecodeRefusedEscape | json_parser.c:550-586 | decoding from a `\` fails when it is the last byte, when an unknown letter follows, or when `\u` lacks four hex digits inside the value |
| Accessors.ToNewString | json_parser.c:526-538 | no string iff the node is null or its value is empty; otherwise a copy of the value bytes |
| Accessors.IsNull | json_parser.c:477-486 | is_null holds iff the value copy is exactly `null`, and never for an empty value |
| Accessors.ToBool | json_parser.c:514-524 | to_bool holds iff the value copy is exactly `true`, and never for an empty value |
| Accessors.ToChar | json_parser.c:506-512 | to_char is the first byte of the value copy, and 0 when there is no copy |
| Accessors.ToNewStringResolved | json_parser.c:540-603 | the decoding loop returns exactly the reference decoding of the value, and nothing for a null node or an empty value |
| Accessors.ResolvedIsCopyWithoutEscapes | json_parser.c:540-603 | without a backslash the resolved string is the plain copy; with one it is shorter than the value |
| Examples.LeadingZeroEndsTheNumber | json_parser.c:236-244 | `01` is the Number `0` followed by the Number `1` |
| Examples.MinusNeedsMore | json_parser.c:269-273 | a lone `-` is an Error, while `-.5` is a Number |
| Examples.DotWithoutDigitIsGivenBack | json_parser.c:246-252 | `1.` is the Number `1`, and the `.` is left for the next token |
| Examples.CutKeyword | json_parser.c:135-146 | a final `t` is a True token, with the cursor three bytes past the end |
| Examples.EscapedQuoteDoesNotClose | json_parser.c:192-209 | a quote right after a `\` does not close the string |
| Examples.QuoteAfterEscapedBackslashCloses | json_parser.c:192-209 | a quote after an escaped backslash `\\` closes the string |
| Examples.UnclosedStringIsError | json_parser.c:186-216 | a string that no quote closes is an Error |
| Examples.EscapedQuoteAfterEscapedBackslash | json_parser.c:192-209 | in `"\\\"x"` the quote after the three backslashes closes the string, and the value `\\\` it leaves cannot be decoded |
| Examples.NullLiteralIsNotNull | json_parser.c:176 | the literal `null` parses to an empty root, on which is_null is false |
| Examples.NullStringIsNull | json_parser.c:477-486 | the string `"null"` parses to a root whose value is `null`, on which is_null is true |
| Examples.QuoteEscapeIsRefused | json_parser.c:583-586 | `\"` inside a value is refused by the decoder |
| Examples.UnicodeEscapeExample | json_parser.c:560-577 | `\u0041` decodes to 0x41 then 0 |
| Examples.FindIsDepthFirst | json_parser.c:436-475 | in `{"a":{"b":1},"b":2}` find reaches the inner `b` first, while find_child finds the outer one |
| Examples.DocumentTree | json_parser.c:384-399 | `{"a":{"b":1},"b":2}` parses to the expected four-node tree |

## Left out

- JSON_node_to_number (json_parser.c:489-504) is left out: it is a call to `atof` on a copy of the value, which is floating point.
- JSON_free and the allocation in new_json_node, JSON_node_to_new_string and the resolved variant are left out. The model has no heap, so it has no leak, no free and no `realloc`. The NUL terminator of returned strings is also left out.
- The debug printers behind JSON_PARSER_DEBUG and the demo program main.c are left out, because they are I/O only.
- C stack depth is unbounded in the model. The C recursion depth grows with the document's nesting.
- The cursor and sizes are `u64` in C. No document that fits in memory reaches 2^64, so they are modelled as unbounded integers.
- Tokenizer.MatchDigits: the digit counter of parser_match_digits is a 32-bit `b32` (json_parser.c:149-154), so a run of a multiple of 2^32 digits reports no digit, and the fraction and exponent cases then give bytes back (json_parser.c:249-250, 261-265). The model assumes digit runs shorter than 2^32 bytes.
- Accessors.ToChar returns the byte as 0..255. Where `char` is signed, C returns the same bit pattern as a negative `char`; the model does not convert it.
- The C code reads some bytes without a bounds test. The reads in parser_match_digits (json_parser.c:150) and in the `]` test after `[` (json_parser.c:344) can fall past the end of the document; the model gives them no byte, so they match nothing. The resolved-string accessor reads the byte after a final `\` of the value (json_parser.c:550-553). For every value the parser builds, that byte is the string's closing `"` (json_parser.c:192-199, 215), which the decoder refuses (json_parser.c:583-586); the model refuses a final `\` outright. The two differ only for a hand-built node whose next document byte is an escape letter.
- A null data pointer with a non-zero size is not modelled. The only null window is the zeroed Buffer, which is `Empty`.
- TreeBuilder.ParseMember attaches the new node after parsing its value, while the C code attaches it before. No code looks at the parent while the child is parsed, so the trees are equal.
- Documents.ParseReadsSerialization: stated for the compact serialization, with no whitespace between tokens, and for strings and keys that hold no `"` and do not end in a single `\`. Documents with whitespace or escaped quotes are not covered by this theorem; the Tokenizer contracts cover them token by token.
- TreeBuilder.Parse: its own contract states only the error flag, the unlabelled root and well-formedness. Which tree it builds is stated by Documents.ParseReadsSerialization for every compact serialization, and by Examples.DocumentTree for one document.
- Escapes.Unescape: the length of the decoded string is stated as bounds, not as the exact count of bytes each escape removes.
