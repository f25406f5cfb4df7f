# SGF parser (sgf-ts) in Dafny

A model of the recursive-descent parser in `sgf.ts`, which reads Smart Game
Format (SGF) text and builds Collection → GameTree → Sequence → Node →
Property, or returns one error message. The Dafny project has these modules:

- `SgfAst` (ast.dfy):
  - the whitespace test;
  - the tree types;
  - the six errors and the messages the source reports for them: "expected '('", "expected ')'", "expected ';'", "expected '['", "expected ']'" and "expected propident".
- `SgfGrammar` (grammar.dfy): each rule and each of its `while (true)` loops as a pure function. A rule takes the text and a cursor position and returns the parsed unit along with the position where the cursor stops, or the error.
- `SgfParser` (parser.dfy): the `Parser` class itself.
  - Its fields are an immutable `text` and a mutable `index`.
  - `peek` is a function of the state, since it changes nothing.
  - `read` is a method that moves the cursor.
  - `read_whitespace` and every `parse_*` method are imperative methods with the source's `while` loops.
  - Each method is proved to return what the grammar function of the same rule returns and to leave `index` where that function says.
- `SgfShapes`, `SgfSteps`, `SgfProperties` (shapes.dfy, steps.dfy, properties.dfy): what the grammar functions promise, and so what the methods promise. This covers:
  - the cursor bounds and progress;
  - the errors each rule can end with;
  - how values are decoded;
  - how child errors propagate.
- `SgfLayout`, `SgfWriter`, `SgfReadBack` (layout.dfy, writer.dfy, readback.dfy): the round trip.
  - The writer puts no whitespace anywhere and puts a backslash before each `]`, `\` and NUL inside a value.
  - `parse` reads back every collection the writer writes, as long as its identifiers are non-empty runs of A–Z; its values may hold any character.
- `SgfSample` (sample.dfy):
  - parts of the sample document from the source's test function;
  - a small game record the writer writes, parsed back;
  - one small document for each outcome.

The source's behaviours are kept as written:
- An unescaped literal NUL character in the text behaves like the end of the text: it ends the top-level loop and makes an open value fail with "expected ']'".
- A NUL right after a backslash is read as the escaped character, as any other character is, and the value goes on: `[\<NUL>]` is the value made of one NUL.
- A backslash at the very end of the text reads NUL as the escaped character without moving the cursor; the value then fails with "expected ']'".
- Whitespace directly after `(` is "expected ';'". Whitespace directly after `;` ends that node's property list before it is skipped, so `(; B[a])` is "expected ')'", while `(; ;)` is a sequence of two empty nodes.
- The first value of a property is kept apart from its additional values.
- After the last game tree, any character other than whitespace or NUL is rejected with "expected '('"; such trailing text is not ignored. Whitespace there is skipped by the tree itself.

## Model

| member | source | states |
|---|---|---|
| SgfAst.IsWhitespace | sgf.ts:2-4 | the same five characters as `iswhitespace`: newline, space, tab, carriage return and vertical tab |
| SgfAst.IsUpper | sgf.ts:212 | the `'A' <= c <= 'Z'` test on code points that starts an identifier and continues it |
| SgfAst.SgfError.Message | sgf.ts:88-238 | the message text each error carries, the same six strings the source returns |
| SgfAst.MessageDistinct | sgf.ts:88-238 | no two errors share a message, so the message identifies the error |
| SgfGrammar.PeekAt | sgf.ts:68-73 | the character at a position, or NUL at or past the end of the text |
| SgfGrammar.Next | sgf.ts:59-66 | the cursor after one `read`: one place on, or unchanged at the end of the text |
| SgfGrammar.SkipWs | sgf.ts:75-83 | whitespace skipping never moves back or past the end, and stops in front of a non-whitespace character |
| SgfGrammar.UpperRun | sgf.ts:210-217 | the letter loop stays in the text and stops in front of a character outside A–Z |
| SgfGrammar.UpperRunLetters | sgf.ts:210-217 | every character the letter loop passes over is in A–Z |
| SgfGrammar.ParsePropIdent | sgf.ts:208-223 | a successful identifier consumes at least one character and stays in the text |
| SgfGrammar.ValueBody | sgf.ts:228-242 | a successful value loop consumes at least the closing ']' and stays in the text |
| SgfGrammar.ParsePropValue | sgf.ts:225-245 | a successful value consumes at least one character and stays in the text |
| SgfGrammar.ValueList | sgf.ts:193-203 | the additional-value loop never moves back or past the end |
| SgfGrammar.ParseProperty | sgf.ts:181-206 | a successful property consumes at least one character and stays in the text |
| SgfGrammar.PropertyList | sgf.ts:165-176 | the property loop of a node never moves back or past the end |
| SgfGrammar.ParseNode | sgf.ts:162-179 | a node never moves back or past the end, and consumes its ';' when there is text left |
| SgfGrammar.NodeList | sgf.ts:147-157 | the node loop of a sequence never moves back or past the end |
| SgfGrammar.ParseSequence | sgf.ts:139-160 | a successful sequence consumes at least one character and stays in the text |
| SgfGrammar.ParseGameTree | sgf.ts:112-137 | a successful game tree consumes at least one character and stays in the text; this is the measure of the mutual recursion |
| SgfGrammar.GameTreeList | sgf.ts:119-129 | the variation loop never moves back or past the end |
| SgfGrammar.CollectionTail | sgf.ts:94-107 | the top-level loop never moves back or past the end |
| SgfGrammar.Parse | sgf.ts:85-110 | the outcome of `parse()`: the collection of ParseCollection from position 0 without its final cursor, or its error |
| SgfGrammar.ParseCollection | sgf.ts:85-110 | a successful parse consumes at least one character and stays in the text |
| SgfShapes.PropIdentShape | sgf.ts:208-223 | an identifier is read exactly when a letter is under the cursor, and the only error is "expected propident"; it is non-empty, all A–Z, copied verbatim from the text, followed by a non-letter, and the whitespace after it is skipped |
| SgfShapes.ValueBodyShape | sgf.ts:228-242 | the value loop ends just past a ']' and fails only with "expected ']'" |
| SgfShapes.PropValueShape | sgf.ts:225-245 | a value fails only with "expected ']'" and leaves the cursor in front of non-whitespace |
| SgfShapes.ValueListShape | sgf.ts:193-203 | the additional-value loop stops in front of a character other than '[' and fails only with "expected ']'" |
| SgfShapes.PropertyShape | sgf.ts:181-223 | a property fails with "expected propident" exactly when no letter is under the cursor, and otherwise can fail only with "expected '['" or "expected ']'"; its identifier is letters copied from the text; it stops in front of neither '[' nor whitespace |
| SgfShapes.PropertyListShape | sgf.ts:165-176 | the property loop stops in front of a non-letter and never fails with "expected propident" |
| SgfShapes.NodeShape | sgf.ts:162-179 | a node can fail only inside a property value or for a missing '['; "expected propident" is unreachable |
| SgfShapes.NodeListShape | sgf.ts:147-157 | the node loop stops in front of a character other than ';' |
| SgfShapes.SequenceShape | sgf.ts:139-160 | a sequence fails with "expected ';'" exactly when no ';' is under the cursor; it can end with only three errors; it stops in front of a character other than ';' |
| SgfShapes.GameTreeShape | sgf.ts:112-137 | a game tree never fails with "expected '('" or "expected propident" |
| SgfShapes.GameTreeListShape | sgf.ts:119-129 | the variation loop stops in front of a character other than '(' |
| SgfShapes.CollectionTailShape | sgf.ts:94-107 | the top-level loop ends only at the end of the text or at a NUL; any other character that does not start a tree is "expected '('" |
| SgfShapes.ParseShape | sgf.ts:85-110 | parse demands '(' after leading whitespace, never fails with "expected propident", and on success stops only at the end or at a NUL |
| SgfShapes.PropertyListIdent | sgf.ts:165-176 | every property the loop of a node collects has an identifier of capital letters |
| SgfShapes.NodeListIdent | sgf.ts:147-157 | every node the loop of a sequence collects has only identifiers that are non-empty runs of A–Z |
| SgfShapes.SequenceIdentOk | sgf.ts:139-160 | every identifier in a parsed sequence is a run of capital letters |
| SgfShapes.GameTreeIdent | sgf.ts:112-137 | every identifier in a parsed game tree, its variations included, is a run of capital letters |
| SgfShapes.GameTreeListIdent | sgf.ts:119-129 | the same holds of every variation the loop collects |
| SgfShapes.CollectionTailIdent | sgf.ts:94-107 | the same holds of every further top-level tree |
| SgfShapes.ParseIdent | sgf.ts:85-110 | every property identifier of a document parse accepts is a non-empty run of A–Z |
| SgfSteps.PropertyFails | sgf.ts:182-201 | an error of the identifier, of the first value or of an additional value is returned unchanged; a missing '[' is "expected '['" |
| SgfSteps.NodeFails | sgf.ts:166-172 | an error of a property is returned unchanged by the node |
| SgfSteps.SequenceFails | sgf.ts:143-155 | an error of the first node or of a later node is returned unchanged by the sequence |
| SgfSteps.GameTreeFails | sgf.ts:115-134 | an error of the sequence or of a variation is returned unchanged; a missing ')' is "expected ')'" |
| SgfSteps.CollectionFails | sgf.ts:90-104 | an error of the first tree or of a later tree is returned unchanged by parse |
| SgfSteps.ValueListFrom | sgf.ts:193-203 | values read one after the other, each starting with '[', followed by a character other than '[', are collected by the additional-value loop in order |
| SgfSteps.PropertyListFrom | sgf.ts:165-176 | properties read one after the other, each starting with a capital letter, followed by a non-letter, are collected by the property loop in order |
| SgfSteps.NodeListFrom | sgf.ts:147-157 | nodes read one after the other, each starting with ';', followed by a character other than ';', are collected by the node loop in order |
| SgfSteps.GameTreeListFrom | sgf.ts:119-129 | trees read one after the other, each starting with '(', followed by a character other than '(', are collected by the variation loop in order |
| SgfSteps.CollectionTailFrom | sgf.ts:94-107 | trees read one after the other, each starting with '(', followed by the end of the text or a NUL, are collected by the top-level loop in order |
| SgfProperties.SkipWsIdempotent | sgf.ts:75-83 | skipping whitespace twice is skipping it once |
| SgfProperties.SkipWsWhitespace | sgf.ts:75-83 | every character skipped is whitespace |
| SgfProperties.SkipWsSpan | sgf.ts:75-83 | whitespace skipping stops exactly at the end of the run of whitespace |
| SgfProperties.ValueBodyShift | sgf.ts:228-242 | the value loop never looks before its start: text put in front only moves the positions |
| SgfProperties.EscapeDecodes | sgf.ts:229-242 | the value loop decodes the escaped form of any string back to the string, then goes on with what follows |
| SgfProperties.PropValueEscaped | sgf.ts:225-245 | '[' + escape(s) + ']' parses to s, for every s, whatever follows |
| SgfProperties.PropValueUnterminated | sgf.ts:237-238 | '[' + escape(s) with no closing ']' is "expected ']'" |
| SgfProperties.TrailingBackslash | sgf.ts:234-238 | a backslash as the last character of any text reads NUL without moving the cursor past the end, and the value loop then fails with "expected ']'" |
| SgfProperties.PropValueTrailingBackslash | sgf.ts:225-245 | for every s, '[' + escape(s) followed by a lone backslash is "expected ']'" |
| SgfProperties.EscapedNul | sgf.ts:234-236 | a NUL right after a backslash is taken as the escaped character and the value loop goes on after it |
| SgfProperties.EscapePlain | sgf.ts:229-242 | without ']', '\' or NUL a string is its own escaped form |
| SgfProperties.EscapeAppend | sgf.ts:229-242 | escaping a concatenation escapes each part |
| SgfProperties.PlainValue | sgf.ts:225-245 | a plain value is read back verbatim, spaces included |
| SgfProperties.EscapedBracketValue | sgf.ts:234-236 | a plain string followed by "\]" reads back with a literal ']' at its end |
| SgfProperties.UpperRunOver | sgf.ts:210-217 | a run of n letters followed by a non-letter is exactly what the letter loop takes |
| SgfProperties.PlainIdent | sgf.ts:208-223 | the identifier in front of a value is read whole |
| SgfProperties.PlainBody | sgf.ts:228-242 | the body of a one-valued property is read back in place |
| SgfProperties.PlainProperty | sgf.ts:181-206 | a property with one plain value yields its identifier, that value and no additional values, and ends in front of what follows |
| SgfProperties.GameTreeConsumes | sgf.ts:112-137 | a game tree holding n trees (itself included) consumes at least 3n characters |
| SgfProperties.GameTreeListConsumes | sgf.ts:119-129 | the variations of a tree, n trees in all, consume at least 3n characters |
| SgfProperties.PropertyNeedsValue | sgf.ts:186-188 | an identifier not followed by '[' is "expected '['" |
| SgfProperties.EmptyNode | sgf.ts:162-179 | a node whose ';' is followed by a non-letter has zero properties |
| SgfProperties.NoWhitespaceAfterOpenParen | sgf.ts:114-115 | whitespace right after '(' is "expected ';'" |
| SgfReadBack.ValueAt | sgf.ts:225-245 | wherever the written form of a value lies in a text, followed by a non-whitespace character, the value rule reads the value back and stops at its end |
| SgfReadBack.ValuesAt | sgf.ts:193-203 | written values that lie one after the other, followed by a character that is neither '[' nor whitespace, are read back in order by the additional-value loop |
| SgfReadBack.IdentAt | sgf.ts:208-223 | a run of capital letters followed by '[' is read back whole by the identifier rule |
| SgfReadBack.PropertyAt | sgf.ts:181-206 | a written property followed by a character that is neither '[' nor whitespace is read back with its identifier, its first value and its additional values |
| SgfReadBack.PropertiesAt | sgf.ts:165-176 | written properties that lie one after the other, followed by a character that is neither a capital letter, '[' nor whitespace, are read back in order by the property loop |
| SgfReadBack.NodeAt | sgf.ts:162-179 | a written node followed by a character that is neither a capital letter, '[' nor whitespace is read back with all its properties |
| SgfReadBack.NodesAt | sgf.ts:147-157 | written nodes that lie one after the other, followed by a character that is neither a capital letter, '[', ';' nor whitespace, are read back in order by the node loop |
| SgfReadBack.SequenceAt | sgf.ts:139-160 | a written sequence followed by a character that is neither a capital letter, '[', ';' nor whitespace is read back with its first node and the nodes after it |
| SgfReadBack.TreeAt | sgf.ts:112-137 | a written game tree followed by a non-whitespace character is read back with its sequence and all its variations |
| SgfReadBack.TreesAt | sgf.ts:119-129 | written game trees that lie one after the other, followed by a non-whitespace character, are each read back at their place |
| SgfReadBack.ReadCollection | sgf.ts:85-107 | a text made of written trees one after the other up to its end parses to the collection of those trees |
| SgfReadBack.ParseWrite | sgf.ts:85-110 | parse(write(c)) == c for every collection whose identifiers are non-empty runs of A–Z, whatever its values hold |
| SgfParser.Parser.constructor | sgf.ts:54-57 | a new parser holds the text with the cursor at 0 |
| SgfParser.Parser.Peek | sgf.ts:68-73 | the character n places ahead, NUL at or past the end; the cursor does not move |
| SgfParser.Parser.Read | sgf.ts:59-66 | at the end NUL with the cursor unchanged, otherwise the character under the cursor, and the cursor moves one place |
| SgfParser.Parser.ReadWhitespace | sgf.ts:75-83 | the cursor moves to where SkipWs says and stays in the text |
| SgfParser.Parser.Parse | sgf.ts:85-110 | the result and the cursor are those of ParseCollection |
| SgfParser.Parser.ParseGameTree | sgf.ts:112-137 | the result and the cursor are those of ParseGameTree |
| SgfParser.Parser.ParseSequence | sgf.ts:139-160 | the result and the cursor are those of ParseSequence |
| SgfParser.Parser.ParseNode | sgf.ts:162-179 | the result and the cursor are those of ParseNode |
| SgfParser.Parser.ParseProperty | sgf.ts:181-206 | the result and the cursor are those of ParseProperty |
| SgfParser.Parser.ParsePropIdent | sgf.ts:208-223 | the result and the cursor are those of ParsePropIdent |
| SgfParser.Parser.ParsePropValue | sgf.ts:225-245 | the result and the cursor are those of ParsePropValue |
| SgfParser.ParseText | sgf.ts:273-275 | `new Parser(text).parse()` returns Parse(text) |
| SgfSample.MarksValues | sgf.ts:266 | after TR[qc], the loop collects [pd] and [qd] in source order |
| SgfSample.MarksProperty | sgf.ts:266 | TR[qc][pd][qd] has first value qc and additional values pd, qd |
| SgfSample.PlayerWhite | sgf.ts:251 | PW[ alice ] keeps the spaces around the name |
| SgfSample.CommentValue | sgf.ts:256 | the comment value decodes to "comment [some comment]" |
| SgfSample.EscapedNulValue | sgf.ts:234-236 | `[\<NUL>]` is the value made of one NUL, ending just past its ']' |
| SgfSample.EmptyNodeSample | sgf.ts:261-262 | the empty ';' of the sample has zero properties |
| SgfSample.ForkLeaf | sgf.ts:112-137 | "(;)" inside the text parses to a tree of one empty node |
| SgfSample.ForkRecord | sgf.ts:112-137 | a root node with two variations parses to one tree with two child trees and an empty collection tail |
| SgfSample.GameInfoRecord | sgf.ts:85-110 | "(;GM[1]FF[4];B[pd])", the writer's text of a root holding GM and FF and one move after it, parses back to that record |
| SgfSample.SmallestRecord | sgf.ts:85-93 | leading whitespace is skipped before the first '(' |
| SgfSample.EmptyText | sgf.ts:87-89 | the empty text is "expected '('" |
| SgfSample.MissingCloseParen | sgf.ts:130-134 | "(;" is "expected ')'" |
| SgfSample.MissingValue | sgf.ts:186-188 | "(;B)" is "expected '['" |
| SgfSample.UnterminatedValue | sgf.ts:237-238 | "(;B[a" is "expected ']'" |
| SgfSample.SpaceAfterOpenParen | sgf.ts:114-115 | "( ;)" is "expected ';'" |
| SgfSample.SpaceAfterSemicolon | sgf.ts:164-167 | "(; B)" has no properties and then lacks its ')' |
| SgfSample.SpaceBetweenNodes | sgf.ts:162-179 | "(; ;)": the space after the first ';' ends its property list and is then skipped, so the sequence has two empty nodes |
| SgfSample.TrailingWhitespace | sgf.ts:135 | whitespace after the last tree is skipped by the tree, so "(;) \n" is accepted |
| SgfSample.LowerCaseIdent | sgf.ts:167 | a lower-case letter does not start a property: "(;b)" lacks its ')' |
| SgfSample.TrailingText | sgf.ts:96-99 | text after the last tree is "expected '('" |
| SgfSample.TrailingAfterNul | sgf.ts:96-97 | a NUL after the last tree ends the document, and what follows it is ignored |

## Left out

- The `test()` function and its console output (sgf.ts:248-278) are not modelled. Their sample document appears only as the fragments in `SgfSample`; see the last line of this section.
- The `console.log(r)` on the "expected ')'" path (sgf.ts:132) is debug output that does not change the result.
- The source declares `propident` and `propvalue` as `string` while storing `PropIdent`/`PropValue` objects in them (sgf.ts:36-38 against sgf.ts:205). The model stores the strings those objects carry.
- JavaScript strings are UTF-16 code units. The model takes the text as a `seq<char>` and compares letters by code point.
- The source has no serialiser. `Escape` and the writer in `SgfWriter` are part of the specification only; they are used to state value decoding and the round trip.
- SgfReadBack.ParseWrite: the round trip covers only the writer's documents, which have no whitespace between units. Documents with whitespace between units are covered only by the one-step lemmas. `Writable` requires identifiers that are non-empty runs of A–Z, because the parser reads nothing else as an identifier. Values are unrestricted: the writer escapes NUL as well as `]` and `\`, since an unescaped NUL ends a value with "expected ']'" (sgf.ts:237-238).
- The recursion of `parse_gametree` (sgf.ts:112-137) can overflow the JavaScript call stack on deeply nested input, and that exception escapes `parse()`. The model's recursion has no depth limit, so that failure is not modelled.
- Where the cursor stands after a failed parse is not part of any contract, because the source abandons the parse at that point.
- The TypeScript `type` tags on the result objects are represented by the Dafny datatype constructors.
- The whole sample document (sgf.ts:249-275) is not proved as one parse, so its overall shape (ten properties in the root node, two variations under the root, an empty collection tail) is not stated. The model proves its distinctive parts one by one instead, which keeps each proof small: the PW value with spaces, the comment with an escaped ']', the TR marks, the empty node, and a root with two variations in a shorter text. The sample has whitespace between its units, so the writer round trip does not cover it.
