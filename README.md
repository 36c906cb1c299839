# tiredkangaroo/json, modelled in Dafny

This project models the core of the `json` Go module by tiredkangaroo: the
pipeline that turns a byte source into tokens and the tokens into a tree of
JSON values.

- **Tokens** (`internals/token`): eleven token kinds, tokens with a kind and a
  text, nine shared singleton tokens, and the keyword table.
- **Lexer** (`internals/lexer`):
  - a byte cursor with one byte of pushback;
  - byte classes;
  - whitespace skipping;
  - punctuation;
  - string literals, where a backslash makes the next byte verbatim;
  - a loose number scan;
  - fixed-length keywords;
  - two append-only token stores.
- **Parser** (`internals/parser`):
  - a token cursor that buffers what the lexer delivers;
  - the recursive-descent node builders for objects, keys and arrays;
  - `makeValueNode`;
  - the root node and the parser object.

The model follows the shape of the Go code. State that changes in place is a
class with `modifies` clauses:

- the byte cursor;
- the lexer and its token pools;
- the parser cursor;
- the object, key and array nodes;
- the root node and the parser.

Each loop carries its invariants. Each class method is proved
against a function of its inputs:

- `Lexer.NextTokenOf` and `Lexer.Tokenize` for the lexer;
- `Tree.ParseValue`, `Tree.ParseKey`, `Tree.ParseMembers` and
  `Tree.ParseElements` for the parser.

The properties are lemmas about those functions. The main ones:

- **Lexer round trip.** Rendered tokens lex back token for token.
- **Tree round trip.** A value written out as tokens parses back to itself,
  whatever follows it.
- **Pipeline round trip.** A value written as text goes through the lexer and
  the parser and comes back as the same value.
- **No `{}`.** A successful parse never contains an empty object, at any depth.
- **Departures from RFC 8259.** Each is proved on concrete inputs:
  - `{}` is rejected;
  - trailing commas and missing commas are accepted;
  - duplicate names are kept;
  - `1.2.3` is a number;
  - a carriage return is not whitespace;
  - `NULL` is not `null`;
  - a number at the very end of the input is an error.

Where the Go code and its documented intent differ, the model follows the
code. `UnreadByte` fails with `ErrUnknownIdentifier`, not
`ErrUnreadOnInvalid`: the code returns the former
(`internals/lexer/reader.go:35`), and the latter is declared but never
returned.

Modelling choices:

- Bytes are a `byte` newtype. Go strings are byte strings, so text is
  `seq<byte>`.
- The `io.Reader` behind the lexer is a `seq<byte>` plus a `SourceEnd`. The
  `SourceEnd` says what the reader answers once its bytes are used up: EOF,
  another error, or zero bytes with no error.
- The parser's lexer is a `Cursor.TokenSource`: the tokens the lexer delivers,
  then the error it stops on. Within one parse the parser never calls the
  lexer again after an error, so within one parse this is exact (see
  `Cursor.TokenSource.NextToken` under Left out). `Pipeline.ParseSource` connects the two through
  `Lexer.Tokenize`.
- Errors are datatype constructors, not formatted strings.
- A pointer comparison with a singleton token is modelled as a comparison of
  kinds. `Token.SingletonComparisonIsKindComparison` proves the two agree on
  every token the lexer hands out.

## Model

| member | source | states |
|---|---|---|
| Token.TypeName | internals/token/token.go:26-52 | A value's name is "unknown" exactly when it is not one of the eleven kinds; every kind's name has 1 to 7 bytes |
| Token.TypeNameInjective | internals/token/token.go:26-52 | Two kinds with the same name are the same kind |
| Token.CommaOnlyLeads | internals/token/token.go:26-52 | A ',' byte occurs in a kind's name only as its first byte |
| Token.NewToken | internals/token/token.go:59-68 | The token's `Type()` and `Value()` are the two arguments |
| Token.SingletonsAreBare | internals/token/token.go:70-82 | Each singleton token has its own kind and an empty text |
| Token.SingletonComparisonIsKindComparison | internals/token/token.go:70-82 | A token as the lexer hands them out equals the singleton of a kind exactly when it has that kind |
| Token.KeywordsTable | internals/token/token.go:84-88 | The keyword table's keys are exactly "true", "false" and "null", and they map to TRUE_TOKEN, FALSE_TOKEN and NULL_TOKEN |
| Token.TokenString | internals/token/token.go:90-92 | `String()` is "token(", the kind's name, ", ", the text and ")": the name and the text sit at fixed places, so `Token.TokenStringInjective` can read both back |
| Token.TokenStringInjective | internals/token/token.go:90-92 | Two tokens of declared kinds with the same `String()` are equal, so comparing strings compares kind and text |
| Helpers.IsWhitespace | internals/lexer/helpers.go:5-7 | Whitespace is a control or space byte, never '\r' |
| Helpers.WhitespaceBytes | internals/lexer/helpers.go:5-7 | The whitespace bytes are exactly '\t', '\n' and ' ' |
| Helpers.IsNumber | internals/lexer/helpers.go:9-15 | True exactly for a decimal digit or '-' |
| Helpers.IsCharacter | internals/lexer/helpers.go:17-20 | True exactly for ASCII 'a'..'z' and 'A'..'Z' |
| Helpers.BytesToString | internals/lexer/helpers.go:22-24 | The string has the same bytes in the same order |
| ByteReader.LowByte | internals/lexer/reader.go:18 | `byte(lastByte)` is the byte itself when `lastByte` holds one |
| ByteReader.ReadFull | internals/lexer/reader.go:42-56 | A k-byte read delivers the next k source bytes. When fewer remain, it delivers those, zero-filled, with the source's end error. The error is absent exactly when k bytes came or the source stalls |
| ByteReader.Reader.constructor | internals/lexer/reader.go:8-13 | A fresh reader has consumed nothing, `lastByte` is 0 and no byte is pushed back |
| ByteReader.Reader.Read | internals/lexer/reader.go:42-60 | Delivers `ReadFull` of the unread source, advances by the bytes delivered, sets `lastByte` to -1 and keeps the pushback flag |
| ByteReader.Reader.ReadByte | internals/lexer/reader.go:15-30 | A pushed-back byte comes first: `byte(lastByte)`, flag cleared, source untouched. Otherwise one source byte is consumed and stored in `lastByte`. At the end, 0 and the end error, with ErrNoRead for a stalling source; `lastByte` becomes 0, or -1 when the source stalls. On success the pending bytes lose exactly their first byte |
| ByteReader.Reader.UnreadByte | internals/lexer/reader.go:33-39 | Fails, with ErrUnknownIdentifier, exactly when `lastByte == -1`. Otherwise the flag is set and, if it was clear, the last byte is put back in front of the pending bytes |
| ByteReader.ReplayLastByte | internals/lexer/reader.go:15-39 | ReadByte, UnreadByte, ReadByte returns the same byte twice, the first pending byte, and after a successful first read the replayed read reports no error. The source advances by at most one byte |
| ByteReader.UnreadTwice | internals/lexer/reader.go:33-39 | Two UnreadByte calls in a row both succeed, and only one byte is pushed back |
| ByteReader.UnreadBeforeRead | internals/lexer/reader.go:8-13 | Before any read, UnreadByte then ReadByte succeeds and yields byte 0 |
| ReadLoop.LoopAsWritten | internals/lexer/reader.go:49-52 | The short-read loop as written retries into `b[n:]` and returns only once `read` has reached `len(b)`; the buffer keeps its length. `ReadLoop.ExhaustedReadNeverReturns` and `ReadLoop.ShortReadsOverwrite` show its two faults |
| ReadLoop.ReadBytesAsWritten | internals/lexer/reader.go:42-56 | `readBytes` as written: whenever it returns, it reports at least `len(b)` bytes read, whatever the source had left |
| ReadLoop.LoopCorrectedBounds | internals/lexer/reader.go:49-52 | The corrected loop never overfills: `read` only grows up to `len(b)`, and it stops only when the buffer is full or the source has nothing left (or a zero chunk size) |
| ReadLoop.ReadBytesCorrected | internals/lexer/reader.go:42-56 | The corrected `readBytes`: at most `len(b)` bytes, ending full or at the end of the source; `ReadLoop.CorrectedReadMatchesReadFull` pins its buffer and count to `ReadFull` |
| ReadLoop.ExhaustedReadNeverReturns | internals/lexer/reader.go:42-56 | The short-read loop as written never ends when fewer than `len(b)` bytes remain, whatever the fuel |
| ReadLoop.ShortReadsOverwrite | internals/lexer/reader.go:49-52 | The loop as written, over a source giving one byte per call, turns "rue" into 'r', 'e', 0 |
| ReadLoop.LoopCorrectedFills | internals/lexer/reader.go:49-52 | The corrected loop, which retries into `b[read:]` and stops when nothing comes, fills the buffer with the consumed source bytes and zeros. It stops when full or when the source is used up |
| ReadLoop.CorrectedReadMatchesReadFull | internals/lexer/reader.go:42-56 | For every positive chunk size, the corrected `readBytes` delivers exactly the buffer and count of `ReadFull`, and advances the source offset by that count |
| Pool.Tokens.constructor | internals/lexer/pool.go:20-24 | `newTokens` starts empty |
| Pool.Tokens.NewToken | internals/lexer/pool.go:9-14 | Appends exactly one token of kind t and text v; earlier tokens are unchanged |
| Pool.Tokens.AddToken | internals/lexer/pool.go:16-18 | Appends exactly the given token; earlier tokens are unchanged |
| Lexer.TokenPool.constructor | internals/lexer/lexer.go:187-194 | The lexer's pool starts empty, with `lastElement == -1` |
| Lexer.TokenPool.NewToken | internals/lexer/lexer.go:18-27 | Keeps `lastElement == len(tokens)-1`, writes (t, v) into the new last slot and returns it; earlier slots are unchanged |
| Lexer.WhitespaceRun | internals/lexer/lexer.go:94-100 | The length of the leading whitespace run; the byte after it is not whitespace |
| Lexer.ScanLiteral | internals/lexer/lexer.go:102-119 | A string scan without error yields a LITERAL token and consumes at least the closing quote. Any error is the source's end error and leaves nothing pending |
| Lexer.ScanNumber | internals/lexer/lexer.go:121-161 | The number scan yields a NUMBER token exactly when it reports no error |
| Lexer.ScanNumberShape | internals/lexer/lexer.go:121-161 | On success, the token's text is the first byte followed by the run of digits, '.' and 'e' consumed, and the byte that ended the run stays pending. Otherwise the error is InvalidNumber just past a '-', or the source's end error with nothing left |
| Lexer.MatchKeyword | internals/lexer/lexer.go:58-88 | The keyword token comes back exactly when the next bytes are the keyword's remaining bytes. Exactly that many bytes are consumed. A mismatch is ErrUnknownIdentifier; a short source gives the read's error |
| Lexer.LexAfter | internals/lexer/lexer.go:39-90 | The dispatch on the first byte yields only tokens of declared kinds, and the singleton itself for every singleton kind |
| Lexer.NextTokenOf | internals/lexer/lexer.go:34-91 | One lexer step consumes at least one byte whenever it succeeds, and delivers well-formed tokens only |
| Lexer.Tokenize | internals/lexer/lexer.go:34-91 | Every token of the lexer's stream is well-formed |
| Lexer.Lexer.constructor | internals/lexer/lexer.go:187-195 | `NewLexer`: the whole source is pending and the pool is empty |
| Lexer.Lexer.SkipWhitespace | internals/lexer/lexer.go:94-100 | Returns the first byte after the whitespace run and leaves what follows it pending; at the end of the source, the end error |
| Lexer.Lexer.ReadLiteral | internals/lexer/lexer.go:102-119 | Token, error and the bytes left pending are those of `ScanLiteral`; a token returned is also added to the pool |
| Lexer.Lexer.ReadNumber | internals/lexer/lexer.go:121-161 | Token, error and the bytes left pending are those of `ScanNumber`, with the ending byte pushed back; a token returned is also added to the pool |
| Lexer.Lexer.MatchRemaining | internals/lexer/lexer.go:58-88 | Token, error and the bytes left pending are those of `MatchKeyword` |
| Lexer.Lexer.LexAfterByte | internals/lexer/lexer.go:39-90 | The switch on the first byte after the whitespace: token, error and the bytes left pending are those of `LexAfter`; the pool grows by exactly the LITERAL or NUMBER token returned |
| Lexer.Lexer.NextToken | internals/lexer/lexer.go:34-91 | Token, error and the bytes left pending are those of `NextTokenOf`. The pool grows by exactly the LITERAL or NUMBER token returned |
| LexerProperties.ScanLiteralEscaped | internals/lexer/lexer.go:106-116 | An escaped text and its closing quote scan back to the text; what follows stays pending |
| LexerProperties.ScanLiteralUnterminated | internals/lexer/lexer.go:106-118 | The input ending inside a string gives a LITERAL token with the partial text together with the end error |
| LexerProperties.ScanLiteralDanglingBackslash | internals/lexer/lexer.go:107-111 | The input ending right after a backslash gives the error and no token |
| LexerProperties.NextTokenConsumesPrefix | internals/lexer/lexer.go:34-91 | A lexer step only consumes: what it leaves pending is a suffix of its input |
| LexerProperties.StringLexes | internals/lexer/lexer.go:102-119 | A quoted, escaped text is one LITERAL token whose text has no quotes or escapes |
| LexerProperties.SkipsWhitespace | internals/lexer/lexer.go:34-100 | Spaces, tabs and newlines before a lexeme do not change the step |
| LexerProperties.CarriageReturnRejected | internals/lexer/lexer.go:90 | A '\r' is ErrUnknownIdentifier, not whitespace |
| LexerProperties.OnlyWhitespace | internals/lexer/lexer.go:35-38 | Whitespace up to the end of the source gives the end error |
| LexerProperties.PunctuationLexes | internals/lexer/lexer.go:40-51 | Each of `{ } [ ] : ,` is the singleton token named by that byte, and only that byte is consumed |
| LexerProperties.ScanNumberRun | internals/lexer/lexer.go:127-158 | A run of digits, '.' and 'e' ended by another byte accumulates into the token text; the ending byte stays pending |
| LexerProperties.ScanNumberAtEnd | internals/lexer/lexer.go:128-131 | A number run reaching the end of the source gives the end error and no token |
| LexerProperties.ScanNumberMinus | internals/lexer/lexer.go:132-134 | A '-' after the first byte of a number is ErrInvalidNumber |
| LexerProperties.NumberLexes | internals/lexer/lexer.go:121-161 | A number lexeme followed by an ending byte is one NUMBER token with the lexeme as text |
| LexerProperties.NumberAtEndFails | internals/lexer/lexer.go:128-131 | A number at the very end of the input is an error, not a token |
| LexerProperties.FixtureNumber | internals/lexer/lexer_test.go:88 | "5.80975e3" followed by a comma is the NUMBER token "5.80975e3" |
| LexerProperties.RepeatedDecimalsAndExponents | internals/lexer/lexer.go:125-155 | The decimal and exponent flags are never set, so "1.2.3" and "1e2e3" are single NUMBER tokens |
| LexerProperties.MinusInsideNumber | internals/lexer/lexer.go:132-134 | "1-2" is ErrInvalidNumber |
| LexerProperties.KeywordLexes | internals/lexer/lexer.go:58-88 | Each keyword is its singleton token, whatever follows; exactly its bytes are consumed |
| LexerProperties.MisspelledKeywords | internals/lexer/lexer.go:58-90 | "trux" and uppercase "NULL" are ErrUnknownIdentifier |
| LexerProperties.TruncatedKeyword | internals/lexer/lexer.go:61-64 | A keyword cut short by the end of the source gives the read's error, or ErrUnknownIdentifier when the source stalls |
| LexerProperties.RenderedTokenLexes | internals/lexer/lexer.go:34-91 | A rendered token followed by a space lexes back to exactly that token |
| LexerProperties.TokenizeSkipsWhitespace | internals/lexer/lexer.go:94-100 | Leading whitespace does not change the token stream |
| LexerProperties.TokenizeRenderAll | internals/lexer/lexer.go:34-91 | The lexer reads a rendered token sequence back exactly, then reports the end of the source |
| ParseErrors.ObjectPeekError | internals/parser/node.go:30-36 | EOF at an object's lookahead is ErrUnexpectedEOF("key"), and exactly then; every other error is wrapped as LexerError |
| Cursor.FirstMismatch | internals/parser/parser.go:67-71 | The first index where the kinds differ, with all earlier ones equal; none exactly when all kinds match |
| Cursor.TokenSource.NextToken | internals/lexer/lexer.go:34-91 | The next token while any remain, then the lexer's error every time after |
| Cursor.CheckKinds | internals/parser/parser.go:67-71 | The loop over the expected kinds returns `FirstMismatch`: the first index whose kind differs, or none |
| Cursor.Reader.constructor | internals/parser/parser.go:90-98 | A new parser cursor has an empty buffer and position -1 |
| Cursor.Reader.FillBuf | internals/parser/parser.go:21-30 | Calls the lexer at most `max(n, 0)` times, appending in order. It reaches `n` more tokens, or stops at the lexer's error keeping every token delivered. The position is unchanged |
| Cursor.Reader.Read | internals/parser/parser.go:32-43 | The position advances by one even on failure. Returns the token there, with the buffer reaching it. Past the lexer's tokens, returns the lexer's error. The lexer is not called when the token is buffered already |
| Cursor.Reader.Peek | internals/parser/parser.go:45-50 | The buffer reaches `pos+n+1` tokens, the position is unchanged, and all buffered tokens after the position come back, at least n. Otherwise the lexer's error. The buffer only grows |
| Cursor.Reader.PeekNext | internals/parser/parser.go:45-50 | `Peek(1)` as the node loops use it: the token just after the position, a well-formed one, or the lexer's error when there is none; the position is unchanged |
| Cursor.Reader.Discard | internals/parser/parser.go:52-57 | Adds n to the position and leaves the buffer alone |
| Cursor.Reader.Expect | internals/parser/parser.go:59-74 | When the next kinds match, the position advances by exactly their number and the tokens come back. A mismatch names the first differing index and leaves the position. A lexer error is returned as is |
| Tree.ParseValue | internals/parser/node.go:202-235 | A value consumes at least one token; success means a node, ending on a token that exists |
| Tree.ParseKey | internals/parser/node.go:61-96 | A successful key consumes its name, its colon and a value |
| Tree.ParseMembers | internals/parser/node.go:19-43 | The member loop never moves back and stays within the tokens; success ends on a token that exists |
| Tree.MembersAccumulate | internals/parser/node.go:19-43 | Members only accumulate: the result starts with the members already held, and a successful object has gained at least one |
| Tree.ParseElements | internals/parser/node.go:121-144 | The element loop never moves back and stays within the tokens; success ends on a token that exists |
| Tree.ElementsAccumulate | internals/parser/node.go:121-144 | Elements only accumulate: the result starts with the elements already held |
| Nodes.ObjectNode.constructor | internals/parser/node.go:210 | A new object node has no members |
| Nodes.ObjectNode.Parse | internals/parser/node.go:19-43 | The members, the error and the position are those of `Tree.ParseMembers` from the `{` |
| Nodes.ObjectNode.ParseMember | internals/parser/node.go:23-40 | One pass of the loop: on an error or a closing `}` the members, error and position are the final ones of `Tree.ParseMembers`; otherwise the position advances and the rest of the loop from there gives the same result |
| Nodes.KeyNode.constructor | internals/parser/node.go:23 | A new key node has an empty name and no value |
| Nodes.KeyNode.Parse | internals/parser/node.go:61-96 | The error and the position are those of `Tree.ParseKey`; on success the name and value are its member |
| Nodes.ArrayNode.constructor | internals/parser/node.go:214 | A new array node has no values |
| Nodes.ArrayNode.Parse | internals/parser/node.go:121-144 | The values, the error and the position are those of `Tree.ParseElements` from the values it held |
| Nodes.ArrayNode.ParseElement | internals/parser/node.go:123-142 | One pass of the loop: on an error or a closing `]` the values, error and position are the final ones of `Tree.ParseElements`; otherwise the position advances and the rest of the loop from there gives the same result |
| Nodes.MakeValueNode | internals/parser/node.go:202-235 | The node, the error and the position are those of `Tree.ParseValue` |
| Parser.RootNode.constructor | internals/parser/parser.go:77 | A new root holds no value |
| Parser.RootNode.Parse | internals/parser/root.go:9-13 | The stored value, the error and the position are those of `Tree.ParseValue`: nil after a read or unexpected-token error, partial after a nested error |
| Parser.RootNode.Value | internals/parser/root.go:15-17 | Returns the value the last `Parse` stored |
| Parser.Parser.constructor | internals/parser/parser.go:90-98 | `NewParser`: a cursor over the lexer with an empty buffer at position -1, and no root |
| Parser.Parser.Parse | internals/parser/parser.go:76-84 | Installs a fresh root, which parses per `Tree.ParseValue`; its error is returned |
| Parser.Parser.Root | internals/parser/parser.go:86-88 | Returns the root installed by the last `Parse` |
| Parser.ParseTokens | internals/parser/parser.go:76-98 | A new parser over a lexer delivering `toks` yields `Tree.ParseValue` from position -1 |
| TreeProperties.ParseEmitted | internals/parser/node.go:202-235 | A value without empty objects, written as tokens, parses back to itself and ends on its last token, whatever surrounds it |
| TreeProperties.ParseKeyEmitted | internals/parser/node.go:61-96 | A written member parses back to itself; a comma after it is consumed with it |
| TreeProperties.ParseMembersEmitted | internals/parser/node.go:19-43 | Members written with commas, then `}`, parse back to exactly those members |
| TreeProperties.ParseElementsEmitted | internals/parser/node.go:121-144 | Elements written with commas, then `]`, parse back to exactly those elements |
| TreeProperties.ParseValueNoEmptyObject | internals/parser/node.go:202-235 | A successful parse never contains an empty object, at any depth |
| TreeProperties.ParseMembersNoEmptyObject | internals/parser/node.go:19-43 | A successful member loop yields members whose values have no empty object |
| TreeProperties.ParseElementsNoEmptyObject | internals/parser/node.go:121-144 | A successful element loop yields elements that have no empty object |
| TreeProperties.EmptyObjectRejected | internals/parser/node.go:19-69 | `{}` fails: an empty object comes back with Expect's error at index 0, or with the lexer's error when the tokens end there |
| TreeProperties.NonValueTokenRejected | internals/parser/node.go:234 | `}`, `]`, `:` or `,` where a value is due fails with UnexpectedToken("valid JSON value", t) and no node |
| TreeProperties.ScalarValues | internals/parser/node.go:217-232 | Each scalar is one token; string and number nodes carry the token's text |
| TreeProperties.ValueAtEnd | internals/parser/node.go:203-206 | With no token left, a value fails with the lexer's own error and no node |
| TreeProperties.RootStopsAfterFirstValue | internals/parser/root.go:9-13 | The root is one value; the tokens after it are never looked at |
| TreeProperties.TrailingCommaAccepted | internals/parser/node.go:87-93 | `{"a":1,}` is the object with one member |
| TreeProperties.MissingCommaAndDuplicateNames | internals/parser/node.go:19-40 | `{"a":1 "a":2}` is accepted and keeps both members, in order |
| TreeProperties.ArrayCommas | internals/parser/node.go:121-144 | `[]` is empty; `[1 2]` and `[,1,,2,]` each hold the two elements |
| TreeProperties.PartialObjectOnError | internals/parser/node.go:209-212 | An object failing at its second member comes back with its first member, beside the error |
| TreeProperties.ObjectAtEnd | internals/parser/node.go:19-96 | Tokens ending after a member and comma give the object's EOF error. Tokens ending right after a member's value give the lexer's error as is, and that member is dropped |
| TreeProperties.ArrayAtEnd | internals/parser/node.go:122-126 | `[1` comes back with its element and the lexer's error |
| Pipeline.ParseDocument | internals/parser/root.go:9-13 | Lexing then parsing a document: a success is a value with no empty object |
| Pipeline.SerializeParses | internals/parser/root.go:9-13 | A value without empty objects, with numbers in the lexer's number syntax, written as text, parses back to itself through the lexer and the parser |
| Pipeline.LexAll | internals/lexer/lexer.go:34-91 | Calling `NextToken` until it fails yields exactly `Lexer.Tokenize` of the source |
| Pipeline.ParseSource | internals/parser/parser.go:76-98 | `NewLexer`, `NewParser` and `Parse` on a source give the value and the error of `ParseDocument` |

## Left out

- `example/main.go`: a demonstration entry point with no logic of its own.
- `internals/parser/reader.go`: a second declaration of the parser cursor. It cannot be compiled alongside `parser.go`, and its cursor arithmetic is the same.
- `readKeyword` (`internals/lexer/lexer.go:163-185`): never called, and it prints.
- The `String` and `String(tabs)` printers of tokens' kinds and of nodes: diagnostic formatting. `Token.String` is modelled, as `TokenString`, because the lexer test compares tokens by it.
- The formatting in `internals/parser/errors.go`, and its `runtime.Caller` walk and print: errors are datatype constructors.
- The sentinels `ErrTooManyDecimals`, `ErrInvalidScientificNotation` and `ErrUnreadOnInvalid` are constructors that nothing returns. The branches that would return the first two test flags that are never set, so they cannot be reached.
- The `unsafe.Pointer` reinterpretations in `makeValueNode` and `bytesToString`: modelled as copies of the text. Aliasing between a string node and the token's text is not modelled.
- The `go:linkname` binding of `Read` to `readBytes`: the model calls the loop directly.
- The lexer test's fixture expects uppercase `NULL` to lex as a null token. The lexer rejects it, and the model follows the lexer (`LexerProperties.MisspelledKeywords`).
- `BenchmarkLexer` and its parallel runs: benchmarking and concurrency.
- The capacities given to `make` (4096, 256, 30, 12, 10, 6): performance hints only, with no observable effect.
- `ByteReader.Reader.Read`: modelled with the corrected short-read loop. The loop as written is under Findings.
- `Cursor.TokenSource.NextToken`: after its first error the model repeats that error on every later call. The Go lexer resumes after an error that comes from the input (ErrUnknownIdentifier, ErrInvalidNumber) and lexes the bytes it has not consumed. Within one `Parser.Parse` this cannot be seen, since the parse stops at the first error; a second `Parser.Parse` on the same parser after such an error would see the resumed tokens in Go, and the repeated error in the model.
- `Cursor.TokenSource`: the parser's lexer is the stream of tokens the lexer would deliver, plus its error. `Pipeline.ParseSource` runs the lexer to its first error before parsing. The lexer then reads past the end of the first value, which the Go parser never asks for. The value and the error are the same, since the parser never sees those tokens.
- `Cursor.Reader.Discard`: requires the new position to be at least -1. The parser only discards forward, so this always holds.
- `TreeProperties.ParseEmitted` and `Pipeline.SerializeParses`: cover values without empty objects, because the parser cannot produce `{}`. `SerializeParses` also needs numbers in the lexer's number syntax, because other number texts cannot come from the lexer.
- `Lexer.TokenPool.NewToken`: the branch that reuses a slot after `lastElement` has been lowered is unreachable, because nothing lowers `lastElement`. The model always appends.

## Findings

| source | as written | input that shows it | evidently intended | confidence | as-written member | corrected member |
|---|---|---|---|---|---|---|
| internals/lexer/reader.go:49-52 | The loop repeats `r.rd.Read` until `read` reaches `len(b)` and ignores the error, so at the end of the source it never returns. `ReadByte` at the end of the input goes through this loop, for example on the empty document or on `tr` | a source with fewer bytes left than requested, such as the empty input | Stop on the source's error or when the source has nothing left, and return the bytes read. The corrected model does not compute the error from the last chunk: it is the source's end error from `SourceEnd`, as `ReadFull` states | high; not executed | ReadLoop.ExhaustedReadNeverReturns | ReadLoop.CorrectedReadMatchesReadFull |
| internals/lexer/reader.go:50 | Retries read into `b[n:]`, where `n` is the last call's count, instead of `b[read:]`. A source that returns short reads overwrites bytes already read | "rue" after 't' from a source returning one byte per call; the buffer becomes 'r', 'e', 0 and `true` is rejected | Read into `b[read:]` | high; not executed | ReadLoop.ShortReadsOverwrite | ReadLoop.CorrectedReadMatchesReadFull |
