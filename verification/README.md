# Tome string-literal scanner, modelled in Dafny

tree-sitter-tome parses the Tome language with a table-driven tree-sitter
parser. Inside string literals the parser calls a hand-written *external
scanner*. The engine passes it a lexer cursor and a valid-symbols vector.
The vector says which of the three external tokens the grammar accepts at
this point:

- `STRING_CONTENT`: a maximal run of string-body characters;
- `INTERPOLATION_START`: the two characters `#{`;
- `INTERPOLATION_END`: a single `}`.

The scanner tries these in a fixed order: `#{`, then `}`, then content. Each
branch returns without falling through to the next. A content run stops at
`"`, at `\`, at end of input, or before a `#` that is immediately followed by
`{`. The scanner finds that last case by recording the token end
(`mark_end`) before it steps over the `#` to look at the next character.
Apostrophes are ordinary content, since only `"` closes a string body.

Files:

- `tokens.dfy` (module `Tokens`): the token enumeration, its indices, and the valid-symbols vector.
- `lexer.dfy` (module `Lexing`): class `Lexer`, the engine's cursor. It holds the input, the position `pos`, the recorded end `markedEnd` and `resultSymbol`.
- `scanner.dfy` (module `Scanner`): the stop predicate `IsStop`, the content-run end `ContentEnd`, the branch choice `Selected` and the outcome `Expected`. It also holds the imperative `Scan`, which is proved to meet `Expected` and to leave the lexer in a fully described state.
- `properties.dfy` (module `ScannerProperties`): lemmas about `Expected`, worked examples, and a small client of `Scan`.

Assumptions about the engine. Its header (`tree_sitter/parser.h`) is not part of this model. The scanner relies on the following, and class `Lexer` states each one as its behaviour:

- The lookahead is the character at the cursor, or NUL at end of input. `eof()` holds only at end of input, so a NUL inside the input is ordinary content.
- `advance` moves one character on and does nothing at end of input. The scanner never calls it there.
- Each call starts with no end recorded (`Scan` requires `markedEnd == None`).
- A recognised token ends at the last `mark_end` position of the call. When there was none, it ends at the cursor (`Lexer.TokenEnd`).
- The valid-symbols vector has one flag per external token, indexed by the enumeration (`Tokens.ValidSymbols`).

A false result does not restore the cursor. The `#` branch has already
stepped past the `#` when it returns false, and so has the content branch
when its run is empty before `#{`. `Scan`'s postcondition states exactly
where the cursor is left; discarding that progress is the engine's job.

## Model

| member | source | states |
|---|---|---|
| Tokens.Ordinal | tree-sitter-tome/src/scanner.c:4-8 | every token kind has an index below the number of external tokens (3) |
| Tokens.FromOrdinal | tree-sitter-tome/src/scanner.c:4-8 | an index names a token kind exactly when it is below 3 |
| Tokens.OrdinalRoundTrip | tree-sitter-tome/src/scanner.c:4-8 | the enumeration is one-to-one: kind to index to kind, and index to kind to index, give back what they started with |
| Lexing.Lexer.Advance | tree-sitter-tome/src/scanner.c:24 | advancing moves the cursor one character on, and not past the end (an engine assumption) |
| Lexing.Lexer.MarkEnd | tree-sitter-tome/src/scanner.c:53 | mark_end records the current cursor position as the token end (an engine assumption) |
| Lexing.Lexer.TokenEnd | tree-sitter-tome/src/scanner.c:70 | the token ends at the recorded position, or at the cursor if none was recorded, and never after the cursor (an engine assumption) |
| Lexing.Lexer.constructor | tree-sitter-tome/src/scanner.c:20-21 | a scan starts at a position within the input, with no end recorded |
| Scanner.ContentEnd | tree-sitter-tome/src/scanner.c:44-68 | the content run from `start` ends at the first position at or after `start` that is end of input, `"`, `\`, or a `#` followed by `{`; no earlier position is one of these |
| Scanner.Expected | tree-sitter-tome/src/scanner.c:20-76 | the outcome of a call, by branch priority; every token it reports is non-empty and lies within the input |
| Scanner.Scan | tree-sitter-tome/src/scanner.c:20-76 | returns true exactly when `Expected` gives a token, then with that kind in `resultSymbol` and that end as the token end. It states the whole final lexer state for each branch, including where a false result leaves the cursor. Its content loop is proved to terminate (each iteration that goes on advances the cursor) |
| ScannerProperties.InterpolationStartExactly | tree-sitter-tome/src/scanner.c:23-28 | an interpolation-start token is reported exactly when it is permitted and `#{` is at the cursor, and it spans exactly those 2 characters |
| ScannerProperties.LoneHashRejected | tree-sitter-tome/src/scanner.c:23-31 | with interpolation start permitted, a `#` not followed by `{` (a trailing `#` too) gives no token, even when content is also permitted |
| ScannerProperties.InterpolationEndExactly | tree-sitter-tome/src/scanner.c:34-38 | an interpolation-end token is reported exactly when it is permitted and `}` is at the cursor, and it spans exactly 1 character |
| ScannerProperties.ContentEndUnique | tree-sitter-tome/src/scanner.c:44-68 | any stop position with no stop before it is the content run's end |
| ScannerProperties.ContentTokenText | tree-sitter-tome/src/scanner.c:47-59 | a content token contains no `"`, `\` or `#{`; when the run stops at a `#`, that `#` begins `#{` and is outside the token |
| ScannerProperties.ContentPassesOver | tree-sitter-tome/src/scanner.c:44-67 | an apostrophe, a `}`, or a `#` not followed by `{` (a trailing `#` too) never stops a content run; the run goes on past it |
| ScannerProperties.ContentCoversRun | tree-sitter-tome/src/scanner.c:44-68 | a stretch of characters none of which is `"`, `\` or the `#` of a `#{` is consumed whole by the content branch |
| ScannerProperties.ContentFoundIffNonEmpty | tree-sitter-tome/src/scanner.c:41-72 | in the content branch a token is reported exactly when the run is non-empty, and it is then `STRING_CONTENT` ending at the run's end; an immediate `"`, `\`, end of input or `#{` gives nothing |
| ScannerProperties.NoContentWithoutPermission | tree-sitter-tome/src/scanner.c:41-75 | without content permitted, no content token is reported; with nothing permitted, no token at all |
| ScannerProperties.Progress | tree-sitter-tome/src/scanner.c:23-72 | at any character other than `"` and `\`, asking for content, or else for an interpolation start, yields a token, so the engine is never stuck |
| ScannerProperties.Examples | tree-sitter-tome/src/scanner.c:20-76 | worked cases: `he#llo"` gives 6 content characters; `he#{llo"` gives 2; `""` gives nothing; `it's"` gives 4; `a#` gives 2; `#{` gives an interpolation start; `#x` and a lone `#` give nothing with interpolation start permitted; `}` gives an interpolation end |

## Left out

- The lifecycle functions `create`, `destroy`, `serialize` and `deserialize` (tree-sitter-tome/src/scanner.c:10-18): the scanner has no state, so they return NULL or 0, or do nothing.
- The `skip` argument of `advance`: the scanner always passes false, so the token always starts at the cursor position of the call.
- The engine's own lexer (`tree_sitter/parser.h`), including restoring the cursor after a false result. Its behaviour that the scanner relies on is stated as assumptions in `Lexing.Lexer`.
- The language-table accessor `tree_sitter_tome()` declared in the C and Swift binding headers, and the Python binding test. These are a generated foreign table and foreign-library glue.
- Unicode classification: the scanner compares only ASCII characters, and `wctype.h` is included but unused.
- The variant that also ends content at an apostrophe: the code removed that check (tree-sitter-tome/src/scanner.c:46), so only the `"`-only policy is modelled.
