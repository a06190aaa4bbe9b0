# reglex, modelled in Dafny

reglex is a header-only C++ tokenizer. A grammar author declares an enumeration
of token kinds. Each kind gets a regular expression and a flag saying whether its
matches are dropped (comments, for instance). reglex then does three things:

- It joins the per-kind patterns into one alternation `(p1)|(p2)|...|(pN)`.
  Group `i` of that pattern belongs to the `i`-th enumerator in ascending value
  order, which is declaration order when the enumeration assigns no values.
- It maps the regex engine's leftmost-search result back to a token. The token
  has a kind, a lexeme view into the buffer, the line the lexeme starts on, and
  the number of newlines inside it.
- It lexes a buffer. It repeatedly extracts a token from the unconsumed view and
  skips the gap before each lexeme. It keeps unfiltered tokens and stops on an
  empty view or on no match. It returns the tokens and the unconsumed remainder.

The model has five modules:

- `Wrappers` (`wrappers.dfy`): the `Option` type for the engine's answer.
- `Registry` (`registry.dfy`): the grammar table. `patterns[k]` and `filterOut[k]`
  belong to kind `k`. A kind is its position in the enumeration, so the
  reflection lookup `lookup<J>` is the identity.
- `Pattern` (`pattern.dfy`): `make_pattern::impl` as a method. It writes into an
  `array<char>` with a running index and ends by overwriting the final delimiter
  with NUL. It is proved against the functions `Framed` and `Join`.
- `Extract` (`extract.dfy`): `lex_token` as a function. The compile-time loop
  `for_n` becomes the recursive fold `VisitGroups`. A lemma gives the fold's
  closed form.
- `Lexer` (`lexer.dfy`): `lex` as a method with a `while` loop over three pieces
  of state: the view offset, the line counter and the token list. It is proved
  equal to the recursive specification `LexFrom`, and lemmas state what
  `LexFrom` guarantees.

The regex engine is a parameter, `search: string -> Option<Match>`. It is applied
to the unconsumed view `input[pos..]`. It answers which group captured and that
group's span, relative to the view. Views are absolute offsets into the lexed
buffer:

- a token's lexeme is `input[start..end]`;
- the remainder of a `Lexed` is `input[remainder..]`;
- the consumed prefix is `input[..remainder]`.

`Lex` requires two things of the engine, and only on the views the loop actually
searches. Those views are the buffer itself and, after each extracted match, the
view starting where that lexeme ends, as long as it is non-empty. On each such
view the engine's span must fit the view. A match that the extractor turns into a
token must also be non-empty. The source needs the second requirement, because
`lex` advances with `lexeme.back()`, which is undefined on an empty lexeme.
Matches that are not extracted (group 0, or the last kind's group) may be empty.
The same requirement gives termination. The predicate `AlwaysProgresses` states
it by recursion along the loop's own views. Views the loop never reaches are not
constrained, so a grammar with a pattern that can match the empty string is still
covered on every buffer where the loop never extracts an empty match.

## Model

| member | source | states |
|---|---|---|
| `Pattern.MakePattern` | include/reglex/reglex.hpp:63-91 | The buffer has length `3·N` plus the total pattern length. Its first `len-1` cells hold the alternation of the groups `(p_i)`, separated by bars, in kind order, and its last cell holds `'\0'` (the overwritten final delimiter). |
| `Pattern.Append` | include/reglex/reglex.hpp:77-85 | Writing one pattern puts `(`, the pattern, `)` and a bar at the running index. The index advances by the pattern's length plus 3 and no other cell changes. |
| `Pattern.FramedLength` | include/reglex/reglex.hpp:69-73 | The precomputed `len` (three cells per kind plus the pattern lengths) is exactly the number of cells the writer fills. |
| `Pattern.FramedIsJoinThenBar` | include/reglex/reglex.hpp:86-89 | The written cells are the bar-separated join of the groups `(p_i)` followed by one trailing delimiter, which is the cell the terminator replaces. |
| `Pattern.GroupAt` | include/reglex/reglex.hpp:86-87 | Kind `k`'s group `(p_k)` and its delimiter sit at offset `3k` plus the lengths of the patterns before it. Group `k+1` is kind `k`'s pattern, in kind order. |
| `Extract.CountNewlinesAppend` | include/reglex/reglex.hpp:148-151 | Counting newlines distributes over concatenation. This splits the count before a lexeme from the count inside it. |
| `Extract.Capture` | include/reglex/reglex.hpp:141-154 | Building a token from a captured group always reports a match, never `NoMatch`. The kind is a declared kind and the lexeme lies inside the buffer. The status is `FilteredMatch` iff that kind is filtered out. |
| `Extract.VisitGroups` | include/reglex/reglex.hpp:100-110 | The fold over group indices `i..count-1` leaves the default result alone unless the captured group is non-zero and among the visited indices. `VisitGroupsClosedForm` gives its exact result. |
| `Extract.VisitGroupsClosedForm` | include/reglex/reglex.hpp:137-157 | The loop over group indices `i..count-1` builds a token exactly when the captured group is in that range and is not 0. Otherwise the default result stays. |
| `Extract.LexToken` | include/reglex/reglex.hpp:127-159 | A token is produced iff the engine matched with a group `g` in `1..N-1`, and otherwise the result is the default token with `NoMatch`. The token has kind `g-1` and the captured span as its lexeme. `firstLine` is `line` plus the newlines before the lexeme, and `numLines` is the newlines inside it. The status is `FilteredMatch` iff the kind is filtered out. |
| `Extract.GroupZeroNeverExtracted` | include/reglex/reglex.hpp:139-140 | The whole-match group 0 is never turned into a token. |
| `Extract.LastKindNeverExtracted` | include/reglex/reglex.hpp:140-157 | A match captured by the last kind's group `N` yields `NoMatch`, because the group loop visits only indices `0..N-1`. |
| `Extract.LexTokenAllGroups` | include/reglex/reglex.hpp:127-159 | The extractor with the group loop over all `N+1` groups. Every group `1..N` yields its kind, with the same lexeme, line data and status as `LexToken`. |
| `Extract.LastKindExtractedWithAllGroups` | include/reglex/reglex.hpp:157 | With all groups visited, a match by group `N` yields a token of the last kind. |
| `Extract.AllGroupsAgreesBelowLast` | include/reglex/reglex.hpp:137-157 | The as-written and all-groups extractors agree on every engine answer except a match by the last kind. |
| `Lexer.LexFrom` | include/reglex/reglex.hpp:168-201 | The recursive specification of the lexing loop. The remainder lies inside the unconsumed view. `LexShape`, `LexStops`, `LexLines` and `LexKinds` state the rest of what it guarantees. |
| `Lexer.Lex` | include/reglex/reglex.hpp:168-201 | The loop's result equals `LexFrom` from offset 0, line 0. The remainder lies in the buffer, and the tokens are ordered, non-overlapping, non-empty slices before it. Lexing stopped at the end of input or where nothing is extracted. Every token carries the line data of the whole buffer, and every token is an unfiltered kind other than the last. |
| `Lexer.Advance` | include/reglex/reglex.hpp:184-194 | One pass through the loop body after an extracted token keeps the loop's invariant. The view moves to the lexeme's end, from where the engine still answers as required. The line counter moves to `firstLine + numLines`, an unfiltered token is appended to the emitted ones, and the emitted tokens followed by the lexing of the new view still give the whole result. |
| `Lexer.LexShape` | include/reglex/reglex.hpp:184-199 | The remainder starts inside the unconsumed view. Tokens are non-empty slices of the consumed prefix, and each token ends before the next starts (strictly increasing offsets). |
| `Lexer.LexStops` | include/reglex/reglex.hpp:177-183 | Lexing stops only when the view is empty or the extractor reports no match on the remainder. |
| `Lexer.LexLines` | include/reglex/reglex.hpp:188-190 | If the line counter starts as the newlines before the view, the line arithmetic gives the same result as counting from the start of the buffer. Each token's `firstLine` is the number of newlines before its lexeme, and `numLines` the number inside it. |
| `Lexer.LinesNonDecreasing` | include/reglex/reglex.hpp:188-190 | Across emitted tokens, `firstLine + numLines` of a token never exceeds the next token's `firstLine`. |
| `Lexer.LexKinds` | include/reglex/reglex.hpp:184-193 | Only unfiltered kinds are emitted, and never the last declared kind. |
| `Lexer.FilteredConsumed` | include/reglex/reglex.hpp:184-194 | A filtered match emits nothing. Lexing continues after its lexeme, with the line counter advanced by the newlines in the gap and in the lexeme. |
| `Lexer.WholeInputOneToken` | include/reglex/reglex.hpp:177-199 | A buffer that is one unfiltered lexeme of a kind other than the last lexes to exactly that token, spanning the buffer, with an empty remainder. |
| `Lexer.UnreachedEmptyMatch` | include/reglex/reglex.hpp:177-190 | Take the kinds `ab`, `c*` and `x`, and an engine whose `c*` match on the view `"b"` is empty. The buffer `"ab"` meets `Lex`'s requirement although the view `"b"` alone would not, and it lexes to one `ab` token with an empty remainder. Views the loop never reaches are not constrained. |
| `Lexer.LastKindStopsLexing` | include/reglex/reglex.hpp:180-183 | If the first match is captured by the last kind, lexing stops at once with no tokens and the whole buffer as remainder. |

## Findings

| source | as written | input that shows it | evidently intended | confidence | as-written member | corrected member |
|---|---|---|---|---|---|---|
| include/reglex/reglex.hpp:157 | `for_n<token_count>` visits group indices `0..N-1`, and index 0 is skipped, so group `N` (the last declared kind) is never inspected. | The grammar of src/reglex/main.cpp (44 kinds, `ERROR` last) on the buffer `"@"`: only `ERROR`'s group 44 matches. `lex_token` reports `NoMatch`, and `lex` returns no tokens with remainder `"@"` (`Lexer.LastKindStopsLexing`). | Visit `token_count + 1` group indices, so that group `N` yields the last kind, e.g. the catch-all `ERROR` token. | not executed; high | `Extract.LastKindNeverExtracted` | `Extract.LexTokenAllGroups` |

The lexer loop `Lexer.Lex` and its lemmas use the as-written extractor
`Extract.LexToken`, so that the model behaves like the code. `Extract.LexTokenAllGroups`
is the corrected extractor. `Extract.AllGroupsAgreesBelowLast` shows that the two
differ only on a match by the last kind.

## Left out

- The regex engine (`ctre::search`), with its leftmost search, ordered-choice alternation and lookahead, is not modelled. It is the parameter `search`. The model assumes only that its spans fit the searched text. `Lex` also assumes that extracted matches are non-empty, on the views the loop searches. Priority and gap-skipping are therefore properties of the engine and are not proved here.
- An engine answer is one group and its span. A pattern with capturing groups of its own would shift the group numbering. The model assumes the patterns use only non-capturing groups, as the bundled patterns do.
- Kind reflection (`magic_enum::enum_value`, `enum_count`) is replaced by indices. `lookup<J>` (include/reglex/reglex.hpp:48) is `magic_enum::enum_value(J)`, the `J`-th enumerator in ascending value order. Kind `k` of the model is that enumerator. It is the `k`-th declared kind only when the enumeration assigns no values, or assigns them in ascending order. The default token's kind is 0. This is the enumerator with value 0, which is the first declared kind in any enum that does not assign values.
- The `Matcher` defaults (empty pattern, not filtered; lines 21-28) are not a separate operation. A grammar lists every kind's pattern and flag. A kind other than the last, left with the empty pattern, would produce a group `()` that can report an empty extracted match. `Lex` excludes that, because `lexeme.back()` is undefined on it. The last kind's empty pattern is harmless here, because the as-written extractor never inspects its group.
- The compile-time machinery (`index_sequence`, `constexpr`, `ctll::fixed_string` at lines 90 and 94-97) is not modelled. `MakePattern` returns the filled character buffer rather than a `fixed_string` type.
- Views are offsets, not pointers. The default view of the default token is offset 0 with length 0.
- `std::size_t` wrap-around of `first_line`, `num_lines` and `line` is not modelled: counts are unbounded naturals. They cannot exceed the buffer's length.
- The regex constants and the `REGLEX_KEYWORD` macro (lines 203-214) are opaque data for the engine, so they are not part of this model.
- src/reglex/main.cpp (grammar table, file I/O and printing) is not part of this model.
