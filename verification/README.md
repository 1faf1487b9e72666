# ZapScript parser core in Dafny

ZapScript is the small command language that a Zaparoo token carries. A
script is a chain of commands joined by `||`:

- `**name:arg1,arg2?key=value` runs a command;
- `@System/Title` launches a game by its media title;
- any other text launches that text directly (an auto launch);
- a JSON object `{...}` is rejected.

The `ScriptReader` of the Go package reads a script one rune at a time.
It can peek, and it can unread one rune. Scanning builds these values:

- positional arguments, with quoting, `^` escapes and JSON objects;
- advanced arguments `?k=v&k2=v2`;
- input-macro arguments such as `{enter}`;
- `[[expression]]` markers, which are tokenised into private-use runes and
  evaluated later.

The package also holds three things beside the reader:

- the trait shorthand `#key=value #flag #list=[a,b]`, with its value-type
  inference;
- the tag-filter language `+type:value,-type:value,~type:value`, with tag
  normalisation;
- the case-insensitive action helpers `IsActionRun`, `IsActionDetails` and
  `IsModeShuffle`.

The model is pure and functional:

- A reader state is a `Cursor(text, pos, canUnread)` over decoded runes.
- Each scanner is a function from a cursor to
  `Scan<T> = Ok(value, cur) | Fallback(raw, cur) | Fail(err)`. `Fallback`
  is the source's "not what it looked like, treat the text as plain"
  return.
- Each loop of the Go code is a recursive function over the cursor.
- Code the parser calls but does not own is a parameter of the model:
  - `canon`: JSON validation and compaction;
  - `floatOk`: `strconv.ParseFloat`;
  - `eval`: the expression engine.

Modules:

| module | file | Go source |
|---|---|---|
| `Symbols` | symbols.dfy | symbols.go |
| `GoStrings` | gostrings.dfy | the `strings`/`strconv` functions the core uses |
| `Reader` | reader.dfy | reader.go |
| `Quoted` | quoted.dfy | `parseQuotedArg` |
| `Commands` | commands.dfy | AdvArgs, Command, Script |
| `Expressions` | expressions.dfy | expressions.go |
| `Arguments` | arguments.dfy | arguments.go |
| `Parser` | parser.dfy | parser.go |
| `ScriptRuns` | script.dfy | whole-script behaviour of `ParseScript` |
| `Traits` | traits.dfy | traits.go |
| `TraitRuns` | trait_runs.dfy | whole-input behaviour of the trait scanners |
| `TraitSyntax` | traits_syntax.dfy | whole-input behaviour of `parseTraitsSyntax` |
| `TagFilters` | tagfilter.dfy | tagfilter.go |
| `Actions` | advargs.dfy | advargs.go |

Two kinds of properties are proved:

- contracts on the scanners themselves (bounds, error sets, what a result
  implies);
- reference lemmas. Each one describes an input family by its shape (a
  command name, a list of `key=value` pairs, a set of tag filters) and
  states exactly what the parser returns for every input of that shape.
  Examples are a tokenise/split/render round trip, and
  parse(format(filters)) = dedup(filters).

## Model

| member | source | states |
|---|---|---|
| Symbols.IsInputMacroCmd | symbols.go:76-83 | a macro command name is non-empty and starts with `i` |
| Symbols.InputMacroCmds | symbols.go:76-83 | exactly `input.keyboard` and `input.gamepad` are macro commands; matching is case-sensitive, so `INPUT.KEYBOARD` and `launch` are not |
| Symbols.NameClassesDiffer | symbols.go:64-70 | command-name and advanced-arg-name characters agree except that `.` is only a command-name character and `_` is only an arg-name character |
| Symbols.WhitespaceIsNarrow | symbols.go:72-74 | whitespace is only space, tab, CR and LF (form feed, vertical tab and NBSP are not), all below U+0021 |
| Symbols.MarkersAreReserved | symbols.go:58-62 | the expression markers are U+E000 and U+E001; they are distinct, are not EOF, and are neither whitespace nor name characters |
| Actions.ActionsOnAscii | advargs.go:21-33 | on ASCII input, `IsActionRun` holds iff the action is empty or lower-cases to `run`; `IsActionDetails` iff it lower-cases to `details`; `IsModeShuffle` iff it lower-cases to `shuffle` |
| Actions.RunAndDetailsExclusive | advargs.go:21-28 | no action is both run and details; the empty action is run |
| Actions.FoldIsLower | advargs.go:21-33 | for ASCII text and a lower-case word, case-insensitive equality is equality after lower-casing |
| Actions.ActionExamples | advargs.go:21-33 | `RUN`, `Run`, `DeTaIlS`, `SHUFFLE` and the long-s `ſhuffle` match; `running`, `detail` and `shuffled` do not |
| Commands.Get | reader.go:38-40 | a missing key reads as ""; a non-empty result is the stored value of that key |
| Commands.With | reader.go:43-50 | the result holds the new pair; its key set is the old keys plus this key; every other key keeps its value; the raw map is allocated |
| Commands.GetWhen | reader.go:52-55 | the flag is true iff `when` is present; the value is `Get(when)` |
| Commands.IsEmpty | reader.go:57-59 | true iff the map has no entries, and always true for a nil map |
| Commands.Range | reader.go:61-67 | visits keys in the given map order, each with its stored value; keeps going while the callback returns true; stops right after the first false |
| Commands.GetWith | reader.go:38-50 | after `With(k, v)`, `Get(k) == v`, every other key reads as before, and the map is non-empty |
| Commands.RangeVisitsAll | reader.go:61-67 | with a callback that never stops, Range visits every key exactly once |
| Reader.NewParser | reader.go:126-130 | a new reader sits at position 0 and cannot unread |
| Reader.Read | reader.go:132-141 | before the end, returns the rune at the position and advances by one; at the end, returns EOF without moving and disables unread |
| Reader.Peek | reader.go:152-164 | never moves and disables unread |
| Reader.PeekIsReadWithoutMoving | reader.go:132-164 | peek returns the same rune that read would return, without moving |
| Reader.Unread | reader.go:143-150 | succeeds iff the last call was a successful read, and then steps back one rune; otherwise `ErrInvalidUnreadRune` |
| Reader.ReadUnreadRestores | reader.go:132-150 | read then unread returns to the original position, and reading again yields the same rune |
| Reader.UnreadNeedsARead | reader.go:143-164 | unread fails after a read at EOF and after any peek |
| Reader.Skip | reader.go:166-172 | skip moves like read |
| Reader.CheckEndOfCmd | reader.go:174-196 | a command ends iff the rune is `\|` and is followed by `\|` or EOF; the second `\|` is consumed, otherwise the cursor stays |
| Reader.ParseEscapeSeq | reader.go:198-221 | consumes one rune; yields "" exactly at EOF; any rune other than n, r, t is itself |
| Reader.EscapeTable | reader.go:198-221 | `^n`, `^r`, `^t` give newline, CR, tab; `^^`, `^"` and `^'` give the escaped rune |
| Quoted.ParseQuotedArg | reader.go:223-258 | never a fallback; a success ends just after the closing quote; errors are unmatched quote, unmatched expression, or an unread error |
| Quoted.QuotedReadsToQuote | reader.go:223-258 | plain text followed by the quote is returned verbatim, and the cursor sits after the quote |
| Quoted.QuotedRunsOut | reader.go:226-232 | plain text with no closing quote fails with `ErrUnmatchedQuote` |
| Quoted.EscapedQuoteIsLiteral | reader.go:234-240 | `^` before the quote puts the quote itself into the value, and scanning goes on |
| Quoted.QuotedCopyStep | reader.go:250-254 | an ordinary rune is copied to the front of the rest of the value |
| GoStrings.TrimSpaceSpec | tagfilter.go:35 | TrimSpace returns the slice between the leading and trailing whitespace runs, and the result neither starts nor ends with whitespace |
| GoStrings.TrimSpaceIdempotent | tagfilter.go:35 | trimming twice equals trimming once |
| GoStrings.Split | tagfilter.go:70 | split yields at least one piece; no piece contains the separator; joining the pieces gives back the input |
| GoStrings.SplitAtFirst | tagfilter.go:70 | splitting `a + sep + b`, where `a` has no separator, gives `a` followed by the pieces of `b` |
| GoStrings.IndexOf | tagfilter.go:102-103 | -1 iff the rune is absent; otherwise the index of its first occurrence |
| GoStrings.ToLowerAscii | parser.go:182 | upper-case ASCII letters move down by 32; every other rune is unchanged |
| GoStrings.ParseInt64 | traits.go:541-544 | accepts only an optionally signed run of digits within the int64 range |
| GoStrings.FormatIntRoundTrip | traits.go:541-544 | parsing the decimal form of any int64 gives the number back |
| Expressions.ParseExpression | expressions.go:90-130 | at the true end, fails with `ErrInvalidUnreadRune`; before a rune other than `[`, yields a literal `[` without moving; after `[[` only unmatched-expression errors occur |
| Expressions.ParseExpressionSpan | expressions.go:103-123 | a parsed `[[body]]` yields the body wrapped in the two marker runes; the cursor sits just past `]]`; the body has no unclosed `]]` and no EOF |
| Expressions.ExprBodySpan | expressions.go:103-123 | the scanned text is exactly the body followed by `]]` |
| Expressions.ParseExpressions | expressions.go:158-191 | never a fallback; the only errors are unmatched expression and unread error |
| Expressions.ParseExpressionsIdentity | expressions.go:158-191 | text with no `[` and no `^` is returned unchanged |
| Expressions.EscapedOpenerIsLiteral | expressions.go:169-183 | `^[[` yields the literal text `[[` and starts no expression |
| Expressions.TokenizeSource | expressions.go:158-191 | the source text of any well-formed literal/expression segment list tokenises to the marker form of that list |
| Expressions.PostExpressionSpan | expressions.go:132-152 | a post-expression read stops at the end marker; its value is the text before the marker and contains no marker |
| Expressions.PostExpressionRunsOut | expressions.go:136-142 | a start marker without an end marker fails with `ErrUnmatchedExpression` |
| Expressions.SplitRendersBack | expressions.go:199-232 | concatenating the parts (expression parts inside their markers) gives back the input |
| Expressions.SplitTokensFromStart | expressions.go:199-232 | splitting the tokenised text of a segment list yields exactly that list's literal and expression parts |
| Expressions.TokenizeSplitRoundTrip | expressions.go:158-232 | source → tokens → parts: tokenising gives the marker form, and splitting that gives back the segments |
| Expressions.RenderPart | expressions.go:236-253 | a literal part renders as itself; an expression part fails iff the engine errs or returns an unsupported type, and the latter is `ErrBadExpressionReturn` |
| Expressions.EvalParts | expressions.go:234-259 | succeeds iff every part renders; on failure, the error is that of the first part that fails |
| Expressions.EvalSubstitutes | expressions.go:193-260 | with an engine that maps every expression to a string, evaluating the tokens of a segment list replaces each expression by its value and keeps the literals |
| Expressions.UnterminatedMarkerFails | expressions.go:199-232 | a start marker with no end marker after it fails with `ErrUnmatchedExpression` before anything is evaluated |
| Arguments.ParseJSONArg | arguments.go:24-80 | never a fallback; the only error is `ErrInvalidJSON`; success consumes input |
| Arguments.ParseJSONArgSpec | arguments.go:24-80 | for text that closes the outer brace: if the codec rejects the object, `ErrInvalidJSON`; otherwise the codec's compact form, with the cursor just after the closing brace |
| Arguments.JSONSpanCloses | arguments.go:31-64 | the scanned object text is a verbatim slice of the input, and it closes the brace depth |
| Arguments.JSONSpanExact | arguments.go:31-64 | any text that closes the depth is read exactly up to its closing brace |
| Arguments.JSONRunsOut | arguments.go:35-36 | input that ends while a brace is still open fails with `ErrInvalidJSON` |
| Arguments.JStepInString | arguments.go:41-54 | inside a string, a rune other than `"` and `\` changes no scanner state, braces included |
| Arguments.JStepEscaped | arguments.go:41-46 | a rune after `\` only clears the escape flag |
| Arguments.JRunStringBody | arguments.go:41-54 | from any in-string state, a string body leaves the scanner state unchanged |
| Arguments.JSONStringInert | arguments.go:41-54 | from any state outside a string, a whole quoted string leaves the state, and so the brace depth, unchanged |
| Arguments.JRunAppend | arguments.go:31-64 | scanning `a + b` equals scanning `a` and then `b` |
| Arguments.ParseAdvArgs | arguments.go:159-261 | any failure is an argument error, never `ErrInvalidAdvArgName` (an invalid name falls back to plain text) |
| Arguments.AdvPairsRead | arguments.go:159-261 | `k1=v1&k2=v2…` up to the end of input yields the map that stores the pairs left to right, later keys winning, with trimmed values, and a bare key storing "" |
| Arguments.AdvPairsReadPipes | arguments.go:222-227 | the same pair list followed by `\|\|` yields the same map, and the cursor stops just after `\|\|` |
| Arguments.AdvPipeInValue | arguments.go:222-227 | a single `\|` inside a value is kept as value text |
| Arguments.AdvEmptyKeyDropped | arguments.go:167-174 | a leading `=v&` with an empty key stores nothing, so `?=v&k=w` gives exactly the map of the later pairs |
| Arguments.AdvRawLossless | arguments.go:159-261 | a fallback hands back exactly the input text it consumed |
| Arguments.AdvInvalidFirst | arguments.go:251-252 | a first rune that is not a name character, `&`, `=` or `\|` falls back with just that rune |
| Arguments.AdvPipesStep | arguments.go:222-227 | `\|\|` ends the list, stores the pending pair and consumes both pipes |
| Arguments.ParseInputMacroArg | arguments.go:82-157 | never a fallback; errors are argument errors or `ErrUnmatchedInputMacroExt` |
| Arguments.MacroItemsRead | arguments.go:82-157 | a run of plain runes, `\x` escapes and `{name}` extensions yields one argument per item, in order: a rune, the escaped rune, or `{name}` |
| Arguments.MacroTrailingEscape | arguments.go:98-100 | a final `\` at the end of input is kept as the argument `\` |
| Arguments.MacroUnmatchedExt | arguments.go:121-122 | `{` with no closing `}` fails with `ErrUnmatchedInputMacroExt` |
| Arguments.MacroExtReads | arguments.go:114-133 | an extension is read verbatim up to and including `}` |
| Arguments.MacroAdvFallback | arguments.go:134-142 | when advanced args fall back, `?` and the fallback text become one single-rune argument each |
| Arguments.ParseArgs | arguments.go:263-364 | never a fallback; any failure is an argument error; unless only advanced args are read, the result has at least one argument |
| Arguments.ArgsProgress | arguments.go:263-364 | a successful scan that did not start at EOF consumes input |
| Arguments.PlainArgsRead | arguments.go:263-364 | plain argument text yields its comma-split, trimmed pieces (one trimmed piece in one-arg mode), dropping only an empty final piece when the command had only advanced args |
| Arguments.PiecesSep | arguments.go:318-324 | a comma ends one trimmed argument and starts the next |
| Arguments.ArgsWithAdvRead | arguments.go:325-340 | plain arguments followed by `?pairs` yield those pieces and the pair map |
| Arguments.ArgsQuestionKept | arguments.go:328-332 | `?` before a rune that cannot start a pair stays in the argument text together with that rune |
| Arguments.ArgsAdvFallbackStep | arguments.go:328-332 | when advanced args fall back, `?` and the fallback text are appended to the current argument |
| Arguments.QuotedArgRead | arguments.go:283-289 | a whole quoted argument yields its trimmed contents as the only argument |
| Parser.AdvOf | parser.go:163-169 | the wrapped map has exactly the given entries, and its raw map is nil iff the map is empty |
| Parser.ParseMediaTitle | parser.go:24-104 | never a fallback; errors are argument errors; the content is trimmed; a valid title contains `/` |
| Parser.TitleShapeSplit | parser.go:85-103 | a title is valid iff, at its first `/`, the text on both sides is non-blank |
| Parser.TitleShapeNeedsSep | parser.go:86-91 | text without `/` is never a valid title |
| Parser.TitleReadsPlain | parser.go:24-104 | plain title text up to EOF yields its trimmed content, no advanced args, and its shape verdict |
| Parser.TitleWithAdv | parser.go:63-77 | title text followed by `?pairs` yields the trimmed title and the pair map |
| Parser.TitleAtChainEnd | parser.go:55-61 | title text followed by `\|\|` stops just after the pipes |
| Parser.ParseCommand | parser.go:106-185 | errors are argument errors, macro-extension errors or `ErrEmptyCmdName`; a fallback hands back non-empty text |
| Parser.CommandNamesLower | parser.go:172-182 | every parsed command name is non-empty, made of name characters, and contains no upper-case ASCII letter |
| Parser.CmdAtEnd | parser.go:106-185 | a bare command name at EOF yields that name lower-cased, with no args |
| Parser.CmdBeforePipes | parser.go:119-126 | a command name followed by `\|\|` yields the command, and the cursor is after the pipes |
| Parser.CmdWithoutArgs | parser.go:106-185 | the two cases above together |
| Parser.CmdWithArgs | parser.go:131-171 | after `name:`, the args come from the macro scanner for macro commands and from ParseArgs otherwise; the command carries them, and a scanner failure is the command's failure |
| Parser.CmdWithAdvArgs | parser.go:137-171 | after `name?`, the advanced args are read in adv-only mode, and the command carries their map |
| Parser.CmdInvalidName | parser.go:172-174 | a rune that cannot continue a name falls back with the name and that rune |
| Parser.CmdEmptyName | parser.go:178-180 | `:`, `?` or EOF where a name should start fails with `ErrEmptyCmdName` |
| Parser.ScriptStep | parser.go:210-300 | a step that continues consumes input and only extends the command list; a successful finish returns the non-empty list |
| Parser.AutoLaunch | parser.go:194-208 | an auto launch appends exactly one `launch` command and consumes input unless at EOF |
| Parser.ParseScript | parser.go:187-309 | every successful parse has at least one command |
| ScriptRuns.ScriptBlank | parser.go:304-306 | a blank script fails with `ErrEmptyZapScript` |
| ScriptRuns.ScriptJSON | parser.go:221-223 | a script that starts with `{` fails with `ErrInvalidJSON` |
| ScriptRuns.ScriptStarAtEnd | parser.go:260-261 | a lone `*` at the end fails with `ErrUnexpectedEOF` |
| ScriptRuns.ScriptSkipsBlanks | parser.go:219-220 | whitespace between commands is skipped |
| ScriptRuns.ParseLeadingBlanks | parser.go:219-220 | leading whitespace does not change the parse |
| ScriptRuns.ParseAutoLaunch | parser.go:194-208 | plain text is one `launch` command whose argument is the trimmed text |
| ScriptRuns.ScriptCmdAlone | parser.go:253-288 | `**name` adds that command, lower-cased, with no args, and ends the script |
| ScriptRuns.ScriptCmdChain | parser.go:253-288 | `**name\|\|rest` adds the command and goes on with the rest |
| ScriptRuns.ScriptCmdPlainArgs | parser.go:253-288 | `**name:args` adds the command with the comma-split, trimmed args |
| ScriptRuns.ScriptCmdNotAName | parser.go:276-281 | `**` followed by an invalid name becomes a `launch` of the whole trimmed text |
| ScriptRuns.ScriptStarLaunch | parser.go:266-271 | a single `*` not followed by `*` starts an auto launch of the whole text |
| ScriptRuns.ScriptTitle | parser.go:224-252 | `@System/Title` becomes a `launch.title` command with the trimmed title |
| ScriptRuns.ScriptTitleNotShaped | parser.go:231-237 | `@` text that is not a valid title becomes a `launch` of `@` plus the trimmed text |
| ScriptRuns.ScriptTitleAdv | parser.go:224-252 | a valid title keeps its advanced args |
| ScriptRuns.ScriptTitleAdvDropped | parser.go:231-237 | an invalid title falls back to launch text and drops its advanced args |
| ScriptRuns.ScriptTitleChain | parser.go:224-252 | a valid title followed by `\|\|` is one command, and parsing goes on after the pipes |
| ScriptRuns.ScriptTitleAbsorbs | parser.go:194-237 | an invalid title followed by `\|\|` takes the rest of the script into the launch text |
| ScriptRuns.ParseTwoCommands | parser.go:187-309 | `**a\|\|**b` parses to the two commands in order |
| Traits.InferType | traits.go:525-552 | a quoted value is always a string; inference never yields an array |
| Traits.InferTypeSpec | traits.go:525-552 | unquoted: `true`/`false` give a bool; a valid int64 gives an int; text the float parser accepts gives a float; anything else is the string itself; each "iff" holds in both directions |
| Traits.InferTypeRoundTrip | traits.go:525-552 | the decimal form of any int64 infers back to that int, and `true`/`false` to that bool |
| Traits.ConsumeToEndOfCmd | traits.go:298-320 | the consumed text is a verbatim slice of the input from the cursor |
| Traits.ParseTraitValue | traits.go:185-295 | errors are only unmatched quote or bracket; a quoted value is a string; an unquoted value always succeeds and is never an array |
| Traits.ParseTraitArray | traits.go:324-422 | a successful array read consumes input and yields an array |
| Traits.ParseTraitArrayFlat | traits.go:425-522 | array elements are never arrays themselves |
| Traits.ParseTraitsSyntax | traits.go:33-181 | errors are only unmatched quote or unmatched array bracket |
| Traits.ParseTraitsSyntaxShaped | traits.go:33-181 | every stored key is a lower-case trait key; an invalid-key result carries fallback text longer than `#` |
| TraitRuns.UnquotedRun | traits.go:254-292 | unquoted text is read up to the first stop rune (EOF, whitespace, `\|` or `#`, or `,`/`]` in an array) |
| TraitRuns.QuotedRun | traits.go:208-244 | a quoted value is read verbatim up to its closing quote |
| TraitRuns.QuotedUnclosed | traits.go:197-246 | a quote with no closing quote fails with `ErrUnmatchedQuote` |
| TraitRuns.QuotedEscape | traits.go:218-236 | `^x` in a quoted value adds the decoded escape to the value and both runes to the raw text |
| TraitRuns.ConsumeChain | traits.go:298-320 | consumption stops before `\|\|` and steps over it |
| TraitRuns.ConsumeEndAt | traits.go:298-320 | without `\|\|`, everything up to EOF is consumed |
| TraitRuns.ValuePlain | traits.go:254-294 | an unquoted value yields its inferred type and its raw text |
| TraitRuns.ValueQuoted | traits.go:197-246 | a quoted value yields a string of its contents |
| TraitRuns.ValueArray | traits.go:249-251 | `[e1,e2,…]` yields an array of the trimmed, type-inferred elements |
| TraitRuns.ArrayRun | traits.go:324-422 | an array body is read element by element up to `]` |
| TraitRuns.EntryFlag | traits.go:110-111 | a key followed by EOF, `\|`, `#` or whitespace is stored as `true` |
| TraitRuns.EntryInvalid | traits.go:112-122 | any other rune after a key abandons trait parsing and returns the segment as fallback text |
| TraitRuns.AfterChain | traits.go:128-177 | `\|\|` after a trait ends the traits and steps over the pipes |
| TraitRuns.AfterNext | traits.go:128-177 | whitespace then `#` starts the next trait |
| TraitRuns.AfterOther | traits.go:128-177 | any other rune ends the traits without consuming it |
| TraitRuns.TraitsBadStart | traits.go:53-64 | a key that does not start with an ASCII letter makes the whole segment fallback text |
| TraitSyntax.TraitsFlag | traits.go:110-111 | `#name` alone stores the lower-cased name as `true` |
| TraitSyntax.TraitsFlagChain | traits.go:110-111 | `#name\|\|…` stores the flag and stops after the pipes |
| TraitSyntax.TraitsValue | traits.go:95-109 | `#name=value` stores the inferred value under the lower-cased name |
| TraitSyntax.TraitsTwo | traits.go:128-177 | two space-separated traits both land in the map |
| TraitSyntax.TraitsLastWins | traits.go:125 | a repeated key (case-insensitively) keeps the later value |
| TraitSyntax.TraitsQuoted | traits.go:197-246 | a quoted value is stored as a string |
| TraitSyntax.TraitsUnclosed | traits.go:197-246 | an unclosed quote fails with `ErrUnmatchedQuote` |
| TraitSyntax.TraitsArray | traits.go:249-251 | an array value is stored as an array of typed elements |
| TraitSyntax.TraitsArrayOpen | traits.go:358-359 | an array that never closes fails with the unmatched-bracket error |
| TraitSyntax.TraitsBadKeyStart | traits.go:53-64 | a non-letter first rune returns the segment as fallback, with the invalid-key flag set |
| TraitSyntax.TraitsBadAfterKey | traits.go:112-122 | an invalid rune after a key returns the segment as fallback, and the key is reported |
| TagFilters.NormalizeTag | tagfilter.go:33-54 | a normalised tag contains only `a-z`, `0-9`, `:`, `,`, `+` and `-` |
| TagFilters.NormalizeTagIdempotent | tagfilter.go:33-54 | normalising twice equals normalising once |
| TagFilters.ColonSpacingTight | tagfilter.go:38 | after colon spacing, no whitespace is next to a colon |
| TagFilters.ColonSpacingKeepsText | tagfilter.go:38 | colon spacing removes only whitespace, and keeps every other rune in order |
| TagFilters.NormalizeNoColon | tagfilter.go:33-54 | normalisation adds no colon |
| TagFilters.NormalizeNoComma | tagfilter.go:33-54 | normalisation adds no comma |
| TagFilters.ToLowerTagAt | tagfilter.go:41 | lower-casing works rune by rune |
| TagFilters.ParseTagShape | tagfilter.go:82-117 | a piece is skipped iff it is blank; a non-blank piece with no `:` after its operator is a format error; errors name the original piece |
| TagFilters.SplitOperatorPrefix | tagfilter.go:88-99 | `+`, `-` and `~` select AND, NOT and OR and are removed; with no prefix, the operator is AND |
| TagFilters.ParseTagOf | tagfilter.go:101-123 | `op type:value` yields the normalised type and value with that operator |
| TagFilters.ParseTagFilters | tagfilter.go:65-137 | a successful result has no duplicates |
| TagFilters.ParseTagFiltersSpec | tagfilter.go:65-137 | for non-empty input: success iff no comma piece is malformed; a success is the accepted filters, deduplicated, in order; a failure is the error of the first malformed piece |
| TagFilters.ParseTagFiltersLoop | tagfilter.go:65-137 | the loop with its seen-set equals the functional definition |
| TagFilters.ParseTagFiltersWellFormed | tagfilter.go:101-123 | every returned filter has a non-empty normalised type and value with no `:` in the type and no `,` in either |
| TagFilters.BlankListEmpty | tagfilter.go:66-85 | an empty input, or one whose comma pieces are all blank, yields no filters |
| TagFilters.FirstErrorWins | tagfilter.go:103-117 | the first malformed piece decides the error, whatever follows it |
| TagFilters.DedupOrder | tagfilter.go:125-134 | deduplication keeps first occurrences in their original order |
| TagFilters.DedupNoDup | tagfilter.go:125-134 | a list with no duplicates is unchanged |
| TagFilters.DedupSameMembers | tagfilter.go:125-134 | deduplication keeps exactly the same set of filters |
| TagFilters.FormatParseRoundTrip | tagfilter.go:65-137 | formatting well-formed filters as `op type:value,…` and parsing gives them back, deduplicated |
| TagFilters.FormatParseExact | tagfilter.go:65-137 | for a list with no duplicates, that round trip is exact |

## Left out

- ParseJSONArg: JSON validation and compaction (`json.Unmarshal` then `json.Marshal`) is the `canon` parameter. The model decides only which text reaches the codec and what happens when it rejects that text.
- EvalExpressions: the expression engine is the `eval` parameter, and its environment is not modelled. An engine error becomes the bare error kind `EvalFailed`, not the `fmt.Errorf` wrap of expressions.go:238-240. The `%v (%T)` detail of expressions.go:251 is dropped too.
- ExprValue: `VInt` holds an unbounded integer where Go's `int` is 64 bits wide, and `VFloat` carries the rendered text instead of a float64 (floating point is out of scope).
- InferType: `strconv.ParseFloat` is the `floatOk` parameter, and `TFloat` keeps the accepted text rather than a float64.
- ParseTraitValue: the same `floatOk` abstraction applies, through InferType.
- ParseScript: error positions are dropped. parser.go:190-192 wraps every error as "parse error at %d: %w"; the model returns only the error kind.
- Error messages in general: `fmt.Errorf` wrapping is reduced to the error kind the source wraps, throughout.
- Reader: the input is a sequence of already-decoded runes. UTF-8 decoding, peek's U+FFFD rune-error check (reader.go:157-158), and the I/O errors of the underlying `bufio.Reader` are not modelled.
- Script: the record has no `Traits` field (reader.go:98). Nothing in the parser modelled here fills it in: `parseTraitsSyntax` is modelled as a standalone scanner that starts after `#`.
- Range: Go's map iteration order is unspecified, so it is the `order` parameter (any duplicate-free listing of the keys).
- MarshalJSON, UnmarshalJSON and Raw of AdvArgs (reader.go:69-89) are not modelled: they only delegate to the JSON library.
- LowerRune: implements ASCII plus U+0130 and U+212A only (the runes `unicode.ToLower` sends into `a-z`), not all of Unicode lower-casing. Every other rune is unchanged, and the next normalisation step deletes any rune outside `a-z0-9:,+-` anyway.
- ParseTagFiltersLoop: each piece is parsed before the loop rather than inside it. Parsing a piece has no effect besides its outcome, so the order of outcomes is the same. The `seenFilters` map is a set.
- ActionsOnAscii: the lower-casing form of the iff is stated for ASCII input only. For other input, the predicates use Go's simple case folding against the ASCII word; there, only the long s (U+017F) and the Kelvin sign (U+212A) fold onto ASCII letters, and ActionExamples covers them.
- The `*_test.go` files are not part of this model, except as a guide to which behaviours the reference lemmas pin down.
- Reference lemmas (ScriptRuns, TraitRuns, TraitSyntax and the `*Read` lemmas) cover named input families: plain text, pair lists, name shapes. They do not cover every possible interleaving of quotes, JSON, escapes and expressions in one input; the scanners' own contracts hold for all inputs.
