# confu tokenizer, modelled in Dafny

confu turns a free-form configuration text into the argument list that Go's
`flag.FlagSet` expects. The text is written in command-line syntax and may
span several lines. `Tokenize` works in three steps:

1. `sanitizeLines` reads the text line by line and joins the lines with single spaces.
2. The line is split on the space character.
3. A loop glues back together the fragments of a value quoted with `"`, `'` or a back quote.

Each finished token goes through `appendIt`. That calls `TrimQuote`, which
trims white space and strips surrounding markers, and drops the token if it
comes out empty.

The model has five modules:

- `Strings` (strings.dfy): the part of Go's `strings` and `unicode` packages
  that the tokenizer calls. This covers `TrimSpace`, `HasPrefix`/`HasSuffix`,
  `Split` and `Join` on one-character separators, and `unicode.IsSpace`.
- `Confu` (confu.dfy): confu.go itself.
  - The marker constants.
  - `enteringHelper`/`entering` and `exitingHelper`/`exiting` as functions.
  - `TrimQuote` as a method with its loop, proved against the function `Unquoted`.
  - `appendIt` as a function.
  - `bufio.Reader.ReadLine` as the function `ReadLine`.
  - `sanitizeLines` as a method with its loop, proved against `Lines`.
  - `Tokenize` as a method whose loop is proved against `Run`. `Run` is a
    fold of one loop turn, `Step`, over the variables `result`, `buffer` and
    `weAreInQ`.
  - `Scan`, an independent group-by-group definition of the tokens.
    `RunIsScan` proves that the loop computes exactly `Scan`.
- `ConfuProperties` (properties.dfy): what the tokenizer promises.
  - The shape of `TrimQuote`'s result.
  - When a fragment opens or closes a quote.
  - How quoted values become one token.
  - What an unclosed quote does.
  - How line breaks are treated.
  - What plain input gives.
- `ConfuExamples` (examples.dfy) and `QuoteExamples` (quotes.dfy): the inputs
  of the package's tests and of `Tokenize`'s documentation, with the tokens
  they give.
  - The tests build their input with `fmt.Sprintf`, so each example is
    stated for every value of the kind the test substitutes. It is then
    instantiated with the test's own values where that is cheap.
  - The quoted tests are stated over the arguments joined by single spaces.

Where the code and its description differ, the model follows the code:

- `TrimQuote` strips one pair of each marker kind, in the order `"`, `'`,
  back quote. It can therefore strip up to three nested layers
  (`"'x'"` becomes `x`), and it is not idempotent.
- `sanitizeLines` breaks lines only at a line feed, dropping one carriage
  return in front of it. This is what `bufio.Reader.ReadLine` does. A lone
  carriage return is not a line break, and a last line without a line feed
  keeps a trailing carriage return.

## Model

| member | source | states |
|---|---|---|
| Strings.TrimPrefix | confu.go:117 | the prefix is removed exactly when the text starts with it, and what is left after it is returned; otherwise the text is unchanged |
| Strings.TrimSuffix | confu.go:118 | the suffix is removed exactly when the text ends with it, and what is left before it is returned; otherwise the text is unchanged |
| Strings.AffixesOfConcat | confu.go:116-118 | HasPrefix and HasSuffix hold for a text put after a prefix or before a suffix, and TrimPrefix and TrimSuffix then give that text back |
| Strings.LeadingSpaces | confu.go:111 | the count of white-space characters (unicode.IsSpace) a text starts with: all counted ones are white space, the next one is not |
| Strings.TrailingSpaces | confu.go:111 | the count of white-space characters a text ends with: all counted ones are white space, the one before them is not |
| Strings.TrimSpace | confu.go:111 | the result is no longer than the text and neither starts nor ends with white space |
| Strings.TrimSpaceIsSlice | confu.go:111 | strings.TrimSpace returns a contiguous run of its input, with only white space before and after it |
| Strings.TrimSpaceSkipsLeadingSpace | confu.go:111 | a white-space character in front changes nothing |
| Strings.TrimSpaceOfTrimmed | confu.go:111 | text that neither starts nor ends with white space is returned unchanged |
| Strings.IndexOf | confu.go:87 | the position of the first occurrence of a character, or the length when there is none |
| Strings.JoinSnoc | confu.go:94 | strings.Join of one more element adds the separator and that element at the end |
| Strings.JoinAppend | confu.go:94 | strings.Join of two non-empty lists one after the other is the two joined texts with the separator between |
| Strings.JoinStarts | confu.go:56-70 | a joined text starts with the first element's first character; JoinedWords uses it for the quote buffer that lines 56, 61 and 70 build, which BufferGroup shows is the group's fragments joined with spaces |
| Strings.JoinEnds | confu.go:56-70 | a joined text ends with the last element's last character; JoinedWords uses it for that same quote buffer |
| Strings.JoinWrapped | confu.go:56-61 | text put before the first element and after the last one ends up at the two ends of the joined text |
| Strings.JoinAvoids | confu.go:94 | a character in neither the separator nor any element is not in the joined text |
| Strings.JoinKeeps | confu.go:94 | a character of any element is in the joined text |
| Strings.Split | confu.go:50 | strings.Split with a one-character separator gives at least one piece, none holding the separator, and the pieces joined with the separator give the text back |
| Strings.SplitWithoutSeparator | confu.go:50 | a text without the separator is one piece |
| Strings.SplitAtFirstSeparator | confu.go:50 | the text before the first separator is the first piece, and the rest is split on |
| Strings.SplitJoin | confu.go:50 | splitting separator-free pieces joined with the separator gives the pieces back |
| Strings.SplitAvoids | confu.go:50 | a character not in the text is in none of its pieces |
| Confu.EnteringHelper | confu.go:137-141 | a fragment that opens q does not end with q, holds q and starts with q or a dash; starting with q and not ending with it always opens |
| Confu.Entering | confu.go:143-154 | the quote opened is one of the three markers, and that marker's helper holds |
| Confu.EnteringPicksFirst | confu.go:143-154 | no quote is opened exactly when no marker's helper holds; when one is, no earlier marker in the order `"`, `'`, back quote would open |
| Confu.ExitingHelper | confu.go:125-128 | a fragment closes q exactly when it is non-empty, ends with q and does not start with q |
| Confu.Exiting | confu.go:130-135 | only an open quote can be closed, and then exactly as exitingHelper says |
| Confu.StripMarker | confu.go:115-119 | one loop turn removes one q from each end of a text wrapped in q, turns a lone q into the empty string, and leaves any other text unchanged |
| Confu.StripMarkers | confu.go:115-120 | the loop's turns for a list of markers, one after the other, never lengthen the text |
| Confu.Unquoted | confu.go:110-123 | TrimQuote's result: the trimmed text with the three turns applied, never longer than the input (its exact shape is in the StripMarkersInOrder, UnquotedIsSlice and Unquoted* rows) |
| Confu.TrimQuote | confu.go:110-123 | the loop over the three markers returns Unquoted(s), never longer than s |
| Confu.AppendIt | confu.go:97-105 | the list grows by one element exactly when the unquoted text is non-empty, and that element is the unquoted text; earlier elements are kept |
| Confu.ReadLine | confu.go:87 | reading stops only at the end of the input; a line consumes at least one character and holds no line feed |
| Confu.ReadLineEndsAtLineFeed | confu.go:87 | a line ends at the first line feed and loses one carriage return before it; a last line without a line feed is the whole rest |
| Confu.Lines | confu.go:85-92 | no line holds a line feed; there are no more lines than characters |
| Confu.SanitizedHasNoLineFeed | confu.go:81-95 | the joined lines hold no line feed |
| Confu.SanitizeLines | confu.go:81-95 | the loop returns the lines ReadLine yields joined with single spaces, and the result has no line feed |
| Confu.Fragments | confu.go:44-50 | the pieces of the sanitized text: at least one, joined with single spaces they give that text back, and none holds a space or a line feed |
| Confu.Step | confu.go:53-75 | one loop turn emits at most one token, keeps the ones already emitted and keeps the loop invariant (no buffer outside a quote, a buffer starting with a space inside one, no empty token); StepEmits, StepOpens, StepCloses and StepContinues state its four branches, lines 74-75, 54-57, 60-66 and 69-72 |
| Confu.Run | confu.go:52-76 | the loop over any fragments never takes back an emitted token and keeps the loop invariant |
| Confu.FirstExit | confu.go:60 | the index of the first fragment that closes q: no fragment before it closes q |
| Confu.GroupLength | confu.go:52-76 | a fragment that opens no quote is a group of one; a quote spans at least two fragments and ends with one that closes it |
| Confu.Scan | confu.go:52-76 | every token is non-empty, and there are no more tokens than fragments; ScanEmits and ScanGroups unfold it for a leading fragment that opens no quote (at most one token, what appendIt keeps of it; ScanSingle says the same) and for a leading quote closed later (the joined group, through appendIt) |
| Confu.Tokens | confu.go:43-79 | Tokenize never returns an empty token |
| Confu.RunInQuote | confu.go:60-72 | inside a quote, fragments accumulate up to the first closing one, and their joined text is emitted as one token |
| Confu.RunInOpenQuote | confu.go:69-78 | a quote that is never closed swallows the rest of the input: nothing more is emitted |
| Confu.RunIsScan | confu.go:52-76 | the loop, started outside a quote with an empty buffer, emits exactly the tokens of the group-by-group reading |
| Confu.AppendItLeadingSpace | confu.go:56 | the space that starts a quote buffer never reaches the token |
| Confu.Tokenize | confu.go:43-79 | the method returns Tokens(s): the group-by-group reading of the fragments of the sanitized text; no token is empty |
| ConfuProperties.StripMarkersInOrder | confu.go:113-120 | the loop is one turn for `"`, then one for `'`, then one for the back quote |
| ConfuProperties.StripMarkerIsSlice | confu.go:116-119 | one turn keeps a contiguous run of its input |
| ConfuProperties.StripMarkersIsSlice | confu.go:113-120 | any number of turns keep a contiguous run of the text they start from |
| ConfuProperties.UnquotedIsSlice | confu.go:110-123 | TrimQuote returns a contiguous run of its input |
| ConfuProperties.UnquotedLoneMarker | confu.go:110-123 | a lone marker, with or without white space around it, comes out empty, so appendIt drops it |
| ConfuProperties.UnquotedOfPlain | confu.go:110-123 | text without markers is only trimmed |
| ConfuProperties.StripPair | confu.go:116-119 | the turn for q removes exactly the q at each end of a text wrapped in q |
| ConfuProperties.UnquotedQuoted | confu.go:110-123 | one pair of any marker around trimmed, marker-free text is removed and nothing else |
| ConfuProperties.UnquotedKeepsInnerQuotes | confu.go:110-123 | trimmed text that does not start with a marker is returned unchanged, markers inside included, as for --comment="done" |
| ConfuProperties.OpensIff | confu.go:137-141 | a fragment opens q exactly when it does not end with q and either starts with q or starts with a dash and holds q |
| ConfuProperties.SelfQuotedNeverOpens | confu.go:137-154 | a fragment that starts and ends with the same marker opens no quote |
| ConfuProperties.SelfQuotedOutsideQuote | confu.go:54-75 | outside a quote such a fragment is emitted on its own, through appendIt |
| ConfuProperties.SelfQuotedInsideQuote | confu.go:60-72 | inside a quote such a fragment is added to the buffer and closes nothing |
| ConfuProperties.StepInQuote | confu.go:60-72 | inside a quote, a fragment closes it exactly when it ends with the open marker and does not start with it; the two outcomes are the emitted buffer and the extended buffer |
| ConfuProperties.OtherMarkerDoesNotClose | confu.go:60-72 | a fragment ending with another marker leaves the quote open |
| ConfuProperties.StepOutsideQuote | confu.go:53-75 | outside a quote, the new state records what entering says, with a buffer of a space and the fragment, or emits the fragment |
| ConfuProperties.OpensQuotedGroup | confu.go:137-154 | a marker followed by a word, after nothing or after a marker-free option, opens a quote with that marker |
| ConfuProperties.FirstExitIs | confu.go:60 | the first fragment that closes q is the one that closes it with none before it doing so |
| ConfuProperties.QuotedGroupCloses | confu.go:60 | the last word of a quoted value, with the marker after it, is the first fragment that closes the quote |
| ConfuProperties.JoinedWords | confu.go:56 | words joined with single spaces keep the first word's start and the last word's end, and gain no marker |
| ConfuProperties.ValueUnquoted | confu.go:97-123 | the joined fragments of a quoted value unquote to the words joined with spaces, with the option and markers kept when the marker follows an option |
| ConfuProperties.ScanQuotedValue | confu.go:52-76 | a quoted value of several words is exactly one token, and reading goes on after it |
| ConfuProperties.ScanDropsOpenQuote | confu.go:69-78 | a quote opened by the first fragment and never closed yields no token at all |
| ConfuProperties.IndexOfAfter | confu.go:87 | the search for a line feed skips a prefix that holds none |
| ConfuProperties.SanitizeOneLine | confu.go:81-95 | input without a line feed is one line, and sanitizing leaves it unchanged |
| ConfuProperties.ReadFirstLine | confu.go:87 | a line ending in a line feed, or a carriage return and line feed, is read without its terminator |
| ConfuProperties.LinesOfJoin | confu.go:81-95 | lines joined with `\n` or `\r\n` are read back as the same lines, provided no line holds a line feed, the last line is not empty, and with a bare `\n` no line before the last ends in `\r` |
| ConfuProperties.LinesOfTerminated | confu.go:85-92 | a line ending in a line feed, or a carriage return and line feed, is the first line read, and reading goes on right after its break |
| ConfuProperties.LinesOfLineText | confu.go:81-95 | lines each followed by its own line feed or carriage return and line feed, in any mix, are read back as those lines, whatever follows them |
| ConfuProperties.MultiLineAsOneLine | confu.go:42-50 | input of terminated lines in any mix of `\n` and `\r\n`, optionally followed by an unterminated last line, gives the fragments and tokens of its lines joined with single spaces; a break that ends the input adds no space, so `a\n` reads as `a` and not as `a ` |
| ConfuProperties.TrailingLineBreak | confu.go:81-95 | a line break at the end of one-line input does not change the tokens |
| ConfuProperties.PlainOpensNothing | confu.go:137-154 | a fragment without a marker opens no quote |
| ConfuProperties.ScanPlain | confu.go:52-76 | without markers every fragment is its own token, trimmed, and empty ones are dropped |
| ConfuProperties.TokensOfJoin | confu.go:43-79 | one-line input made of fragments joined with single spaces is tokenized as the group-by-group reading of those fragments |
| ConfuProperties.SplitKeepsPlain | confu.go:50 | the fragments of a text without markers have none |
| ConfuProperties.PlainTokens | confu.go:43-79 | one-line input without markers gives the trimmed, non-empty pieces between the spaces, in order |
| ConfuExamples.WordsOfWords | confu_test.go:15-42 | plain words are kept by trimming |
| ConfuExamples.PlainWords | confu_test.go:15-42 | plain words joined with single spaces come back as they were |
| ConfuExamples.Common | confu_test.go:15-42 | `--bool -s %v --int %v` gives five tokens for any two plain values |
| ConfuExamples.CommonTest | confu_test.go:18-21 | `--bool -s txt --int 10` gives `--bool`, `-s`, `txt`, `--int`, `10` |
| ConfuExamples.TrimIndent | confu_test.go:52-54 | indentation in front of a word is trimmed away |
| ConfuExamples.ParamLinesShape | confu_test.go:52-54 | the three lines of TestParam's input hold no line feed and do not end with a carriage return |
| ConfuExamples.ParamFragmentsShape | confu_test.go:52-54 | the fragments of TestParam's input hold no space, no line feed and no marker |
| ConfuExamples.ParamWords | confu_test.go:52-54 | trimming the fragments of TestParam's input removes the tab indentation |
| ConfuExamples.Param | confu_test.go:44-88 | the three-line, tab-indented input of TestParam gives `--bool`, `-strarg`, the string, `--intarg`, the number, `-strparam=` with its value and `-intparam=` with its value |
| ConfuExamples.PlainToken | confu.go:97-105 | a plain word given to appendIt with no tokens yet becomes the only token, unchanged |
| ConfuExamples.ScanPlainWord | confu.go:17 | a plain word is a token of its own |
| ConfuExamples.ScanEmptyFragment | confu.go:17 | the empty fragment left by two spaces in a row yields nothing |
| ConfuExamples.ScanSelfQuoted | confu.go:17 | a value wrapped in one marker, as '/some/path', is one token without its markers |
| ConfuExamples.AttachedQuotesOpenNothing | confu.go:17 | an option with a quoted word attached, as --comment="done", opens no quote |
| ConfuExamples.ScanAttachedQuotes | confu.go:17 | such an option is one token that keeps its markers |
| ConfuExamples.DocScan | confu.go:17-18 | the fragments of the documented input give the tag, the comment option with its quoted value, the port option, the path option and the bare path |
| ConfuExamples.Doc | confu.go:17-18 | the documented input, with its words as parameters, gives those five tokens |
| ConfuExamples.DocExample | confu.go:17-18 | `--tag --comment="done" --port=8081  --path '/some/path'` gives `--tag`, `--comment="done"`, `--port=8081`, `--path`, `/some/path` |
| QuoteExamples.ScanOptionQuoted | confu_test.go:97 | an option followed by a separately quoted value gives the option and the value without markers |
| QuoteExamples.ScanAssignedQuoted | confu_test.go:97 | an option with a quoted value attached by `=` is one token that keeps its markers |
| QuoteExamples.QuotesScan | confu_test.go:97-106 | the fragments of TestQuotes' input give nine tokens |
| QuoteExamples.QuotesInput | confu_test.go:97-103 | the fragments of TestQuotes' input joined with single spaces equal its arguments joined with single spaces, so the input text is the join of those fragments |
| QuoteExamples.Quotes | confu_test.go:90-136 | TestQuotes' input gives each option followed by its value, unquoted when separate and with its markers when attached |
| QuoteExamples.QuoteValue | confu_test.go:130-135 | TrimQuote of a quoted test value and of the token read for it agree: both are the words joined with single spaces |
| QuoteExamples.QuotesTest | confu_test.go:90-136 | TestQuotes with `VAL FOR 1`, `VAL FOR 2` and `VAL FOR 3` |
| QuoteExamples.QuotesUnicodeTest | confu_test.go:138-184 | TestQuotesWithUnicode with its Persian values |

## Left out

- `bufio.Reader` reads in 4096-byte chunks and reports `isPrefix` for longer lines. Lines are modelled as if the buffer were unbounded; for a line over 4096 bytes, sanitizeLines would insert a space at each chunk boundary, and that is not modelled.
- The errors that `ReadLine` reports are reduced to the end of the input. A `strings.Reader` returns no others.
- The text is modelled as a sequence of Unicode scalar values. Go strings are bytes, so invalid UTF-8 is not modelled.
- `strings.Contains` and `strings.Split` are modelled only for the one-character needles and separators the tokenizer passes them.
- The `flag.FlagSet` parsing, the struct binding and the logging in the tests and in the documentation are outside the tokenizer. The examples state only the token list that would be handed to `Parse`.
- `fmt.Sprintf` in the tests is replaced by the values it substitutes. The integer arguments become their decimal text.
- ConfuExamples.Param: states TestParam for every plain value and is not instantiated with `VAL-1`, `10`, `VAL-2` and `11`. The concrete text takes a literal comparison of the whole input that is too costly to prove.
- QuoteExamples.Quotes: states the quoted tests over the arguments joined by single spaces, not over the `fmt.Sprintf` text of the test.
- ConfuExamples.DocExample: states the documented input as its fragments joined by single spaces, not as the literal text.
- `ExampleTokenize` in confu_test.go repeats TestCommon's input and is covered by ConfuExamples.CommonTest.
