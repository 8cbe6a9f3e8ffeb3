# Markdown code blocks and tables: a Dafny model

The chat's markdown renderer holds two components with logic of their own.
Everything else in them is presentation.

**Code block** (`code-block.tsx`):
- The header shows a label for the block's language. It is taken from a fixed table of 21 names. A missing language is "Plain". Any other name has its first letter upper-cased.
- The language comes from the class name, as the word after `language-`.
- SQL blocks are collapsed to their first five lines plus `\n...` until the reader expands them.
- An `echarts` block is a streaming chart-option classifier. The block's text arrives piece by piece while the answer streams. Each time it changes, the effect does four things:
  - records the new text, without one trailing line feed;
  - trims it;
  - decides, from prefixes, suffixes and character counts alone, whether the text looks complete or unfinished;
  - when the epoch is still open, tries the strict JSON parser and then lenient evaluation.

  A structured (object or array) result shows the chart. Two throws show an error. A primitive result decides nothing. Once an epoch is decided (`processedRef`), the state is frozen. It stays frozen until the recorded content is empty, which starts a new epoch.

**Table** (`table.tsx`):
- A cell's plain text is found by recursion over the cell's node tree.
- Body rows are keyed `row-<index>`.
- Rows are shown ten to a page. A page change is accepted only for a page that exists. The pager is shown only for more than one page, and its buttons are disabled on the first and last page.
- The export is a two-dimensional array: the header texts, then one row of texts per body row, with a column width of 20 per header cell.
- The status column (index 3) is coloured by its text.

The project has four files:
- `wrappers.dfy`: `Option`.
- `js_string.dfy`: the JavaScript string built-ins the components use, with their defining properties. These are `startsWith`, `endsWith`, `split(c).length`, `join`, `includes`, `trim` with the ECMAScript whitespace set, and decimal formatting of an index.
- `code_block.dfy`: the language label, the language regular expression, the SQL preview and the chart classifier.
  - The classifier is a class, `ChartOptionParser`, holding the component's four pieces of state. Its `Step` method follows the effect statement by statement and is proved equal to the pure transition `Next`.
  - All properties of the classifier are lemmas about `Next` and its fold `Run`.
- `table.dfy`: cell text, row keys, pagination (the `Pager` class holds `currentPage`), the export rows and the status class.

`JSON.parse` and `new Function("return " + t)()` are function parameters of type `string -> Completion`: a parser throws or returns a value. A value is modelled only as far as the classifier tells values apart: structured, `null`, or another primitive. Every property of the classifier therefore holds for all parsers.

## Model

| member | source | states |
|---|---|---|
| JsString.StartsWith | web/app/components/base/markdown-blocks/code-block.tsx:158 | defined as: the text is non-empty and its first character is the given one |
| JsString.EndsWith | web/app/components/base/markdown-blocks/code-block.tsx:158 | defined as: the text is non-empty and its last character is the given one |
| JsString.Count | web/app/components/base/markdown-blocks/code-block.tsx:159 | the number of occurrences of a character is at most the text's length |
| JsString.Split | web/app/components/base/markdown-blocks/code-block.tsx:159 | splitting always yields at least one piece |
| JsString.Join | web/app/components/base/markdown-blocks/code-block.tsx:343 | defined as: the pieces in order with the separator between neighbours; its meaning is fixed by `JoinSplit` and `JoinSplitPrefix` |
| JsString.SplitLength | web/app/components/base/markdown-blocks/code-block.tsx:157-161 | `s.split(c).length` is the number of occurrences of `c` plus one |
| JsString.SplitPiecesAvoidSeparator | web/app/components/base/markdown-blocks/code-block.tsx:343 | no piece of a split contains the separator |
| JsString.JoinSplit | web/app/components/base/markdown-blocks/code-block.tsx:343 | joining the pieces of a split with the separator gives back the text |
| JsString.JoinSplitPrefix | web/app/components/base/markdown-blocks/code-block.tsx:343 | the first `k` pieces rejoined form a prefix of the text with `k - 1` separators, followed in the text by a separator when pieces remain |
| JsString.CountAppend | web/app/components/base/markdown-blocks/code-block.tsx:159 | occurrences in a concatenation add up |
| JsString.CountAbsent | web/app/components/base/markdown-blocks/code-block.tsx:198 | a character that does not occur is counted zero times |
| JsString.Includes | web/app/components/base/markdown-blocks/code-block.tsx:199 | defined by recursion on the text; `IncludesSpec` states its meaning |
| JsString.IncludesSpec | web/app/components/base/markdown-blocks/code-block.tsx:199 | `includes` holds exactly when the pattern occurs at some position |
| JsString.NotIncludedWithout | web/app/components/base/markdown-blocks/code-block.tsx:199 | a pattern containing a character the text lacks does not occur in it |
| JsString.IsWhitespace | web/app/components/base/markdown-blocks/code-block.tsx:154 | defined as: the ECMAScript white-space and line-terminator characters that `trim` removes |
| JsString.Trim | web/app/components/base/markdown-blocks/code-block.tsx:154 | defined as trimming the end and then the start; `TrimSpec`, `TrimEnds` and `TrimEmptyIffWhitespace` state its meaning |
| JsString.TrimStartSpec | web/app/components/base/markdown-blocks/code-block.tsx:154 | the result is a suffix, everything removed is whitespace, and it does not start with whitespace |
| JsString.TrimEndSpec | web/app/components/base/markdown-blocks/code-block.tsx:154 | the result is a prefix, everything removed is whitespace, and it does not end with whitespace |
| JsString.TrimSpec | web/app/components/base/markdown-blocks/code-block.tsx:154 | the trimmed text is a slice of the text between a whitespace-only head and a whitespace-only tail |
| JsString.TrimEnds | web/app/components/base/markdown-blocks/code-block.tsx:154 | a non-empty trimmed text neither starts nor ends with whitespace |
| JsString.TrimEmptyIffWhitespace | web/app/components/base/markdown-blocks/code-block.tsx:154-155 | trimming leaves nothing exactly when the text is whitespace only |
| JsString.Min | web/app/components/base/markdown-blocks/table.tsx:89 | the smaller of two integers, with which `slice` clamps an end past the sequence |
| JsString.DigitChar | web/app/components/base/markdown-blocks/table.tsx:39 | a digit below ten becomes the character of that digit |
| JsString.NatToString | web/app/components/base/markdown-blocks/table.tsx:39 | the decimal text of an index is non-empty and made of digits |
| JsString.DecimalRoundTrip | web/app/components/base/markdown-blocks/table.tsx:39 | reading the decimal text of `n` gives back `n` |
| JsString.NatToStringInjective | web/app/components/base/markdown-blocks/table.tsx:39 | different indices have different decimal texts |
| CodeBlock.UpperCase | web/app/components/base/markdown-blocks/code-block.tsx:49 | a lower-case ASCII letter becomes the matching capital, and any other character is unchanged |
| CodeBlock.LanguageLabel | web/app/components/base/markdown-blocks/code-block.tsx:42-50 | defined as the three cases of the source; `LanguageLabelCases` and `LanguageLabelIsFixedPoint` state them and their consequences |
| CodeBlock.LanguageLabelCases | web/app/components/base/markdown-blocks/code-block.tsx:42-50 | no language gives "Plain"; a language in the table gives its entry; any other keeps its length and all but its first character, which is upper-cased |
| CodeBlock.LanguageNameKeysAreLower | web/app/components/base/markdown-blocks/code-block.tsx:18-40 | every key of the table starts with a lower-case letter |
| CodeBlock.LanguageNameValuesAreCapitalized | web/app/components/base/markdown-blocks/code-block.tsx:18-40 | every label in the table is non-empty, starts with a character that is not lower-case, and is not itself a key |
| CodeBlock.LanguageLabelIsFixedPoint | web/app/components/base/markdown-blocks/code-block.tsx:42-50 | a label is never empty, and labelling a label changes nothing |
| CodeBlock.IsWordChar | web/app/components/base/markdown-blocks/code-block.tsx:75 | defined as: `\w`, an ASCII letter, an ASCII digit or `_` |
| CodeBlock.MatchesAt | web/app/components/base/markdown-blocks/code-block.tsx:75 | defined as: `/language-(\w+)/` matches at the position, that is `language-` starts there and a word character follows it; `FirstMatch` and `LanguageOf` are stated in its terms |
| CodeBlock.FirstMatch | web/app/components/base/markdown-blocks/code-block.tsx:75 | the result is the leftmost position at which `language-` followed by a word character occurs, or there is none |
| CodeBlock.WordRun | web/app/components/base/markdown-blocks/code-block.tsx:75 | the greedy `\w+`: the longest prefix made of word characters |
| CodeBlock.LanguageOf | web/app/components/base/markdown-blocks/code-block.tsx:75-76 | no language exactly when the pattern matches nowhere; otherwise a non-empty word, the maximal run after the leftmost match |
| CodeBlock.StripTrailingNewline | web/app/components/base/markdown-blocks/code-block.tsx:150 | a text ending in a line feed loses exactly that one character; any other text is unchanged |
| CodeBlock.ShouldTruncate | web/app/components/base/markdown-blocks/code-block.tsx:234-235 | defined as: the language is `sql` or `mysql` and the block is not expanded |
| CodeBlock.TruncatedContent | web/app/components/base/markdown-blocks/code-block.tsx:342-344 | defined as the source expression; `TruncationKeepsLeadingLines` states what it keeps |
| CodeBlock.TruncationKeepsLeadingLines | web/app/components/base/markdown-blocks/code-block.tsx:342-344 | collapsed: the text up to its fifth line feed, or all of it, followed by `\n...`, which is added even for five lines or fewer; expanded: the text unchanged |
| CodeBlock.PreviewOfBlock | web/app/components/base/markdown-blocks/code-block.tsx:234-235 | the highlighter's text for an unexpanded `sql` or `mysql` block ends in `\n...`; for an expanded block, or one in any other highlighted language, it is the text unchanged (Mermaid, ECharts, SVG and ABC blocks never reach the highlighter) |
| CodeBlock.TypeofIsObject | web/app/components/base/markdown-blocks/code-block.tsx:166 | defined as: `typeof v === 'object'`, which holds for objects, arrays and `null` |
| CodeBlock.IsChartOption | web/app/components/base/markdown-blocks/code-block.tsx:166 | defined as: `typeof v === 'object' && v !== null`, the guard at 166, 176, 205 and 213, so exactly objects and arrays; `Attempt` and `NextPreservesInvariant` are stated in its terms |
| CodeBlock.Attempt | web/app/components/base/markdown-blocks/code-block.tsx:164-187 | resolves only to a non-null object returned by the strict parser, or by the lenient one after the strict one threw; fails exactly when both throw; decides nothing exactly when the first value returned is not a chart option |
| CodeBlock.IsCompleteJson | web/app/components/base/markdown-blocks/code-block.tsx:157-161 | defined as the source test, with `split(c).length`; `CompleteJsonByCounts` restates it in counts |
| CodeBlock.IsIncomplete | web/app/components/base/markdown-blocks/code-block.tsx:190-199 | defined as the source test, with `[` compared against `}` as written; `ArrayIncompletenessCountsCurlyBraces` isolates that clause |
| CodeBlock.CompleteJsonByCounts | web/app/components/base/markdown-blocks/code-block.tsx:157-161 | complete exactly when the text is in braces with as many `{` as `}`, or in square brackets with as many `[` as `]` |
| CodeBlock.ArrayIncompletenessCountsCurlyBraces | web/app/components/base/markdown-blocks/code-block.tsx:190-199 | for a bracketed text passing the other tests, the unfinished test holds exactly when the `[` count differs from the `}` count |
| CodeBlock.Reset | web/app/components/base/markdown-blocks/code-block.tsx:145-148 | defined as: with no content recorded, loading and undecided; otherwise unchanged |
| CodeBlock.Settle | web/app/components/base/markdown-blocks/code-block.tsx:166-185 | defined as: a resolved attempt sets the option, success and decided; a failed one sets error and decided; an undecided one changes nothing |
| CodeBlock.NextBy | web/app/components/base/markdown-blocks/code-block.tsx:143-228 | one run of the effect, with the two tests as written or as intended; its properties are the `Next…` lemmas below |
| CodeBlock.Next | web/app/components/base/markdown-blocks/code-block.tsx:143-228 | one run of the effect as written, that is `NextBy(AsWritten, …)` |
| CodeBlock.Run | web/app/components/base/markdown-blocks/code-block.tsx:143-228 | defined as: the effect run once per update, in order, each update carrying its own language and text; `RunFrozenOnceProcessed` states what it keeps |
| CodeBlock.ChartOptionParser.constructor | web/app/components/base/markdown-blocks/code-block.tsx:65-69 | starts with no content, undecided, loading and no option |
| CodeBlock.ChartOptionParser.Step | web/app/components/base/markdown-blocks/code-block.tsx:143-228 | the new state of the four fields is `Next` of the old one, and the invariant is kept |
| CodeBlock.NextPreservesInvariant | web/app/components/base/markdown-blocks/code-block.tsx:163-227 | every step keeps the invariant: success comes with a non-null object option, and an epoch is decided exactly when the state is no longer loading |
| CodeBlock.NextOtherLanguage | web/app/components/base/markdown-blocks/code-block.tsx:144 | a block that is not `echarts` leaves the state untouched |
| CodeBlock.NextUnchangedContent | web/app/components/base/markdown-blocks/code-block.tsx:145-151 | content that is unchanged after stripping leaves the state as the reset left it, and entirely unchanged when content was recorded |
| CodeBlock.NextIdempotent | web/app/components/base/markdown-blocks/code-block.tsx:145-152 | a second step with the same children changes nothing, unless they strip to "" while content is recorded |
| CodeBlock.IdempotenceNeedsContent | web/app/components/base/markdown-blocks/code-block.tsx:145-152 | with content recorded, emptied children record "" on one step and reset to loading on the next |
| CodeBlock.NextWhitespaceOnly | web/app/components/base/markdown-blocks/code-block.tsx:152-155 | whitespace-only content is recorded and changes nothing else |
| CodeBlock.NextFrozenOnceProcessed | web/app/components/base/markdown-blocks/code-block.tsx:145-227 | once decided with content recorded, a step keeps the state, the option and the decided flag |
| CodeBlock.RunFrozenOnceProcessed | web/app/components/base/markdown-blocks/code-block.tsx:143-228 | a decided epoch stays decided, with the same state and option, through any run of updates, whatever language each carries, whose texts are non-empty |
| CodeBlock.NextByWaits | web/app/components/base/markdown-blocks/code-block.tsx:190-201 | under either pair of tests, new text that does not look complete but looks unfinished is recorded and nothing else changes |
| CodeBlock.NextWaitsOnIncomplete | web/app/components/base/markdown-blocks/code-block.tsx:190-201 | text that is not complete but looks unfinished moves neither the state, nor the option, nor the decided flag |
| CodeBlock.NextByResolvesComplete | web/app/components/base/markdown-blocks/code-block.tsx:163-170 | under either pair of tests, new text that looks complete in an open epoch, whose attempt resolves, shows that option, decided |
| CodeBlock.NextResolves | web/app/components/base/markdown-blocks/code-block.tsx:163-227 | a reachable attempt on either path that resolves shows the option and decides the epoch |
| CodeBlock.NextFailsWhenBothThrow | web/app/components/base/markdown-blocks/code-block.tsx:163-227 | a reachable attempt on either path whose two parsers throw shows the error, decides the epoch and keeps the old option |
| CodeBlock.NextIgnoresPrimitive | web/app/components/base/markdown-blocks/code-block.tsx:163-227 | a primitive result sets no state and leaves the epoch open |
| CodeBlock.ShortTextWaits | web/app/components/base/markdown-blocks/code-block.tsx:190-191 | "ab" leaves a fresh block loading |
| CodeBlock.OddQuotesWait | web/app/components/base/markdown-blocks/code-block.tsx:198 | an odd number of double quotes leaves a fresh block loading |
| CodeBlock.EmbeddedObjectWaits | web/app/components/base/markdown-blocks/code-block.tsx:199 | `{"` without any `"}` leaves a fresh block loading |
| CodeBlock.SmallObjectIsComplete | web/app/components/base/markdown-blocks/code-block.tsx:157-161 | `{"x":1}` is complete |
| CodeBlock.StreamedObjectResolves | web/app/components/base/markdown-blocks/code-block.tsx:143-228 | the stream `{`, `{"x"`, `{"x":1}` is loading, loading, then shows the parsed object |
| CodeBlock.MalformedObjectIsComplete | web/app/components/base/markdown-blocks/code-block.tsx:157-161 | `{"a":}` is complete |
| CodeBlock.MalformedObjectFails | web/app/components/base/markdown-blocks/code-block.tsx:163-186 | a complete object both parsers reject shows the error |
| CodeBlock.NewEpochAfterFailure | web/app/components/base/markdown-blocks/code-block.tsx:145-148 | after an error, emptied content starts a new epoch in which a valid object is shown |
| CodeBlock.ArrayPrefixFallsThrough | web/app/components/base/markdown-blocks/code-block.tsx:195-197 | the array prefix `[{},{},[]` is neither complete nor unfinished as written |
| CodeBlock.ArrayPrefixFailsEpoch | web/app/components/base/markdown-blocks/code-block.tsx:195-201 | as written, when both parsers reject the prefix, the epoch fails on it and any later text is ignored |
| CodeBlock.CountOutsideStrings | web/app/components/base/markdown-blocks/code-block.tsx:157-161 | defined as: the occurrences of a character outside double-quoted literals, with backslash escapes inside them; the count the intended tests use |
| CodeBlock.EndsInString | web/app/components/base/markdown-blocks/code-block.tsx:198 | defined as: reading the text ends inside a string literal; the intended replacement for the quote-parity clause |
| CodeBlock.NoQuoteScan | web/app/components/base/markdown-blocks/code-block.tsx:157-161 | in a text without double quotes the outside-literal count is the plain count, and no literal is open |
| CodeBlock.IsCompleteJsonIntended | web/app/components/base/markdown-blocks/code-block.tsx:157-161 | defined as: no literal open, and braces or square brackets outside literals balance |
| CodeBlock.IsIncompleteIntended | web/app/components/base/markdown-blocks/code-block.tsx:190-199 | defined as: too short, inside an open literal, unbalanced own brackets outside literals (`[` against `]`), or `{"` without `"}` |
| CodeBlock.ExcessClosingBracesWait | web/app/components/base/markdown-blocks/code-block.tsx:157-199 | a text that opens with `{` and has more `}` than `{` is not complete and looks unfinished; under the intended tests the same holds when the counts are taken outside string literals |
| CodeBlock.IntendedWaitsOnUnbalanced | web/app/components/base/markdown-blocks/code-block.tsx:190-199 | with the intended tests, every braced or bracketed text that is not complete counts as unfinished, and a text inside an open literal is never complete; on texts without quotes the intended tests agree with the written ones, except the unfinished test on texts opening with `[` |
| CodeBlock.NoQuoteAgreement | web/app/components/base/markdown-blocks/code-block.tsx:157-199 | on texts without double quotes both completeness tests agree, and so do both unfinished tests on texts not opening with `[` |
| CodeBlock.IntendedWaitsOnArrayPrefix | web/app/components/base/markdown-blocks/code-block.tsx:195-197 | the intended tests find the array prefix unfinished and not complete, where the written ones find it not unfinished |
| CodeBlock.ArrayTextIsComplete | web/app/components/base/markdown-blocks/code-block.tsx:160-161 | `[{},{},[]]` is complete, as written and as intended |
| CodeBlock.IntendedArrayStreamResolves | web/app/components/base/markdown-blocks/code-block.tsx:143-228 | with the intended tests, the array prefix leaves the block loading whatever the parsers say, and the complete array then shows the parsed option |
| CodeBlock.StringPrefixLooksComplete | web/app/components/base/markdown-blocks/code-block.tsx:157-159 | as written, `{"a":"x}` is complete: it opens with `{`, closes with `}` and has one of each |
| CodeBlock.IntendedWaitsOnStringPrefix | web/app/components/base/markdown-blocks/code-block.tsx:190-199 | as intended, `{"a":"x}` ends inside a literal, so it is unfinished and not complete |
| CodeBlock.StringObjectLooksUnfinished | web/app/components/base/markdown-blocks/code-block.tsx:157-194 | as written, `{"a":"x}"}` counts one `{` against two `}`: not complete, and unfinished |
| CodeBlock.StringObjectIsCompleteIntended | web/app/components/base/markdown-blocks/code-block.tsx:157-159 | as intended, `{"a":"x}"}` has no open literal and one `{` and one `}` outside literals, so it is complete |
| CodeBlock.StringObjectWaits | web/app/components/base/markdown-blocks/code-block.tsx:157-201 | as written, the finished object `{"a":"x}"}` is only recorded from a fresh block, whatever the parsers return |
| CodeBlock.StringBraceFailsEpoch | web/app/components/base/markdown-blocks/code-block.tsx:157-186 | as written, when both parsers reject `{"a":"x}`, the epoch fails on it and any later text is ignored |
| CodeBlock.IntendedStringStreamResolves | web/app/components/base/markdown-blocks/code-block.tsx:143-228 | with the intended tests, `{"a":"x}` leaves the block loading whatever the parsers say, and `{"a":"x}"}` then shows the parsed option |
| MarkdownTable.Truthy | web/app/components/base/markdown-blocks/table.tsx:61 | defined as JavaScript truthiness: a non-empty string, a number other than 0 and NaN, dates, arrays and elements |
| MarkdownTable.PlainText | web/app/components/base/markdown-blocks/table.tsx:55-65 | defined as the five cases of the source; the lemmas below state its meaning |
| MarkdownTable.JoinEmptyAppend | web/app/components/base/markdown-blocks/table.tsx:59 | joining with "" distributes over concatenation |
| MarkdownTable.FragmentTextAppend | web/app/components/base/markdown-blocks/table.tsx:59 | an array's text splits at any point of the array |
| MarkdownTable.FragmentTextCons | web/app/components/base/markdown-blocks/table.tsx:59 | an array's text is its first node's text followed by the rest's: the in-order concatenation |
| MarkdownTable.PlainTextEmptyCases | web/app/components/base/markdown-blocks/table.tsx:55-65 | an empty array, an element with falsy children and any other value have empty text |
| MarkdownTable.ElementTextIsChildrenText | web/app/components/base/markdown-blocks/table.tsx:60-63 | an element has its children's text exactly unless the children are the number 0 or NaN |
| MarkdownTable.UnwrapBodyCell | web/app/components/base/markdown-blocks/table.tsx:40-42 | defined as: an element with truthy children is replaced by them, and anything else is kept |
| MarkdownTable.UnwrapHeaderCell | web/app/components/base/markdown-blocks/table.tsx:28-31 | defined as: a non-element throws, and an element is replaced by its truthy children or kept |
| MarkdownTable.UnwrapKeepsText | web/app/components/base/markdown-blocks/table.tsx:28-42 | unwrapping a body cell keeps its text; a header cell unwraps exactly when it is an element, and then keeps its text |
| MarkdownTable.ParseTableData | web/app/components/base/markdown-blocks/table.tsx:19-47 | defined as the source function over the already-extracted rows; `ParsedRowsKeepTexts` and `ParseFailsOnlyOnBareHeaderCell` state its meaning |
| MarkdownTable.ParseFailsOnlyOnBareHeaderCell | web/app/components/base/markdown-blocks/table.tsx:26-31 | parsing throws exactly when the first head row holds a cell that is not an element |
| MarkdownTable.RowKey | web/app/components/base/markdown-blocks/table.tsx:39 | defined as `row-` followed by the decimal index |
| MarkdownTable.RowKeysDistinct | web/app/components/base/markdown-blocks/table.tsx:39 | rows at different positions get different keys |
| MarkdownTable.ParsedRowsKeepTexts | web/app/components/base/markdown-blocks/table.tsx:19-47 | one body row per source row, in order; keys pairwise distinct and different from the header key; every cell has its source cell's text |
| MarkdownTable.TotalPages | web/app/components/base/markdown-blocks/table.tsx:53 | the least number of ten-row pages holding all rows; zero exactly for an empty table |
| MarkdownTable.DisplayedRows | web/app/components/base/markdown-blocks/table.tsx:87-90 | at most ten rows, the slice from `(p-1)*10` to `p*10` clamped to the table; non-empty exactly for an existing page |
| MarkdownTable.PagesUpToIsPrefix | web/app/components/base/markdown-blocks/table.tsx:87-90 | the first `k` pages together are the first `10k` rows |
| MarkdownTable.AllPagesAreTheRows | web/app/components/base/markdown-blocks/table.tsx:51-90 | all pages in order are exactly the body rows |
| MarkdownTable.AcceptsPage | web/app/components/base/markdown-blocks/table.tsx:93 | defined as: the page is between 1 and the page count |
| MarkdownTable.PagerShown | web/app/components/base/markdown-blocks/table.tsx:165 | defined as: more than one page |
| MarkdownTable.PreviousDisabled | web/app/components/base/markdown-blocks/table.tsx:169 | defined as: the current page is 1 |
| MarkdownTable.NextDisabled | web/app/components/base/markdown-blocks/table.tsx:187 | defined as: the current page is the page count |
| MarkdownTable.PagerShownIffRowsOverflow | web/app/components/base/markdown-blocks/table.tsx:53-165 | the pager appears exactly when there are more than ten rows |
| MarkdownTable.ButtonsMatchGuard | web/app/components/base/markdown-blocks/table.tsx:165-192 | on an existing page a button is enabled exactly when its page change is accepted |
| MarkdownTable.StalePageIsStuck | web/app/components/base/markdown-blocks/table.tsx:165-192 | two or more pages past the end of the table, both buttons are enabled, neither change is accepted, and no rows are shown |
| MarkdownTable.Pager.constructor | web/app/components/base/markdown-blocks/table.tsx:50 | the current page starts at 1 |
| MarkdownTable.Pager.Displayed | web/app/components/base/markdown-blocks/table.tsx:87-90 | the current page shows at most ten rows |
| MarkdownTable.Pager.HandlePageChange | web/app/components/base/markdown-blocks/table.tsx:92-96 | the page becomes the requested one when it is between 1 and the page count, and stays otherwise; the page is always at least 1 |
| MarkdownTable.Pager.PreviousPage | web/app/components/base/markdown-blocks/table.tsx:168 | the previous-page click moves back one page when that page exists |
| MarkdownTable.Pager.NextPage | web/app/components/base/markdown-blocks/table.tsx:186 | the next-page click moves on one page when that page exists |
| MarkdownTable.CellTexts | web/app/components/base/markdown-blocks/table.tsx:69-73 | one plain text per cell, in order |
| MarkdownTable.ExportRows | web/app/components/base/markdown-blocks/table.tsx:67-81 | the header texts, then each body row's texts in order (1 + n rows), and a width of 20 per header cell |
| MarkdownTable.StatusClass | web/app/components/base/markdown-blocks/table.tsx:141-148 | defined as the nested choice of the source; `StatusClassSpec` states it |
| MarkdownTable.StatusClassSpec | web/app/components/base/markdown-blocks/table.tsx:141-148 | only column 3 gets a class; there 已完成 is green, 已暂停 yellow and 进行中 blue, each exactly, and every other text grey |

## Left out

- Rendering is not modelled: the markup, styles, themes and the row stripes. The chart, Mermaid, SVG and ABC-music renderers are foreign libraries and are left out.
- The chart's resize debouncing, timers, window listener and finished-event counter are event plumbing, and are left out.
- `formatMySQL` is a chain of regular-expression replacements that depends on the regex engine. It is left out, so the SQL preview works on the already-formatted text.
- What `JSON.parse` and evaluation of the text compute, and any side effects of evaluation, are left out. Both are parameters, so every property holds for any parser.
- React runs the effect only when `language` or `children` changes. A step in the model may repeat its inputs: `NextIdempotent` says what that does.
- The unused `instanceIdRef` is not modelled.
- CodeBlock.LanguageLabel: the label table is a finite map. The `in` operator's inherited prototype keys (such as `constructor`) are not modelled.
- CodeBlock.UpperCase: `toUpperCase` is modelled for ASCII letters only. Other characters are left unchanged, and characters whose upper case is longer are not modelled.
- CodeBlock.IsIncomplete: lengths count Dafny characters, not UTF-16 code units, so the `|t| < 5` test differs for characters outside the Basic Multilingual Plane. For example, two emoji in quotes have length 6 in JavaScript and reach a parse, but length 4 in the model and wait. Positions in `JsString.Split` and `JsString.Count` are counted the same way.
- CodeBlock.EndsInString: the intended literal scan follows JSON string syntax (double quotes, backslash escapes). Single-quoted and template literals, which the lenient evaluation would also accept, are not scanned.
- MarkdownTable.PlainText: number-to-string and `Date.toISOString` formatting are left out. A number or a date carries its text as given.
- MarkdownTable.ParseTableData: the `React.Children.toArray` traversal is left out. Its flattening of fragments and its dropping of `null`, `undefined` and booleans are not modelled. The input is the rows of the head and the cells of each body row, with an absent head or body given as no rows.
- The spreadsheet library's sheet and workbook creation and the file download are library I/O, and are left out.

## Findings

| source | as written | input that shows it | evidently intended | confidence | as-written member | corrected member |
|---|---|---|---|---|---|---|
| web/app/components/base/markdown-blocks/code-block.tsx:195-197 | for text that starts with `[` and ends with `]`, the unfinished test compares the number of `[` with the number of `}` | `[{},{},[]` while `[{},{},[]]` streams in: it is not complete, and with two `[` and two `}` it does not look unfinished, so it reaches the fall-through parse; when both parsers throw, the epoch fails there and the complete array is ignored afterwards | compare `[` with `]`, as the completeness test does, so the prefix waits and the complete array is shown | not executed | CodeBlock.ArrayPrefixFailsEpoch | CodeBlock.IntendedArrayStreamResolves |
| web/app/components/base/markdown-blocks/code-block.tsx:157-161 | braces and brackets are counted everywhere, string literals included, and the completeness test runs before the quote-parity test | `{"a":"x}` while `{"a":"x}"}` streams in: it opens with `{`, closes with the `}` inside the open literal and has one of each, so it is complete and is parsed; when both parsers throw, the epoch fails there. The finished `{"a":"x}"}` would never show anyway: it counts one `{` against two `}`, so it always looks unfinished | count only braces and brackets outside string literals, and call a text inside an open literal unfinished, so the prefix waits and the finished object is shown | not executed | CodeBlock.StringBraceFailsEpoch | CodeBlock.IntendedStringStreamResolves |

The class `ChartOptionParser` and `Next` follow the code as written. `NextBy(Intended, …)` is the same step with both corrected tests. `IntendedWaitsOnUnbalanced` proves two properties intended for it: a braced or bracketed text that is not complete never reaches a parse attempt, and a text inside an open string literal is never complete. On texts without double quotes the corrected tests change only the square-bracket clause (`NoQuoteAgreement`).

A text that opens with `{` and has more `}` than `{`, such as `{"a":1,"b":2}}`, waits rather than fails under both pairs of tests; under the corrected pair the counts are those outside string literals (`ExcessClosingBracesWait`). This does not extend to other texts. `["}"]` opens with `[` and is complete as written. `abc}}` opens with neither bracket and reaches a parse attempt. `{"a":"}"}` has its extra `}` inside a literal and is complete under the corrected tests.
