# PhiPdfRag core, modelled in Dafny

PhiPdfRag is a desktop question-answering app over one PDF. When the user
indexes a PDF, the window reads the text of every page and sanitises it
into lines. It then splits every line that is too long for the embedding
model into chunks of at most 512 characters. When the user asks a
question, the window orders the search results by page, groups them into
one block per page and wraps them in a chat prompt. The small language
model streams its answer, part by part, until it emits a stop marker.
Previous and Next buttons then walk through the pages that were used.

The project models that core in five modules:

- `Text` (`text.dfy`): the .NET string operations the core relies on.
  These are the sanitising regex, `Trim`, the `(\.){2,}` collapse,
  `LastIndexOf`, `Contains`, `string.Join` and the decimal rendering of a
  page number. Each is a function with its properties proved.
- `Chunker` (`chunker.dfy`): reading and sanitising the pages, and the
  in-place splitting loop of the indexing handler. `ReadPages`, `SplitLine`,
  `SplitContents` and `ChunkDocument` are methods with the source's loops.
  Each is proved equal to a specification function (`SanitiseAll`,
  `LineChunks`, `SplitAll`), and the properties of those functions are
  proved as lemmas.
- `Prompt` (`prompt.dfy`): the stable `OrderBy(c => c.Page)`, `GroupBy`,
  the prompt's wire format and the pages-used list with its `(uint)` cast.
- `Generation` (`generation.dfy`): `SLMRunner`, whose
  `InferStreamingAsync` loop is a method. It is proved equal to `Run`, a
  function over the outside world's turns.
- `Preview` (`preview.dfy`): the page cursor and the enablement of the
  Previous and Next buttons, as a class whose methods update the cursor.

The code behaves in some ways a reader might not expect. The model follows
the code, and the lemmas below show each of these behaviours:

- **A page's text is split on carriage returns only, into at most 10
  pieces.** The call `Split('\r', '\n', StringSplitOptions.RemoveEmptyEntries)`
  at line 108 binds to `Split(char separator, int count, StringSplitOptions)`.
  The `'\n'` converts to the count 10. So line feeds do not split a page.
  The regex at line 109 removes them later, which joins the lines on either
  side (`LineFeedsJoinLines`, `LineFeedExample`). Empty entries are
  skipped. When fewer than ten pieces come out, the split has cut at every
  run of carriage returns and nowhere else (`SplitReturnsRejoins`). When ten
  come out, it has cut at every run up to some carriage return, and the
  tenth piece is all the text after that return, carriage returns and all
  (`SplitReturnsAtCount`, `SplitReturnsShape`, `LastAllowedPieceIsRest`,
  `SecondPieceKeepsReturns`). The regex then removes those returns too.
  Either way the split loses nothing but carriage returns
  (`SplitReturnsKeepsText`).
- **A forced cut drops a character.** After every cut the loop restarts at
  `lastIndexOfBreak + 1`. When the window holds no space, the character at
  the cut is not a space, and it is lost (`NoSpaceForcesFixedWidth`,
  `ForcedCutDropsCharacter`). Every chunk is also trimmed and has its
  period runs collapsed, so joining a line's chunks gives back its text
  only up to that tidying and those lost characters.
- **A stop marker that arrives split is only partly withheld.** The loop
  checks the buffer only after the part that completes a marker. So when a
  marker arrives in two parts, its opening half has already been yielded
  (`SplitMarkerLeaksOpeningHalf`). Only the part that completes the marker
  is withheld.
- **A negative page heads the pages-used list.** The results are ordered
  by the signed page, so a negative page sorts first. The `(uint)` cast
  then turns it into a number of 2^31 or more, which stays at the head of
  the list, so the list is not ascending (`NegativePageHeadsList`). The
  list is strictly ascending when no page is negative
  (`PagesUsedProperties`).
- **The cursor is reset before the search and the list replaced after
  it.** The question handler sets the index to 0 at line 228 and replaces
  the list at line 240, with the awaited search in between. A Next click
  during the search moves the cursor along the old list. A shorter new list
  then leaves the cursor outside it (`NextDuringSearchBreaksCursor`).
- **The prompt mixes two kinds of line break.** The page blocks are joined
  with `Environment.NewLine`, the parameter `nl`. The system and user turns
  are raw string literals, so their line breaks are those the source file
  was saved with, fixed at compile time. That is the parameter `eol`.
- **Worked examples.** "alpha beta gamma" with a limit of 11 gives the
  chunks "alpha beta" and "gamma" (`AlphaBetaGammaSlices`,
  `AlphaBetaGamma`). Three more short lines are worked through to chunks:
  - a cut at a space (`CutAtSpace`);
  - a forced cut (`ForcedCutDropsCharacter`);
  - a blank slice that becomes an empty chunk
    (`BlankSliceGivesEmptyChunk`). The code keeps that empty chunk,
    because it filters blank lines only before splitting.

## Model

| member | source | states |
|---|---|---|
| Text.IsWhiteSpace | src/MainWindow.xaml.cs:135 | `char.IsWhiteSpace`, behind `Trim`: the fixed list of Unicode white-space characters; used by `TrimProperties` and `IsBlank` |
| Text.IsBlank | src/MainWindow.xaml.cs:110 | `string.IsNullOrWhiteSpace` on a non-null string: every character is white space; used by `SanitiseLines` and `TrimProperties` |
| Text.KeepPrintable | src/MainWindow.xaml.cs:25-26 | the sanitising regex keeps only printable ASCII, keeps it in order (a subsequence of the input), and leaves printable input unchanged; `KeepPrintableCounts` states that it keeps every printable character |
| Text.KeepPrintableCounts | src/MainWindow.xaml.cs:25-26 | the regex deletes exactly the non-printable characters: each printable character occurs in the result as often as in the input, and no other character occurs |
| Text.VisibleCharsOfKeepPrintable | src/MainWindow.xaml.cs:109 | the regex removes no visible character |
| Text.TrimStart | src/MainWindow.xaml.cs:135 | the front half of `Trim`: drops leading white space and is never longer than its input; its contract is `TrimStartDropsWhiteSpace` |
| Text.TrimStartDropsWhiteSpace | src/MainWindow.xaml.cs:135 | trimming the front keeps a suffix, drops only white space and leaves none at the front |
| Text.TrimEnd | src/MainWindow.xaml.cs:135 | the back half of `Trim`: drops trailing white space and is never longer than its input; its contract is `TrimEndDropsWhiteSpace` |
| Text.TrimEndDropsWhiteSpace | src/MainWindow.xaml.cs:135 | trimming the back keeps a prefix, drops only white space and leaves none at the back |
| Text.Trim | src/MainWindow.xaml.cs:135 | `string.Trim()` is never longer than its input; what it keeps is stated by `TrimProperties` |
| Text.TrimProperties | src/MainWindow.xaml.cs:135 | `Trim` gives a slice of the input with no white space at either end, with only white space before and after that slice, and empty exactly when the input is blank |
| Text.CollapsePeriods | src/MainWindow.xaml.cs:135 | `Regex.Replace(t, @"(\.){2,}", ".")` is never longer than its input; its properties are the `Collapse` lemmas |
| Text.CollapseProperties | src/MainWindow.xaml.cs:135 | collapsing `(\.){2,}` leaves no two periods in a row, keeps the first and last character, and empties only the empty string |
| Text.CollapseKeepsChars | src/MainWindow.xaml.cs:135 | collapsing introduces no character |
| Text.CollapseKeepsOtherChars | src/MainWindow.xaml.cs:135 | collapsing changes nothing but the periods: with periods removed, input and output are equal |
| Text.CollapseIdentity | src/MainWindow.xaml.cs:135 | a text with no two periods in a row is left unchanged |
| Text.CollapseIdempotent | src/MainWindow.xaml.cs:135 | collapsing twice is collapsing once |
| Text.CollapseMergesPair | src/MainWindow.xaml.cs:135 | two periods in a row collapse exactly as one period does, wherever they stand; with `CollapseIdentity` this determines the function |
| Text.LastIndexOf | src/MainWindow.xaml.cs:140 | `LastIndexOf(c, start, count)` answers -1 or a position inside the window `start - count + 1 .. start` |
| Text.LastIndexOfFindsLast | src/MainWindow.xaml.cs:140 | what `LastIndexOf` finds holds `c`, and no later position of the window does |
| Text.Contains | src/SLMRunner.cs:77-79 | `Contains` is true exactly when the substring occurs at some position |
| Text.Concat | src/SLMRunner.cs:76-77 | the text a `StringBuilder` holds after appending the parts in order; stated by `ConcatAppend` |
| Text.ConcatAppend | src/SLMRunner.cs:76-77 | appending two runs of parts gives the concatenation of the two texts |
| Text.Join | src/MainWindow.xaml.cs:245-247 | `string.Join(sep, xs)`: the elements with the separator between each two; stated by `JoinElementAt`, `JoinSeparatorAt` and `JoinLength` |
| Text.JoinElementAt | src/MainWindow.xaml.cs:244-247 | every element of `string.Join` occurs whole at its own offset in the result |
| Text.JoinSeparatorAt | src/MainWindow.xaml.cs:244-247 | the separator occurs right before every element but the first, so between each two consecutive elements |
| Text.JoinLength | src/MainWindow.xaml.cs:244-247 | the joined string ends with its last element: its length is that element's offset plus its length |
| Text.NatToStringRoundTrip | src/MainWindow.xaml.cs:245 | the decimal rendering of a page number reads back as the same number |
| Text.IntToString | src/MainWindow.xaml.cs:245 | the rendering of `{g.Key}`: a minus sign for a negative page, then the digits of `NatToString` |
| Chunker.SplitLines | src/MainWindow.xaml.cs:107-108 | the page text is split by `Split(char, int count, options)` with the separator carriage return and the count 10 (`'\n'` as an `int`); its properties are those of `SplitReturns` at that count |
| Chunker.SplitReturns | src/MainWindow.xaml.cs:107-108 | the .NET split on one separator with a count and empty entries removed; its contract is `SplitReturnsShape`, `SplitReturnsKeepsText`, `SplitReturnsRejoins` and `SplitReturnsAtCount` |
| Chunker.SplitReturnsShape | src/MainWindow.xaml.cs:108 | at most `count` pieces come out, none empty or starting with a carriage return; only the `count`-th piece may hold carriage returns |
| Chunker.SplitReturnsKeepsText | src/MainWindow.xaml.cs:108 | with carriage returns removed, the concatenated pieces equal the text: the split loses nothing else |
| Chunker.SqueezeReturns | src/MainWindow.xaml.cs:108 | the text with each run of carriage returns cut to one and the runs at either end dropped: what the split's pieces rejoin to |
| Chunker.SplitReturnsRejoins | src/MainWindow.xaml.cs:108 | when fewer than `count` pieces come out, joining them with single carriage returns gives back the text with its runs of carriage returns squeezed: the split cuts at every run and nowhere else |
| Chunker.SplitReturnsAtCount | src/MainWindow.xaml.cs:108 | when exactly `count` pieces come out, there is a carriage return in the text such that the first `count - 1` pieces, joined with single carriage returns, give back the squeezed text before it, and the last piece is all the text after it but its leading carriage returns |
| Chunker.NoReturnIsOnePiece | src/MainWindow.xaml.cs:108 | a non-empty text without carriage returns is one piece, line feeds included |
| Chunker.SplitOneOff | src/MainWindow.xaml.cs:108 | a character and the carriage return after it come off the front as one piece, using up one of the count |
| Chunker.LastAllowedPieceIsRest | src/MainWindow.xaml.cs:108 | the last piece the count allows is the rest of the text after its leading carriage returns, whatever it holds |
| Chunker.SecondPieceKeepsReturns | src/MainWindow.xaml.cs:108 | with a count of 2, "a\rb\rc" splits into "a" and "b\rc" |
| Chunker.SanitiseLines | src/MainWindow.xaml.cs:109-115 | every kept line is the regex applied to some input line, is printable and not blank, and carries the page number; no more lines come out than go in; in input order, by `SanitiseLinesAppend` and `SanitiseOneLine` |
| Chunker.SanitiseLinesAppend | src/MainWindow.xaml.cs:109-115 | sanitising two runs of lines one after the other gives the two results one after the other: the output keeps the input's order |
| Chunker.SanitiseOneLine | src/MainWindow.xaml.cs:109-115 | one line gives the regex applied to it, tagged with the page number, unless that is blank, and then nothing |
| Chunker.SanitisePage | src/MainWindow.xaml.cs:104-115 | every line of a page is sanitised and carries that page's number |
| Chunker.LineFeedsJoinLines | src/MainWindow.xaml.cs:107-115 | a page without carriage returns gives one chunk, its whole text with the line feeds removed by the regex |
| Chunker.LineFeedExample | src/MainWindow.xaml.cs:107-115 | the page text "a\nb" gives the single chunk "ab" |
| Chunker.SanitisePageKeepsVisibleChars | src/MainWindow.xaml.cs:104-115 | sanitising a page loses no visible character of its words, in order |
| Chunker.SanitiseAllLines | src/MainWindow.xaml.cs:102-118 | every line read from the document is sanitised and carries the number of one of its pages |
| Chunker.SanitiseAll | src/MainWindow.xaml.cs:98-118 | the lines read from all pages, page after page; stated by `SanitiseAllLines` and `ReadPages` |
| Chunker.ReadPages | src/MainWindow.xaml.cs:98-119 | the reading loop appends every page's sanitised lines in page order |
| Chunker.Tidy | src/MainWindow.xaml.cs:135 | a trimmed and collapsed chunk text is never longer than its slice |
| Chunker.TidyProperties | src/MainWindow.xaml.cs:135 | a trimmed and collapsed chunk text is tidy, empty exactly when the slice was blank, and made of characters of the slice |
| Chunker.TidyOfTidy | src/MainWindow.xaml.cs:135 | a text that is already tidy is left unchanged |
| Chunker.TidyIdempotent | src/MainWindow.xaml.cs:135 | trimming and collapsing twice is doing it once |
| Chunker.CutPoint | src/MainWindow.xaml.cs:140-144 | a cut lies after the loop index and at most `maxLength` past it |
| Chunker.CutPointFollowsRule | src/MainWindow.xaml.cs:140-144 | the cut is the last space in the window, or the window's end when it holds no space after the index |
| Chunker.CutIsUnique | src/MainWindow.xaml.cs:140-144 | any position satisfying the cut rule is the cut |
| Chunker.Slices | src/MainWindow.xaml.cs:129-152 | the loop takes no slice exactly when its index is at the end of the line |
| Chunker.SliceWithin | src/MainWindow.xaml.cs:129-152 | every slice is non-empty, at most `maxLength` long and inside the line |
| Chunker.SliceNextStart | src/MainWindow.xaml.cs:151 | each slice starts one position after the previous cut, so the cut character belongs to no slice |
| Chunker.SlicesFollowCutRule | src/MainWindow.xaml.cs:129-152 | the first slice starts at the index, each later one right after the previous cut, every slice follows the cut rule, and the last reaches the end of the line or the position before it |
| Chunker.SliceCountBound | src/MainWindow.xaml.cs:129-152 | each turn moves the index on by at least 2, so a line of length n gives at most (n + 1) / 2 chunks and the loop ends |
| Chunker.NoSpaceForcesFixedWidth | src/MainWindow.xaml.cs:140-151 | on a line without spaces every slice short of the end is exactly `maxLength` long and the non-space character at its cut is dropped |
| Chunker.CutStep | src/MainWindow.xaml.cs:140-151 | one cutting turn moves the loop index past the cut and appends that slice's chunk, keeping the loop invariant |
| Chunker.LastStep | src/MainWindow.xaml.cs:131-137 | the final turn, whose rest of line fits, completes exactly the chunks of the line |
| Chunker.LineChunkAt | src/MainWindow.xaml.cs:129-152 | each chunk of a line is at most `maxLength` long, tidy, made of the line's characters and tagged with the line's page |
| Chunker.LineChunks | src/MainWindow.xaml.cs:127-152 | the chunks of one line, one tidied text per slice; stated by `LineChunkAt`, `LineChunksProperties` and `SplitLine` |
| Chunker.LineChunksProperties | src/MainWindow.xaml.cs:129-152 | a line gives at least one chunk exactly when it is non-empty; a line of at most `maxLength` characters gives just its own tidied text |
| Chunker.FindCut | src/MainWindow.xaml.cs:140-144 | the `LastIndexOf` call and its fallback compute the cut the rule prescribes |
| Chunker.SplitLine | src/MainWindow.xaml.cs:127-152 | the `while` loop builds exactly the chunks of the line's slices, in order |
| Chunker.SplitContents | src/MainWindow.xaml.cs:124-157 | rewriting the list in place (`RemoveAt`, `InsertRange`, skipping the inserted chunks) replaces each line by its chunks, in order |
| Chunker.SplitAll | src/MainWindow.xaml.cs:124-157 | each line replaced by its chunks, in order; stated by `SplitContents`, `SplitAllChunkFrom` and `SplitAllCoversLines` |
| Chunker.SplitAllChunkFrom | src/MainWindow.xaml.cs:124-157 | every chunk of the rewritten list is a chunk of one of the original lines |
| Chunker.SplitAllCoversLines | src/MainWindow.xaml.cs:124-157 | when no line is empty, the rewritten list is at least as long as the list of lines |
| Chunker.ChunkDocument | src/MainWindow.xaml.cs:98-157 | the indexing handler's chunking is reading then splitting at `1024 / 2` |
| Chunker.DocumentChunks | src/MainWindow.xaml.cs:98-157 | every chunk handed to the index is at most 512 characters of tidy printable ASCII and carries the number of one of the pages; every sanitised line yields at least one chunk, so there are at least as many chunks as lines |
| Chunker.AlphaBetaGammaSlices | src/MainWindow.xaml.cs:129-151 | with a limit of 11, "alpha beta gamma" is cut at its second space into "alpha beta" and "gamma" |
| Chunker.AlphaBetaGamma | src/MainWindow.xaml.cs:129-151 | with a limit of 11, the line "alpha beta gamma" gives the chunks "alpha beta" and "gamma" |
| Chunker.CutAtSpace | src/MainWindow.xaml.cs:129-151 | with a limit of 3, "ab cd" gives the chunks "ab" and "cd" |
| Chunker.ForcedCutDropsCharacter | src/MainWindow.xaml.cs:140-151 | with a limit of 3, "abcdefg" gives "abc" and "efg": the forced cut loses "d" |
| Chunker.BlankSliceGivesEmptyChunk | src/MainWindow.xaml.cs:129-151 | with a limit of 2, "ab   c" gives "ab", an empty chunk and "c" |
| Prompt.InsertByPage | src/MainWindow.xaml.cs:238 | one insertion step of the stable sort: the result is one longer; its properties are the `InsertByPageKeeps` lemmas |
| Prompt.SortByPage | src/MainWindow.xaml.cs:238 | `OrderBy(c => c.Page)` keeps the length; its contract is `SortByPageIsStableSort` |
| Prompt.InsertByPageKeepsChunks | src/MainWindow.xaml.cs:238 | inserting a result keeps every chunk, no more and no fewer |
| Prompt.InsertByPageKeepsSorted | src/MainWindow.xaml.cs:238 | inserting into a list sorted by page keeps it sorted |
| Prompt.InsertByPageKeepsPageOrder | src/MainWindow.xaml.cs:238 | inserting keeps the order of the results on every page |
| Prompt.SortByPageIsStableSort | src/MainWindow.xaml.cs:238 | `OrderBy(c => c.Page)` sorts by page, is a permutation, and keeps the search order within each page |
| Prompt.Distinct | src/MainWindow.xaml.cs:240 | `Distinct()` is never longer than its input; stated by `DistinctProperties` |
| Prompt.DistinctProperties | src/MainWindow.xaml.cs:240 | `Distinct` repeats nothing and keeps exactly the elements of its input |
| Prompt.DistinctOfAscending | src/MainWindow.xaml.cs:240 | removing repeats from pages in ascending order leaves them strictly ascending |
| Prompt.GroupByPage | src/MainWindow.xaml.cs:244 | `GroupBy(c => c.Page)` reduced to page and texts; stated by `GroupByPageProperties` |
| Prompt.GroupByPageProperties | src/MainWindow.xaml.cs:244-245 | `GroupBy` makes one group per page present, each holding that page's texts in order; over sorted input the groups are in strictly ascending page order |
| Prompt.SortKeepsPages | src/MainWindow.xaml.cs:238 | ordering by page adds and loses no page |
| Prompt.PromptGroups | src/MainWindow.xaml.cs:238-245 | the groups of the results ordered by page; stated by `PromptGroupsProperties` |
| Prompt.PromptGroupsProperties | src/MainWindow.xaml.cs:238-245 | the page blocks come in strictly ascending page order, one per page of the results, each holding that page's texts in search order |
| Prompt.SystemTurn | src/MainWindow.xaml.cs:232-235 | the raw literal of the system turn, with the source file's line ending `eol`; stated by `SystemTurnOpensWithMarker` |
| Prompt.SystemTurnOpensWithMarker | src/MainWindow.xaml.cs:232-235 | the prompt's system turn opens with the system marker on a line of its own |
| Prompt.UserTurn | src/MainWindow.xaml.cs:249-254 | the interpolated raw literal closing the prompt, with the source file's line ending `eol`; stated by `UserTurnShape` |
| Prompt.PageBlock | src/MainWindow.xaml.cs:244-245 | one page block, with `Environment.NewLine` as `nl`; stated by `PageBlockInPrompt` |
| Prompt.PageBlocks | src/MainWindow.xaml.cs:244-245 | the `Select` over the groups: one block per group, so as many blocks as groups, in group order |
| Prompt.BuildPrompt | src/MainWindow.xaml.cs:232-254 | the prompt: preamble, page blocks joined by `nl`, user turn with `eol`; stated by `BuildPromptShape`, `PageBlockInPrompt`, `NewLineBeforeBlock` and `UserTurnAfterBlocks`, which place every block, every `nl` between two blocks and the user turn right after the last block |
| Prompt.BuildPromptShape | src/MainWindow.xaml.cs:232-254 | the prompt starts with the system preamble and ends with the user turn; with no results there is no page block between them |
| Prompt.PageBlockInPrompt | src/MainWindow.xaml.cs:244-247 | every page block appears whole in the prompt, right after the preamble, at its joined offset |
| Prompt.NewLineBeforeBlock | src/MainWindow.xaml.cs:247 | `Environment.NewLine` stands right before every page block but the first, so between each two consecutive blocks |
| Prompt.UserTurnAfterBlocks | src/MainWindow.xaml.cs:247-254 | with some results, the user turn starts right after the last page block |
| Prompt.UserTurnShape | src/MainWindow.xaml.cs:249-254 | the user turn closes the system turn with the end marker, opens with the user marker, carries the question verbatim and ends with the end marker and an open assistant turn |
| Prompt.Casts | src/MainWindow.xaml.cs:240 | the `(uint)` cast applied to each page in order, keeping the length; stated by `CastIsInjective` and `DistinctOfCasts` |
| Prompt.ToUInt32 | src/MainWindow.xaml.cs:240 | the `(uint)` cast is the page modulo 2^32 |
| Prompt.CastIsInjective | src/MainWindow.xaml.cs:240 | the cast merges no two page numbers |
| Prompt.DistinctOfCasts | src/MainWindow.xaml.cs:240 | casting then removing repeats equals removing repeats then casting |
| Prompt.PagesUsed | src/MainWindow.xaml.cs:238-240 | the pages-used list; stated by `PagesUsedProperties` and `NegativePageHeadsList` |
| Prompt.PagesUsedProperties | src/MainWindow.xaml.cs:238-240 | the pages-used list is the pages of the prompt's blocks, in order and cast, with no repeats; it is strictly ascending when no page is negative |
| Prompt.NegativePageHeadsList | src/MainWindow.xaml.cs:238-240 | with pages 1 and -1 the list is 4294967295 then 1: a negative page sorts first and wraps to 2^31 or more |
| Generation.HasStopMarker | src/SLMRunner.cs:77-79 | the buffer contains one of the three chat markers; stated through `Contains` and `YieldedHasNoMarker` |
| Generation.Budget | src/SLMRunner.cs:41 | the tokens the generator may still produce under `max_length` 1024 after the prompt; used by `RunProperties` and `FullPromptYieldsNothing` |
| Generation.Yielded | src/SLMRunner.cs:52-91 | the parts the loop yields: at most one per turn and no more than the budget |
| Generation.YieldsPart | src/SLMRunner.cs:52-90 | a turn that is not cancelled, does not fail and completes no marker yields its part, and the loop goes on |
| Generation.YieldedIsFirstStop | src/SLMRunner.cs:52-91 | the yielded parts are the decoded parts of the first turns, none of which stops the loop; the turn right after them, if the budget allows, stops it |
| Generation.CancellationEndsStream | src/SLMRunner.cs:57-60 | nothing is yielded from the turn that sees cancellation on |
| Generation.FailureEndsStream | src/SLMRunner.cs:84-88 | a failing step ends the stream silently, keeping what was yielded before it |
| Generation.YieldedHasNoMarker | src/SLMRunner.cs:76-82 | the concatenation of the yielded parts never shows a stop marker |
| Generation.Run | src/SLMRunner.cs:27-92 | what a call produces: not ready, a set-up failure, or the yielded parts; stated by `RunOutcomes` and `RunProperties` |
| Generation.RunOutcomes | src/SLMRunner.cs:29-46 | the call ends not ready exactly when the runner is not ready, with a set-up failure exactly when a ready runner's set-up throws, and with parts otherwise |
| Generation.FullPromptYieldsNothing | src/SLMRunner.cs:41 | a prompt of 1024 tokens or more leaves no budget, so nothing is yielded |
| Generation.RunProperties | src/SLMRunner.cs:27-92 | a ready runner whose set-up succeeds yields, in order, a prefix of the decoded parts, at most one per token within the `max_length` budget, with no stop marker in their concatenation |
| Generation.SplitMarkerLeaksOpeningHalf | src/SLMRunner.cs:75-90 | an end marker that arrives split over two parts has its first part yielded before the second part stops the stream |
| Generation.SlmRunner.constructor | src/SLMRunner.cs:14-19 | a new runner has neither the model nor the tokenizer, so it is not ready |
| Generation.SlmRunner.IsReady | src/SLMRunner.cs:18-19 | ready exactly when both the model and the tokenizer are loaded |
| Generation.SlmRunner.Initialize | src/SLMRunner.cs:94-105 | after initialising, the model and the tokenizer are loaded and the runner is ready |
| Generation.SlmRunner.InferStreaming | src/SLMRunner.cs:27-92 | the call throws when the runner is not ready, lets a set-up exception through when set-up fails, and otherwise yields exactly the parts of `Run` |
| Preview.CursorValid | src/MainWindow.xaml.cs:21-22 | the cursor state: no list and index -1 before the first question, then an index inside the list, or 0 for an empty list |
| Preview.PreviousIndex | src/MainWindow.xaml.cs:359-367 | the Previous step; stated by `StepsKeepCursorValid`, `EnabledIffStepMoves` and `StepsUndoEachOther` |
| Preview.NextIndex | src/MainWindow.xaml.cs:369-377 | the Next step; stated by `StepsKeepCursorValid`, `EnabledIffStepMoves` and `StepsUndoEachOther` |
| Preview.PreviousEnabled | src/MainWindow.xaml.cs:341-350 | the Previous button's enablement; stated by `EnabledIffStepMoves` |
| Preview.NextEnabled | src/MainWindow.xaml.cs:341-351 | the Next button's enablement; stated by `EnabledIffStepMoves` |
| Preview.StepsKeepCursorValid | src/MainWindow.xaml.cs:359-377 | the Previous and Next steps keep the page cursor inside the pages-used list |
| Preview.EnabledIffStepMoves | src/MainWindow.xaml.cs:341-377 | each button is enabled exactly when its step would move the cursor; both are disabled with no list or an empty one |
| Preview.StepsUndoEachOther | src/MainWindow.xaml.cs:359-377 | a Previous step that moves is undone by a Next step, and the other way round |
| Preview.NextDuringSearchBreaksCursor | src/MainWindow.xaml.cs:228-240 | a Next click between the reset and the new list moves the cursor from 0 to 1 on a two-page list, which is outside a one-page new list |
| Preview.PagePreview.constructor | src/MainWindow.xaml.cs:21-22 | the window starts with no pages-used list and the index at -1 |
| Preview.PagePreview.BeginQuestion | src/MainWindow.xaml.cs:228 | the question handler resets the cursor to 0 and keeps the old list |
| Preview.PagePreview.ShowPagesUsed | src/MainWindow.xaml.cs:240 | once the search is back the list becomes the pages used and the cursor stays; the cursor is valid exactly when it lies inside the new list (or is 0 for an empty one), so always when it is still 0 |
| Preview.PagePreview.Ask | src/MainWindow.xaml.cs:228-240 | with no click during the search, a question leaves the cursor at 0 on the new pages-used list, and the cursor is valid |
| Preview.PagePreview.Previous | src/MainWindow.xaml.cs:359-367 | the Previous handler steps the cursor back unless it is at 0, and keeps it valid |
| Preview.PagePreview.Next | src/MainWindow.xaml.cs:369-377 | the Next handler steps the cursor on unless it is at the last page, and keeps it valid |
| Preview.PagePreview.ButtonsEnabled | src/MainWindow.xaml.cs:341-352 | the enablement of the two buttons is that of `PreviousEnabled` and `NextEnabled`; in a valid state each button is enabled exactly when clicking it moves the cursor |

## Left out

- PDF reading: PdfPig is not part of this model. Each page is an input `PageText` holding its words already joined by single spaces, and its page number.
- Embedding, indexing and search (`RAGService`) are not part of this model. The search results are an input list of `TextChunk`.
- Rendering the page image (GemBox, `UpdatePdfImageAsync`), the file dialog, the search-box handlers and every WPF and Dispatcher update of the window are left out. The model keeps only the cursor state that those updates read.
- The progress estimate computed while indexing is left out, because it is floating-point arithmetic shown only as text.
- The shared cancellation slot `cts` is left out. While it is set, a second click on the ask button cancels the running answer and returns. The model covers one question at a time.
- Cancellation is modelled as one flag per loop turn (`Turn.cancelled`). It is not modelled as a token shared between threads. The cancellable delay's exception counts as a failed turn.
- The ONNX generator and tokenizer are not part of this model. Each loop turn receives, as an input, either a decoded part or a failure.
- Prompt tokenization is an input count (`promptTokens`). The generator's own stop at `max_length` is the budget `Budget(promptTokens)`. Whether the set-up calls before the loop throw is the input `setupFails`.
- `Dispose`, the `ModelLoaded` event, `Stopwatch` and `Debug` output are left out, because they carry no state the core reads.
- Generation.SlmRunner.Initialize: does not model a failing model load. Loading is a call into ONNX, which is not part of this model.
- Async interleaving between the UI thread and the generation task is left out. The answer text is modelled as the concatenation of the yielded parts.
- The regex engine is not modelled. Its two patterns are written out as `KeepPrintable` and `CollapsePeriods`.
- `Environment.NewLine` is the parameter `nl` of the prompt functions, because its value depends on the platform. The line ending of the raw string literals is the parameter `eol`, because it depends on how the source file was saved.
- Generation.SlmRunner.InferStreaming: the budget assumes that the generator is done once the sequence holds `max_length` tokens, and that it is done at once, yielding nothing, for a prompt of 1024 tokens or more. Whether ONNX instead throws at set-up for such a prompt is not part of this model. That case is the `setupFails` input.
- Generation.SlmRunner.InferStreaming: an exception from `generator.IsDone()` (line 52, outside the `try`) would reach the caller in the middle of the stream. It is not modelled, because the generator is not part of this model.
- Preview.PagePreview.Ask: the handler is atomic only when no button is clicked during the search. The two steps are `BeginQuestion` and `ShowPagesUsed`, and `NextDuringSearchBreaksCursor` shows what a click in between does. The page lookup that then fails is in `UpdatePdfImageAsync`, which is left out.
- `char.IsWhiteSpace` is written out as the fixed list of Unicode white-space characters that .NET uses, not as a lookup in the Unicode category tables.
