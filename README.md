# Lumi import pipeline, modelled in Dafny

Lumi turns tag-annotated Markdown/HTML renderings of academic papers into a
`LumiDoc`: a tree of sections whose content blocks hold sentence-level
spans, each with inner tags (bold, math, citations, concepts, footnotes,
span references, links) positioned by codepoint offsets. This project models
the annotation-preserving core of that pipeline and proves properties of it.
It has one Dafny module per source file:

- `ImportTags` and `BlockPatterns`: the inline tag table and the figure/image block patterns, each written as an explicit matcher (leftmost match, lazy groups, back-references).
- `ConvertLumiSpans`: the recursive tag parser that yields cleaned text plus positioned tags, and the span builder that clips tags into sentence windows.
- `Tokenize`: the math-aware sentence rejoin, with the sentence splitter as a parameter.
- `ConvertHtmlToLumi`, `ConvertListContent` and `HtmlTree`: the heading-stack section builder (a class), the placeholder-aware block splitter and the list builder, over an abstract HTML node tree.
- `LatexInlineCommand`: the cursor-based `LatexParser` (a class), definition discovery and removal, usage substitution and the ten-pass fixpoint.
- `LatexUtils`, `PosixPath` and `ImageUtils`: main-file selection, comment stripping, include inlining and target-path matching.
- `JsonUtils` and `StringUtils`: key-case conversion and arXiv id handling.
- `ExtractConcepts`, `PromptUtils` and `Summaries`: concept parsing and in-place annotation, document flattening, prompt formatting, label parsing and batching.
- `ImportPipeline` and `StoragePaths`: image collection, storage paths and figure placeholder replacement into a mutable placeholder map (a class).
- `Text`, `LumiDoc` and `Wrappers`: the supporting string helpers, the document datatypes, and `Option`/`Result`.

Loops in the source are methods with loop invariants, proved equal to
recursive specification functions. The properties are proved about those
functions. Calls into libraries and modules outside the core are function
parameters: the sentence splitter, HTML parsing and text extraction, the
Markdown helpers, `json.loads` and the file-system walk. The unique-id
supply is a counter threaded through the calls.

## Model

| member | source | states |
|---|---|---|
| Tokenize.MathTagsFilter | functions/import_pipeline/tokenize.py:44-49 | the filtered list holds exactly the tags of the input that are math or display math |
| Tokenize.RejoinSplitSentences | functions/import_pipeline/tokenize.py:26-99 | the loop returns `Rejoined` of its inputs: empty input gives nothing, no math tag gives the sentences unchanged, otherwise each found sentence absorbs the following ones while a math tag starting in it ends after it |
| Tokenize.MergeSentence | functions/import_pipeline/tokenize.py:70-94 | the loop over the math tags computes the merged sentence and the count of absorbed sentences that `MergeForTags` defines |
| Tokenize.RejoinFromFound | functions/import_pipeline/tokenize.py:57-97 | a sentence found in the text is emitted merged and the scan resumes after the sentences it absorbed, searching from its end |
| Tokenize.TokenizeSentences | functions/import_pipeline/tokenize.py:102-116 | the sentences are the splitter's sentences passed through the rejoin pass |
| Tokenize.RejoinFromShrinks | functions/import_pipeline/tokenize.py:57-97 | each visited input sentence yields at most one output sentence, and the loop adds output exactly when input remains |
| Tokenize.RejoinedShrinks | functions/import_pipeline/tokenize.py:41-99 | the rejoined list is never longer than the input, and it is empty exactly when the input is |
| Tokenize.FixedStepIsGroup | functions/import_pipeline/tokenize.py:70-97 | with the absorption resumed after the sentences already merged, each output sentence is the next run of input sentences joined by single spaces |
| Tokenize.RejoinFixedFromJoin | functions/import_pipeline/tokenize.py:57-97 | the corrected loop's output, joined by spaces, is the remaining input joined by spaces; it is no longer than the input, and empty exactly when nothing remains |
| Tokenize.RejoinedFixedPreservesText | functions/import_pipeline/tokenize.py:26-99 | the corrected rejoin neither loses nor repeats text: joining its output gives the joined input |
| Tokenize.RejoinRepeatsSentence | functions/import_pipeline/tokenize.py:85 | as written, a second crossing math tag restarts absorption at the next sentence, so `a. b. c.` becomes `a. b. b.`; the corrected rejoin gives `a. b. c.` |
| Tokenize.RejoinSplitMath | functions/import_pipeline/tokenize_test.py:34-55 | a formula the splitter cut in two is glued back into the sentence where it starts, and the following sentence stays separate |
| StringUtils.GetVersionedId | functions/shared/string_utils.py:22-28 | an empty version fails first, then an empty id; otherwise the result is the id, `v` and the version |
| StringUtils.GetIdAndVersion | functions/shared/string_utils.py:31-44 | no `v` fails as an invalid link; a success splits the string at its one `v` into two non-blank parts, neither holding a `v` |
| StringUtils.IdAndVersionOf | functions/shared/string_utils.py:31-44 | a non-blank, `v`-free id and version are read back from `id + "v" + version` |
| StringUtils.VersionedIdRoundTrip | functions/shared/string_utils.py:22-44 | building a versioned id and parsing it gives back the id and the version |
| StringUtils.IdAndVersionRoundTrip | functions/shared/string_utils.py:22-44 | parsing and then rebuilding gives back the string |
| StringUtils.IdAndVersionSucceedsIff | functions/shared/string_utils.py:31-44 | parsing succeeds exactly when the string has a single `v` with a non-blank part on each side, and it splits there |
| StringUtils.VersionedIdExample | functions/shared/string_utils_test.py:22-27 | `1706.03762` and `7` give `1706.03762v7`, which parses back |
| StringUtils.GetArxivVersionedId | functions/shared/string_utils.py:47-51 | fails exactly when the link does not start with `http://arxiv.org/abs/`; otherwise returns what follows the prefix |
| StringUtils.ArxivLinkRoundTrip | functions/shared/string_utils.py:47-51 | a link built from the prefix gives back what was appended |
| StringUtils.FenceMatchAt | functions/shared/string_utils.py:68-70 | a match of the lazy fenced-json pattern at `i` has its body between the opening tag and a closing fence inside the text |
| StringUtils.SearchFence | functions/shared/string_utils.py:70 | the search returns the match at the leftmost start, and none when no start matches |
| StringUtils.ExtractJsonFromDecorator | functions/shared/string_utils.py:54-74 | without a fenced json block the text comes back unchanged |
| StringUtils.FenceBodyIsLazy | functions/shared/string_utils.py:68 | the body holds no closing fence: it ends at the first one |
| StringUtils.FencedBody | functions/shared/string_utils.py:72-73 | a fenced body without backticks comes back stripped |
| StringUtils.FencedObject | functions/shared/string_utils_test.py:98-104 | a fenced JSON object comes back exactly |
| StringUtils.NoFenceUnchanged | functions/shared/string_utils.py:74 | text without a backtick is returned unchanged |
| StringUtils.UntaggedFenceUnchanged | functions/shared/string_utils_test.py:110-112 | a fence without the `json` tag does not match, and the text is returned unchanged |
| JsonUtils.Title | functions/shared/json_utils.py:30 | title-casing a component keeps its length |
| JsonUtils.SnakeToCamel | functions/shared/json_utils.py:23-30 | fails exactly when the key has a character other than an ASCII letter or `_` (allowing one final newline, as `$` does) |
| JsonUtils.Underscored | functions/shared/json_utils.py:41 | inserting underscores never shortens the key |
| JsonUtils.CamelToSnake | functions/shared/json_utils.py:32-41 | fails exactly on an invalid key; a result holds no upper-case letter |
| JsonUtils.UnderscoredLower | functions/shared/json_utils.py:41 | a lower-case word has no lower-upper pair, so the substitution leaves it alone |
| JsonUtils.UnderscoredBoundary | functions/shared/json_utils.py:41 | where a lower-case word meets an upper-case letter exactly one `_` is inserted |
| JsonUtils.LowerOfLower | functions/shared/json_utils.py:41 | `.lower()` leaves lower-case text alone |
| JsonUtils.TailRoundTrip | functions/shared/json_utils.py:30-41 | the underscore pass undoes the title-casing of the later components |
| JsonUtils.KeyRoundTrip | functions/shared/json_utils.py:23-41 | a key of lower-case words (inner words of two letters or more) comes back from snake to camel to snake |
| JsonUtils.SnakeToCamelOfWords | functions/shared/json_utils.py:27-30 | the camel form is the first component followed by the other components title-cased |
| JsonUtils.SingleLetterWordsMerge | functions/shared/json_utils.py:30-41 | a one-letter inner word is not recovered: `a_b_c` gives `aBC`, which gives `a_bc` |
| JsonUtils.LeadingUnderscore | functions/shared/json_utils_test.py:55 | `_first_name` becomes `FirstName` |
| JsonUtils.CapitalRun | functions/shared/json_utils_test.py:72 | `ItemID` becomes `item_id` |
| JsonUtils.EmptyKey | functions/shared/json_utils_test.py:57-70 | the empty key converts to itself both ways |
| JsonUtils.DictSet | functions/shared/json_utils.py:49 | after a dictionary assignment the key is present |
| JsonUtils.DictSetNew | functions/shared/json_utils.py:49 | a key not present yet is appended at the end |
| JsonUtils.ConvertJson | functions/shared/json_utils.py:43-53 | scalars come back unchanged, arrays stay arrays of the same length, objects stay objects |
| JsonUtils.ConvertItems | functions/shared/json_utils.py:51 | a converted array has one element per input element |
| JsonUtils.ItemsInOrder | functions/shared/json_utils.py:51 | element `n` of a converted array is element `n` converted |
| JsonUtils.ConvertKeys | functions/shared/json_utils.py:55-64 | any case name other than the two known ones fails |
| JsonUtils.CanonicalKeyRoundTrip | functions/shared/json_utils.py:23-41 | a canonical snake key converts to its camel form and back |
| JsonUtils.CamelInjective | functions/shared/json_utils.py:49 | distinct canonical keys have distinct camel forms, so no dictionary entry is overwritten |
| JsonUtils.CamelFresh | functions/shared/json_utils.py:49 | the camel form of the next key is not among the keys already converted |
| JsonUtils.JsonRoundTrip | functions/shared/json_utils.py:43-53 | converting a snake-shaped value to camel case and back gives the value back |
| JsonUtils.FieldsRoundTrip | functions/shared/json_utils.py:49 | the fields of a snake-shaped object convert to their camel forms in order |
| JsonUtils.FieldsBack | functions/shared/json_utils.py:49 | the camel fields convert back to the original fields |
| JsonUtils.ItemsRoundTrip | functions/shared/json_utils.py:51 | the elements of a snake-shaped array convert and convert back |
| JsonUtils.ConvertKeysRoundTrip | functions/shared/json_utils_test.py:79-86 | `convert_keys` with `snake_to_camel` then `camel_to_snake` gives a snake-shaped value back |
| JsonUtils.InvalidFirstKeyRejected | functions/shared/json_utils.py:25-49 | a dictionary whose first key is invalid is rejected in either direction |
| ImageUtils.NormalizeSeparators | functions/import_pipeline/image_utils.py:78-79 | the normalised path has the same length and no backslash left |
| ImageUtils.NormalizeIsReplace | functions/import_pipeline/image_utils.py:78-79 | the character-wise normalisation is the same as replacing every `\` by `/` |
| ImageUtils.NormalizeIdempotent | functions/import_pipeline/image_utils.py:78-79 | normalising twice is normalising once |
| ImageUtils.SearchFrom | functions/import_pipeline/image_utils.py:93 | the search succeeds exactly when the pattern matches at some start at or after the given one |
| ImageUtils.SeparatorsDoNotMatter | functions/import_pipeline/image_utils_test.py:75 | Windows and POSIX spellings of the same paths give the same answer |
| ImageUtils.MatchMeaning | functions/import_pipeline/image_utils.py:59-93 | the check holds exactly when the normalised target occurs at the start or after a `/`, followed by an optional extension (only when the target's base name has no `.`) and the end of the path |
| ImageUtils.ExtensionTargetEndsPath | functions/import_pipeline/image_utils.py:90-91 | a target with an extension matches only when it ends the path (up to the final newline `$` lets through), right after a `/` or at the start |
| ImageUtils.ExtensionNeedsDot | functions/import_pipeline/image_utils_test.py:96 | a target with an extension never matches a path without a `.` |
| ImageUtils.WholePathMatches | functions/import_pipeline/image_utils_test.py:71 | the target as the whole path matches |
| ImageUtils.TrailingComponentsMatch | functions/import_pipeline/image_utils_test.py:67-69 | the target as the last components of a path matches |
| ImageUtils.ExtensionMayFollow | functions/import_pipeline/image_utils_test.py:86-88 | a target without an extension matches the same file with any extension |
| ImageUtils.MatchGivesCheck | functions/import_pipeline/image_utils.py:93 | a match at any position makes the check true |
| PosixPath.PathJoin | functions/import_pipeline/latex_utils.py:58 | the joined path ends with the second part |
| PosixPath.Basename | functions/import_pipeline/image_utils.py:84 | the base name is no longer than the path |
| PosixPath.Dirname | functions/import_pipeline/latex_utils.py:124-125 | the directory name is no longer than the path |
| PosixPath.BasenameOfJoin | functions/import_pipeline/latex_utils.py:58-76 | the base name of a file joined under a directory is the file's own name |
| PosixPath.BasenameIsLastComponent | functions/import_pipeline/latex_utils.py:76 | the base name is the suffix after the last `/`, or the whole path |
| StoragePaths.FlatName | functions/import_pipeline/import_pipeline.py:284 | the flattened name holds no `/` |
| StoragePaths.StoragePath | functions/import_pipeline/import_pipeline.py:284-285 | the storage path starts with the file id and `/images/`, and has no `/` after that |
| StoragePaths.FlattenRoundTrip | functions/import_pipeline/import_pipeline.py:284 | a path without `_` is recovered from its flattened name |
| StoragePaths.StoragePathInjective | functions/import_pipeline/import_pipeline.py:284-285 | paths without `_` get distinct storage paths |
| StoragePaths.StoragePathsCollide | functions/import_pipeline/import_pipeline.py:284-285 | with `_` allowed, `a/b` and `a__b` are stored under the same path |
| LatexUtils.Candidates | functions/import_pipeline/latex_utils.py:54-67 | the candidates are among the walk's entries, in walk order: the `.tex` files whose text holds `\documentclass` |
| LatexUtils.Preferred | functions/import_pipeline/latex_utils.py:73-77 | the tie-breaker's list is drawn from the candidates |
| LatexUtils.PreferredEmpty | functions/import_pipeline/latex_utils.py:73-77 | the tie-breaker's list is empty exactly when no candidate is named `main.tex` or `ms.tex` |
| LatexUtils.PreferredOfUnique | functions/import_pipeline/latex_utils.py:73-79 | a single candidate with a preferred name makes the list that one path |
| LatexUtils.UniqueOfPreferred | functions/import_pipeline/latex_utils.py:73-79 | a list of one comes from a single candidate with a preferred name |
| LatexUtils.SelectMainMeaning | functions/import_pipeline/latex_utils.py:68-84 | no candidate is an error; one candidate is the root; among several, the root is the one path with a preferred name, and otherwise the choice fails as competing main files |
| LatexUtils.MainAndMsCompete | functions/import_pipeline/latex_utils.py:71-82 | `main.tex` and `ms.tex` together are competing main files |
| LatexUtils.FindMainTexFile | functions/import_pipeline/latex_utils.py:39-84 | the loop over the walk's entries gives the selection among the candidates that `SelectMain` specifies |
| LatexUtils.CandidateNamesAreFileNames | functions/import_pipeline/latex_utils.py:55-76 | a candidate entry is collected under its own path, and its base name is the file name the walk reported |
| LatexUtils.LineEnd | functions/import_pipeline/latex_utils.py:233 | the end of the line is the first newline at or after the position, or the end of the text |
| LatexUtils.SpaceRunEnd | functions/import_pipeline/latex_utils.py:225 | `\s*` stops at the first non-space character |
| LatexUtils.CommentLineAt | functions/import_pipeline/latex_utils.py:224-226 | a comment-line match ends just after a newline |
| LatexUtils.DropCommentLinesFrom | functions/import_pipeline/latex_utils.py:224-226 | removing comment lines never lengthens the text |
| LatexUtils.DropInlineCommentsFrom | functions/import_pipeline/latex_utils.py:232-234 | removing inline comments never lengthens the text |
| LatexUtils.InlinePassEscapes | functions/import_pipeline/latex_utils.py:232-234 | every `%` left by the inline pass is escaped by a backslash |
| LatexUtils.NoCommentSurvives | functions/import_pipeline/latex_utils.py:212-234 | after both passes no unescaped `%` is left |
| LatexUtils.InlinePassKeepsLines | functions/import_pipeline/latex_utils.py:228-234 | the inline pass keeps every newline, so the lines stay |
| LatexUtils.NoCommentLineUnchanged | functions/import_pipeline/latex_utils.py:224-226 | text with no comment line is left alone by the first pass |
| LatexUtils.NoPercentUnchanged | functions/import_pipeline/latex_utils.py:212-234 | text without `%` is left alone by comment removal |
| LatexUtils.NoInlineCommentUnchanged | functions/import_pipeline/latex_utils.py:232-234 | text without an unescaped `%` is left alone by the inline pass |
| LatexUtils.CommentLineExample | functions/import_pipeline/latex_utils.py:215-219 | a comment-only line goes with its newline; a line with text before its comment stays |
| LatexUtils.InlineCommentExample | functions/import_pipeline/latex_utils.py:228-231 | a trailing comment goes and its newline stays; an escaped `\%` stays |
| LatexUtils.CommentRemovalExample | functions/import_pipeline/latex_utils.py:212-234 | both passes on the example leave `a \nb \% c` |
| LatexUtils.BracedArg | functions/import_pipeline/latex_utils.py:137-139 | `(.*?)\}` captures the text up to the first `}` on the same line |
| LatexUtils.IncludeAt | functions/import_pipeline/latex_utils.py:139 | an include match starts with `\input{` or `\include{` |
| LatexUtils.BibliographyAt | functions/import_pipeline/latex_utils.py:166 | a bibliography match starts with `\bibliography{` |
| LatexUtils.WithTexSuffixMeaning | functions/import_pipeline/latex_utils.py:145-146 | the included path ends with `.tex`, is unchanged exactly when it already did, and extends the captured path |
| LatexUtils.NamesEndingWith | functions/import_pipeline/latex_utils.py:185-194 | the listed names kept are exactly those with the suffix |
| LatexUtils.InlineTex | functions/import_pipeline/latex_utils.py:120-122 | at depth zero or below the result is empty |
| LatexUtils.NoIncludeUnchanged | functions/import_pipeline/latex_utils.py:159 | text without include directives is copied by the include pass |
| LatexUtils.NoBibliographyUnchanged | functions/import_pipeline/latex_utils.py:210 | text without bibliography directives is copied by the bibliography pass |
| LatexUtils.PlainFileUnchanged | functions/import_pipeline/latex_utils.py:113-240 | a file without directives, with both options off, comes back as its own text, and an unreadable file as empty |
| LatexInlineCommand.SpaceEndMeaning | functions/import_pipeline/latex_inline_command.py:85-88 | skipping white space passes only spaces and stops at a non-space or the end |
| LatexInlineCommand.CloseFrom | functions/import_pipeline/latex_inline_command.py:98-121 | the closing brace found lies between the scan start and the end of the content |
| LatexInlineCommand.CloseFromMeaning | functions/import_pipeline/latex_inline_command.py:98-121 | the brace found is the first place where the nesting returns to zero; without one the group never closes |
| LatexInlineCommand.BracesMeaning | functions/import_pipeline/latex_inline_command.py:90-121 | a brace group parses exactly when an opening brace after white space is balanced later; the group is the text between the two braces and the cursor moves past the closing one; otherwise the cursor stays after the white space |
| LatexInlineCommand.BracketsMeaning | functions/import_pipeline/latex_inline_command.py:123-146 | a bracket group is the text up to the first `]`, without nesting, and fails when no `]` follows |
| LatexInlineCommand.AlphaEnd | functions/import_pipeline/latex_inline_command.py:165-170 | the run of letters is maximal |
| LatexInlineCommand.CommandNameMeaning | functions/import_pipeline/latex_inline_command.py:148-176 | a command name is a backslash and a maximal run of letters, or one character that is neither a letter nor a space, or nothing when a space follows |
| LatexInlineCommand.ParamScanMeaning | functions/import_pipeline/latex_inline_command.py:178-196 | the parameter scan stops at an unescaped `{`; every `{` it passes is escaped by a backslash |
| LatexInlineCommand.ParameterTextMeaning | functions/import_pipeline/latex_inline_command.py:178-196 | the parameter text ends at the brace that opens the body, which the cursor is left on; without such a brace the parse fails at the end |
| LatexInlineCommand.LatexParser.SkipSpace | functions/import_pipeline/latex_inline_command.py:85-88 | the cursor moves to the end of the white-space run |
| LatexInlineCommand.LatexParser.ParseBraces | functions/import_pipeline/latex_inline_command.py:90-121 | the loop returns the brace group and leaves the cursor where `BracesAt` says |
| LatexInlineCommand.LatexParser.ParseBrackets | functions/import_pipeline/latex_inline_command.py:123-146 | the loop returns the bracket group and leaves the cursor where `BracketsAt` says |
| LatexInlineCommand.LatexParser.ParseCommandName | functions/import_pipeline/latex_inline_command.py:148-176 | the loop returns the command name and leaves the cursor where `CommandNameAt` says |
| LatexInlineCommand.LatexParser.ParseParameterText | functions/import_pipeline/latex_inline_command.py:178-196 | the loop returns the parameter text and leaves the cursor where `ParameterTextAt` says |
| LatexInlineCommand.ParseIntOfNat | functions/import_pipeline/latex_inline_command.py:306 | `int()` reads a written count back as that count |
| LatexInlineCommand.ParseIntOfNegated | functions/import_pipeline/latex_inline_command.py:306 | `int()` reads a minus sign and a count as the negated count |
| LatexInlineCommand.ArityIsMax | functions/import_pipeline/latex_inline_command.py:224-237 | a `\def` takes as many arguments as the highest `#1`..`#9` in its parameter text: at most nine, every reference covered, the highest attained |
| LatexInlineCommand.CountArgs | functions/import_pipeline/latex_inline_command.py:224-237 | the counting loop computes that arity |
| LatexInlineCommand.EarliestDefMeaning | functions/import_pipeline/latex_inline_command.py:204-208 | the keyword loop keeps the earliest occurrence, the first keyword winning a tie, and finds none exactly when no keyword occurs |
| LatexInlineCommand.NextCommandDef | functions/import_pipeline/latex_inline_command.py:199-212 | a hit is a supported keyword occurring at the reported index |
| LatexInlineCommand.NextCommandDefIsLeftmost | functions/import_pipeline/latex_inline_command.py:199-212 | no keyword occurs before the hit, and there is no hit exactly when no keyword occurs from the start position on |
| LatexInlineCommand.FindNextCommandDef | functions/import_pipeline/latex_inline_command.py:199-212 | the loop over the keywords returns the leftmost hit |
| LatexInlineCommand.BodyStart | functions/import_pipeline/latex_inline_command.py:265-273 | the parser starts just after the keyword, or one further past a `*` |
| LatexInlineCommand.DefStyleShape | functions/import_pipeline/latex_inline_command.py:215-240 | a parsed `\def` has a name starting with a backslash and at most nine arguments |
| LatexInlineCommand.GetCommandFromDefStyle | functions/import_pipeline/latex_inline_command.py:215-240 | the method parses the name, the parameter text and the body as `DefStyleAt` specifies, and moves the cursor accordingly |
| LatexInlineCommand.DefStepAt | functions/import_pipeline/latex_inline_command.py:282-291 | a `\def` that fails to parse leaves the index on the keyword (as written) or past it (corrected) |
| LatexInlineCommand.NewCommandStepAt | functions/import_pipeline/latex_inline_command.py:292-319 | a `\newcommand`-style definition without a braced name or body is skipped past its keyword; a count that is not a number counts as 0 |
| LatexInlineCommand.DefinitionAt | functions/import_pipeline/latex_inline_command.py:259-323 | one round of the scan either moves the index forward or, for a nameless `\def`, stays stuck |
| LatexInlineCommand.DefinitionsAgree | functions/import_pipeline/latex_inline_command.py:244-325 | wherever the scan as written terminates it finds the same commands as the corrected scan |
| LatexInlineCommand.NamelessDefHangs | functions/import_pipeline/latex_inline_command.py:285-288 | `\defx` makes the scan as written loop for ever; the corrected scan finds no definition |
| LatexInlineCommand.NoKeywordNoDefinitions | functions/import_pipeline/latex_inline_command.py:259-262 | content without a definition keyword defines no command |
| LatexInlineCommand.ParseDefStyle | functions/import_pipeline/latex_inline_command.py:282-291 | the `\def` branch gives the step `DefStepAt` specifies |
| LatexInlineCommand.ParseNewCommandStyle | functions/import_pipeline/latex_inline_command.py:292-319 | the `\newcommand` branch gives the step `NewCommandStepAt` specifies |
| LatexInlineCommand.ParseDefinitionAt | functions/import_pipeline/latex_inline_command.py:260-323 | one round of the loop gives the step `DefinitionAt` specifies |
| LatexInlineCommand.FindAndParseCommands | functions/import_pipeline/latex_inline_command.py:244-325 | the loop returns the commands the corrected scan finds |
| LatexInlineCommand.ArgsFrom | functions/import_pipeline/latex_inline_command.py:385-390 | the required-argument loop appends exactly the requested number of groups |
| LatexInlineCommand.UsageArgs | functions/import_pipeline/latex_inline_command.py:370-390 | a usage has as many arguments as the command takes; with a default, the first is the bracketed argument or else the default |
| LatexInlineCommand.UsageAt | functions/import_pipeline/latex_inline_command.py:356-397 | a usage starts at the occurrence and ends at or after the name |
| LatexInlineCommand.UsageFrom | functions/import_pipeline/latex_inline_command.py:350-397 | a usage found lies at or after the start index; a non-empty name never raises |
| LatexInlineCommand.UsageRaises | functions/import_pipeline/latex_inline_command.py:352-358 | an empty name raises exactly when the search starts inside the content |
| LatexInlineCommand.UsageFromSkips | functions/import_pipeline/latex_inline_command.py:352 | the positions before the next occurrence change nothing, so jumping there with `find` is sound |
| LatexInlineCommand.UsageFromFound | functions/import_pipeline/latex_inline_command.py:328-397 | the usage found is a usable occurrence, and none is found exactly when no occurrence from the start index is usable |
| LatexInlineCommand.UsageFromMeaning | functions/import_pipeline/latex_inline_command.py:328-397 | the usage found is the leftmost usable occurrence: not the prefix of a longer name, with all its arguments, ending where they end |
| LatexInlineCommand.FindCommandUsage | functions/import_pipeline/latex_inline_command.py:328-397 | the `find`-based loop returns what the one-position-at-a-time search `UsageFrom` returns |
| LatexInlineCommand.ParseUsageAt | functions/import_pipeline/latex_inline_command.py:356-397 | the test of one occurrence gives `UsageAt` |
| LatexInlineCommand.ParseUsageArgs | functions/import_pipeline/latex_inline_command.py:370-390 | the argument parsing gives `UsageArgs` |
| LatexInlineCommand.ParseRequiredArgs | functions/import_pipeline/latex_inline_command.py:385-390 | the required-argument loop gives `ArgsFrom` |
| LatexInlineCommand.ExpandWithoutPlaceholders | functions/import_pipeline/latex_inline_command.py:429-432 | a definition without `#` is the same whatever the arguments |
| LatexInlineCommand.ExpandIsSequential | functions/import_pipeline/latex_inline_command.py:430-432 | substitution is sequential: an argument `#2` put in for `#1` is then replaced by the second argument |
| LatexInlineCommand.ReplaceFromRaises | functions/import_pipeline/latex_inline_command.py:416-417 | replacement raises exactly for an empty name on non-empty content |
| LatexInlineCommand.ReplaceWithoutUsage | functions/import_pipeline/latex_inline_command.py:418-421 | content in which the name does not occur comes back unchanged |
| LatexInlineCommand.ReplaceFromStep | functions/import_pipeline/latex_inline_command.py:416-436 | one round copies the text before the usage, appends the expanded definition and resumes after the usage; with no usage the rest is copied |
| LatexInlineCommand.SubstituteArgs | functions/import_pipeline/latex_inline_command.py:429-432 | the substitution loop gives `Expand` |
| LatexInlineCommand.ReplaceCommandUsages | functions/import_pipeline/latex_inline_command.py:400-438 | the loop gives `ReplaceFrom` from the start |
| LatexInlineCommand.DefinitionEnd | functions/import_pipeline/latex_inline_command.py:469-474 | a definition that parses ends after its keyword, a `*` after any keyword being skipped |
| LatexInlineCommand.DefStyleEnd | functions/import_pipeline/latex_inline_command.py:476-490 | a `\def` is skipped by its name, its parameter text and its body |
| LatexInlineCommand.NewCommandEnd | functions/import_pipeline/latex_inline_command.py:492-509 | the other keywords are skipped by a braced name, two optional bracket groups and a body |
| LatexInlineCommand.RemoveFrom | functions/import_pipeline/latex_inline_command.py:455-514 | removing definitions never lengthens the content |
| LatexInlineCommand.RemoveWithoutKeywords | functions/import_pipeline/latex_inline_command.py:459-463 | content without definition keywords is left as it is |
| LatexInlineCommand.RemoveFromStep | functions/import_pipeline/latex_inline_command.py:465-512 | one round keeps the text before the keyword and resumes after the definition, or after the keyword alone when the definition does not parse |
| LatexInlineCommand.SkipDefinition | functions/import_pipeline/latex_inline_command.py:469-509 | the skipping code gives `DefinitionEnd` |
| LatexInlineCommand.SkipDefStyle | functions/import_pipeline/latex_inline_command.py:476-490 | the `\def` skipping gives `DefStyleEnd` |
| LatexInlineCommand.SkipNewCommandStyle | functions/import_pipeline/latex_inline_command.py:492-509 | the `\newcommand` skipping gives `NewCommandEnd` |
| LatexInlineCommand.RemoveCustomDefinitions | functions/import_pipeline/latex_inline_command.py:441-514 | the loop gives `RemoveFrom` from the start |
| LatexInlineCommand.PassesBounded | functions/import_pipeline/latex_inline_command.py:544-552 | the passes stop at a fixpoint or after ten: the result is some `k <= n` plain passes, and unless `k == n` another pass changes nothing |
| LatexInlineCommand.PassWithNamedCommands | functions/import_pipeline/latex_inline_command.py:547-548 | commands with non-empty names never make a pass raise |
| LatexInlineCommand.PassesWithNamedCommands | functions/import_pipeline/latex_inline_command.py:544-552 | nor the whole fixpoint loop |
| LatexInlineCommand.InlineUnchangedOrStripped | functions/import_pipeline/latex_inline_command.py:536-554 | content without definition keywords comes back unchanged and unstripped; content that defines something comes back stripped |
| LatexInlineCommand.ReplaceAllCommands | functions/import_pipeline/latex_inline_command.py:547-548 | the inner loop over the commands gives one `Pass` |
| LatexInlineCommand.PassesStep | functions/import_pipeline/latex_inline_command.py:545-552 | a pass that changes nothing stops the loop; a pass that changes the text leaves one pass fewer |
| LatexInlineCommand.RunPasses | functions/import_pipeline/latex_inline_command.py:544-552 | the fixpoint loop gives `Passes` with at most ten passes |
| LatexInlineCommand.InlineCustomCommands | functions/import_pipeline/latex_inline_command.py:517-554 | the method gives `Inline`: definitions found by the corrected scan, removed, then usages replaced to a fixpoint and the result stripped |
| LatexInlineCommand.ExampleFirstHit | functions/import_pipeline/latex_inline_command_test.py:97-100 | in `\newcommand{\R}{\mathbb{R}}$\R$` the scan first hits `\newcommand` at 0 |
| LatexInlineCommand.ExampleDefinition | functions/import_pipeline/latex_inline_command_test.py:97-100 | the definition there is `\R`, no arguments, body `\mathbb{R}`, ending where `$\R$` begins |
| LatexInlineCommand.ExampleScan | functions/import_pipeline/latex_inline_command_test.py:97-100 | the scan finds that one command, and removing definitions leaves `$\R$` |
| LatexInlineCommand.ExamplePasses | functions/import_pipeline/latex_inline_command_test.py:97-100 | the first pass replaces the use of `\R`, the second changes nothing, so the passes stop |
| LatexInlineCommand.InlineExample | functions/import_pipeline/latex_inline_command_test.py:97-100 | `\newcommand{\R}{\mathbb{R}}$\R$` inlines to `$\mathbb{R}$` |
| ImportTags.Metadata | functions/shared/import_tags.py:219-287 | a row's metadata holds exactly its one key (`id` or `href`) bound to the matched group, or nothing for the rows without an extractor key |
| ImportTags.MathCloseFrom | functions/shared/import_tags.py:217 | the closing `$` is the first unescaped `$` after the opening one |
| ImportTags.DisplayCloseFrom | functions/shared/import_tags.py:213-215 | the closing `$$` is the first unescaped `$$` after the opening one |
| ImportTags.ConceptTry | functions/shared/import_tags.py:115-117 | a concept match starts at the marker, and its content is shorter than the match |
| ImportTags.AnchorTry | functions/shared/import_tags.py:241-245 | an anchor match starts at `<a href="`, and its content is shorter than the match |
| ImportTags.MatchAt | functions/shared/import_tags.py:83-217 | an anchored match starts at the given position and ends inside the text, and its content is shorter than the match |
| ImportTags.Search | functions/import_pipeline/convert_lumi_spans.py:48 | `pattern.search(s, pos)` returns the match at the leftmost start at or after `pos` |
| ImportTags.TableIsValid | functions/shared/import_tags.py:219-287 | the table has thirteen rows, each a well-formed pattern |
| ImportTags.EarliestTagCorrect | functions/import_pipeline/convert_lumi_spans.py:46-52 | the pick is the leftmost match over all rows, the earlier row winning a tie, and there is none exactly when no row matches |
| ImportTags.EarliestTagMatches | functions/import_pipeline/convert_lumi_spans.py:46-52 | the pick is a real match of its row, at or after the position |
| ImportTags.FindEarliest | functions/import_pipeline/convert_lumi_spans.py:43-52 | the loop over the rows finds the pick `EarliestTag` specifies; a row replaces the pick only when it starts strictly earlier; exactly the marker rows have no content |
| ImportTags.MatchContent | functions/import_pipeline/convert_lumi_spans.py:66-68 | exactly the marker patterns have no `content` group |
| ImportTags.NoTagInEmpty | functions/import_pipeline/convert_lumi_spans.py:42 | nothing matches in an empty string |
| ImportTags.ConceptTryHit | functions/shared/import_tags.py:113-117 | with `]]` after the candidate id and a closing marker with that id later, the lazy id stops there |
| ImportTags.ConceptTryMiss | functions/shared/import_tags.py:113-117 | otherwise the lazy id grows by one character |
| ImportTags.ConceptMatchIsBalanced | functions/shared/import_tags.py:113-117 | a concept tag matches only between an opening and a closing marker carrying the same id |
| ImportTags.MarkerRowsHaveNoContent | functions/shared/import_tags.py:119-131 | citation, footnote-marker and span-reference matches carry no inner text |
| ImportTags.ContentRowsHaveContent | functions/shared/import_tags.py:219-287 | every other row's match has a content group |
| ImportTags.InlineMathDelimiters | functions/shared/import_tags.py:217 | inline math opens and closes on an unescaped `$`, and its content holds no unescaped `$` |
| ImportTags.EscapedDollarOpensNothing | functions/shared/import_tags.py:213-217 | an escaped `\$` never opens inline or display math |
| ImportTags.NoMatchInPlainText | functions/shared/import_tags.py:83-217 | without `[`, `<` and an unescaped `$`, no pattern of the table matches |
| ImportTags.PlainTextHasNoTag | functions/import_pipeline/convert_lumi_spans.py:46-52 | text with no `[`, no `<` and no unescaped `$` holds no tag |
| ImportTags.DisplayMathDelimiters | functions/shared/import_tags.py:213-215 | display math opens and closes on an unescaped `$$` |
| ImportTags.DisplayShadowsInline | functions/shared/import_tags.py:213-217 | wherever display math matches, inline math matches at the same start as the empty formula `$$` |
| ImportTags.EarliestPrefersDisplay | functions/shared/import_tags.py:277-286 | the parser never picks inline math where display math starts, because the display row comes first in the table |
| BlockPatterns.SkipSpaces | functions/shared/import_tags.py:150-160 | the `\s*` before a caption stops at the first non-space |
| BlockPatterns.WithCaption | functions/shared/import_tags.py:150-211 | a block with its optional caption starts where the block does, keeps its id and body, and is the text it spans |
| BlockPatterns.BodyMatchFrom | functions/shared/import_tags.py:150-211 | a block with a body is the shortest one whose closing marker carries the same id |
| BlockPatterns.BlockAt | functions/shared/import_tags.py:150-211 | a block match starts with the opening marker and is the text it spans |
| BlockPatterns.NextMatch | functions/import_pipeline/import_pipeline.py:348-356 | the next match starts at or after the position and is the match there |
| BlockPatterns.NextMatchLeftmost | functions/import_pipeline/import_pipeline.py:348-356 | no match starts before the one found, and none at all when nothing is found |
| BlockPatterns.ScanFrom | functions/import_pipeline/import_pipeline.py:348-356 | a scan has one more literal than hits |
| BlockPatterns.ScanCoversInput | functions/import_pipeline/import_pipeline.py:348-356 | putting the matched texts back between the literals gives the input |
| BlockPatterns.ScanHitsAreMatches | functions/import_pipeline/import_pipeline.py:318 | every hit is a match of the pattern where it starts |
| BlockPatterns.ScanHitsInOrder | functions/import_pipeline/import_pipeline.py:318 | the hits do not overlap and come in input order |
| BlockPatterns.ScanSkipsNoMatch | functions/import_pipeline/import_pipeline.py:348-356 | no match starts inside the literal before the first hit |
| ConvertLumiSpans.IdsAllocatedIncreasing | functions/import_pipeline/convert_lumi_spans.py:84-94 | the ids of sibling tags strictly increase, so top-level ids are distinct |
| ConvertLumiSpans.WellFormedStartsBeforeEnds | functions/import_pipeline/convert_lumi_spans.py:63-91 | every tag's start comes before its end |
| ConvertLumiSpans.ParseTextAndExtractInnerTags | functions/import_pipeline/convert_lumi_spans.py:31-104 | the loop returns `Parse` of the raw text: the cleaned text is never longer, no tag is found exactly when no row matches and then the text is unchanged, and the tags are well formed, in text order, with ids from the supply |
| ConvertLumiSpans.ParseStep | functions/import_pipeline/convert_lumi_spans.py:54-96 | one iteration appends one tag after the text before the match and keeps the tags well formed |
| ConvertLumiSpans.TakenRecords | functions/import_pipeline/convert_lumi_spans.py:55-94 | taking a match appends the text before it and the recursively cleaned content, and records the tag with its row's name and metadata, its extent and the content's tags as children |
| ConvertLumiSpans.ParseLoopTakes | functions/import_pipeline/convert_lumi_spans.py:54-96 | the loop resumes after the end of the earliest match |
| ConvertLumiSpans.ParseMeaning | functions/import_pipeline/convert_lumi_spans.py:31-104 | the tags are the earliest matches of the loop, one each and in order: each carries its row's name and metadata, spans the recursively cleaned content of its match, and holds that content's tags as children |
| ConvertLumiSpans.ParseLoopMeaning | functions/import_pipeline/convert_lumi_spans.py:42-102 | the loop keeps what was taken so far as a prefix and records each later match in order |
| ConvertLumiSpans.TakenShape | functions/import_pipeline/convert_lumi_spans.py:76-94 | each match appends one tag, extends the cleaned text and draws the next id |
| ConvertLumiSpans.ParsedTagsSnoc | functions/import_pipeline/convert_lumi_spans.py:55-94 | the tag appended after the text before the match keeps the tags well formed and in order, with their ids allocated |
| ConvertLumiSpans.BuildTag | functions/import_pipeline/convert_lumi_spans.py:63-94 | the tag is named by its row, spans its cleaned content (shorter than the match) and draws a fresh id after its children's |
| ConvertLumiSpans.RowShape | functions/shared/import_tags.py:219-287 | marker rows have no content group; concept and marker rows record `id`, the anchor row `href`, the others nothing |
| ConvertLumiSpans.AdjustTagsForSentence | functions/import_pipeline/convert_lumi_spans.py:199-237 | the loop gives `Adjusted`: every tag touching the sentence, at every depth, clamped to it and counted from its start |
| ConvertLumiSpans.AdjustedIds | functions/import_pipeline/convert_lumi_spans.py:213-217 | a tag lands in a sentence exactly when it touches it |
| ConvertLumiSpans.AdjustedWithinSentence | functions/import_pipeline/convert_lumi_spans.py:220-226 | every adjusted position lies within the sentence |
| ConvertLumiSpans.AdjustedInside | functions/import_pipeline/convert_lumi_spans.py:220-226 | a tag wholly inside the sentence keeps its extent, shifted to count from the sentence start |
| ConvertLumiSpans.AdjustedChildrenAreSentenceRelative | functions/import_pipeline/convert_lumi_spans.py:228-235 | children come out relative to the sentence, not to their parent |
| ConvertLumiSpans.LocateInOrder | functions/import_pipeline/convert_lumi_spans.py:145-175 | the located sentences occur at their positions, in order and without overlap, each one of the tokenizer's sentences |
| ConvertLumiSpans.PlacedIdsTouch | functions/import_pipeline/convert_lumi_spans.py:162-164 | a tag is recorded as processed exactly when it touches one of the sentences |
| ConvertLumiSpans.UnplacedExactly | functions/import_pipeline/convert_lumi_spans.py:177-194 | exactly the tags placed in no sentence come back, with position `[0,0]` and no children |
| ConvertLumiSpans.CreateLumiSpans | functions/import_pipeline/convert_lumi_spans.py:107-196 | the spans carry the pieces `Pieces` defines, with ids drawn in order from the supply |
| ConvertLumiSpans.SentenceSpans | functions/import_pipeline/convert_lumi_spans.py:145-175 | the sentence loop locates the sentences, builds one span per located sentence and records the ids placed |
| ConvertLumiSpans.LocateFromMiss | functions/import_pipeline/convert_lumi_spans.py:153-155 | a sentence not found is skipped |
| ConvertLumiSpans.LocateFromHit | functions/import_pipeline/convert_lumi_spans.py:150-175 | a sentence found adds its window and the search resumes after it |
| ConvertLumiSpans.SentenceStep | functions/import_pipeline/convert_lumi_spans.py:148-175 | one located sentence adds its span and its placed ids |
| ConvertLumiSpans.AppendUnplacedSpans | functions/import_pipeline/convert_lumi_spans.py:177-194 | the tag loop adds one empty span per tag placed in no sentence |
| ConvertLumiSpans.NoTagLost | functions/import_pipeline/convert_lumi_spans.py:117-196 | every top-level tag is among the tags of some span |
| ConvertLumiSpans.PiecesWithinSentences | functions/import_pipeline/convert_lumi_spans.py:145-196 | the spans are the located sentences, each with its tags within it, followed by at most one empty span per tag |
| ConvertLumiSpans.SentenceThenUnplaced | functions/import_pipeline/convert_lumi_spans.py:166-194 | sentence spans carry tags within their sentences; the trailing spans are empty, with one cleared tag each |
| ConvertLumiSpans.ParseUntagged | functions/import_pipeline/convert_lumi_spans.py:97-102 | text in which no tag is found is its own cleaned text, and no id is drawn |
| ConvertLumiSpans.PiecesOneSentence | functions/import_pipeline/convert_lumi_spans.py:145-175 | untagged, non-blank text that the tokenizer keeps whole is one span with no tags |
| ConvertLumiSpans.EscapedDollarsExample | functions/shared/import_tags.py:213-217 | `\$1+\$2` opens no math: it is its own cleaned text and yields exactly one span without tags |
| ConvertLumiSpans.ExampleTwoWindows | functions/import_pipeline/convert_lumi_spans.py:150-152 | the sentences `Ab.` and `Cd.` are located at 0 and 4 of `Ab. Cd.` |
| ConvertLumiSpans.TagAcrossSentencesExample | functions/import_pipeline/convert_lumi_spans.py:117-118 | a bold tag over `b. C` in `Ab. Cd.` appears in both sentence spans, clamped to `[1,3]` and `[0,1]` |
| HtmlTree.Walk | functions/import_pipeline/convert_html_to_lumi.py:84 | the walk of the document visits every given node, each followed by its descendants |
| HtmlTree.WalkDescendantsFollow | functions/import_pipeline/convert_html_to_lumi.py:84-158 | in the walk every node is followed at once by all of its descendants, in order, which is what marking the descendants as visited skips |
| ConvertHtmlToLumi.HeadingOfLevel | functions/import_pipeline/convert_html_to_lumi.py:86-87 | `h` followed by the digits of `k` is a heading of level `k` |
| ConvertHtmlToLumi.NotHeadings | functions/import_pipeline/convert_html_to_lumi.py:86 | `h`, `hr`, `header` and `h2a` are not headings |
| ConvertHtmlToLumi.ContentTagIsNoHeading | functions/import_pipeline/convert_html_to_lumi.py:48-49 | the content tags are not headings |
| ConvertHtmlToLumi.KeptSplits | functions/import_pipeline/convert_html_to_lumi.py:100-104 | on an increasing stack, popping while the top's level is at least the new level removes exactly those sections |
| ConvertHtmlToLumi.SpineOfIncreasing | functions/import_pipeline/convert_html_to_lumi.py:96-117 | the levels along the rightmost path of a nested section strictly increase, so that path is the stack of open sections |
| ConvertHtmlToLumi.NestedAttach | functions/import_pipeline/convert_html_to_lumi.py:106-117 | attaching a section below the surviving top keeps sub-sections deeper than their parents |
| ConvertHtmlToLumi.CountAttach | functions/import_pipeline/convert_html_to_lumi.py:106-114 | attaching adds exactly one section |
| ConvertHtmlToLumi.AttachKeepsFirst | functions/import_pipeline/convert_html_to_lumi.py:106-114 | the first section of an empty forest becomes its only root, and later ones never change the first root's heading |
| ConvertHtmlToLumi.AddToDeepestKeepsShape | functions/import_pipeline/convert_html_to_lumi.py:134-152 | adding contents changes neither the shape nor the levels, and extends exactly the deepest open section's contents |
| ConvertHtmlToLumi.ForestSnoc | functions/import_pipeline/convert_html_to_lumi.py:96-117 | the independent outline-to-forest definition agrees with the stack algorithm: a heading goes below the deepest open section of a lower level, or becomes a new root |
| ConvertHtmlToLumi.ForestAddLast | functions/import_pipeline/convert_html_to_lumi.py:134-152 | contents added after a heading go to that heading's section, the deepest on the rightmost path |
| ConvertHtmlToLumi.ForestOneTree | functions/import_pipeline/convert_html_to_lumi.py:96-117 | headings all deeper than the first nest under it |
| ConvertHtmlToLumi.SectionBuilder.OpenSection | functions/import_pipeline/convert_html_to_lumi.py:86-117 | a heading pops every open section of a level at least its own, attaches the new section below the remaining top or as a new root, and pushes it |
| ConvertHtmlToLumi.SectionBuilder.AddContents | functions/import_pipeline/convert_html_to_lumi.py:134-152 | contents are appended to the section on top of the stack; nothing else changes |
| ConvertHtmlToLumi.ProcessedOnce | functions/import_pipeline/convert_html_to_lumi.py:120-158 | as written, each converted block is a content tag converted once, and never one equal to an earlier converted block or to one of its descendants |
| ConvertHtmlToLumi.ProcessedByPositionCovers | functions/import_pipeline/convert_html_to_lumi.py:120-158 | marking by position, every content tag is converted or lies inside a converted block, and converted blocks never overlap |
| ConvertHtmlToLumi.EqualParagraphSkipped | functions/import_pipeline/convert_html_to_lumi.py:82-158 | two equal paragraphs: the value-compared visited set skips the second; by position both are converted |
| ConvertHtmlToLumi.BlocksConvertedMeaning | functions/import_pipeline/convert_html_to_lumi.py:135-152 | every converted block yields the contents its kind prescribes |
| ConvertHtmlToLumi.ConvertBlock | functions/import_pipeline/convert_html_to_lumi.py:135-152 | a text tag is cut at its placeholders, a list becomes one list content |
| ConvertHtmlToLumi.VisitNode | functions/import_pipeline/convert_html_to_lumi.py:84-158 | a heading opens a section; a content tag not yet visited is converted into the current section (after a level-1 section without heading text when none is open) and it and its descendants are marked visited |
| ConvertHtmlToLumi.VisitContentTag | functions/import_pipeline/convert_html_to_lumi.py:121-152 | a content tag's block goes to the current section, opened first at level 1 without heading text when none is open; the entries gain that block as the outline prescribes |
| ConvertHtmlToLumi.ConvertToLumiSections | functions/import_pipeline/convert_html_to_lumi.py:53-160 | the sections are the forest of the document's outline: each heading in document order nests below the last shallower heading, each converted block's contents go to the last section opened before it, one section per heading plus a default `Heading(1, "")` section when content comes first, and none for a document without headings or content tags |
| ConvertHtmlToLumi.OutlineExample | functions/import_pipeline/convert_html_to_lumi_test.py:110-130 | in h1, p, h2, p, h1 each paragraph's contents go to the heading before it |
| ConvertHtmlToLumi.ForestExample | functions/import_pipeline/convert_html_to_lumi_test.py:110-130 | the h2 section nests under the first h1 and the second h1 starts a new top-level section |
| ConvertHtmlToLumi.SectionsExample | functions/import_pipeline/convert_html_to_lumi_test.py:110-130 | the sections of h1, p, h2, p, h1 |
| ConvertHtmlToLumi.PlaceholderEndAt | functions/import_pipeline/convert_html_to_lumi.py:181-183 | a placeholder match runs from the prefix to the first suffix after it |
| ConvertHtmlToLumi.NextPlaceholder | functions/import_pipeline/convert_html_to_lumi.py:186 | `finditer` takes the leftmost placeholder at or after the position |
| ConvertHtmlToLumi.SegmentsRebuildText | functions/import_pipeline/convert_html_to_lumi.py:185-216 | the segments spell out the text in order with nothing lost, each placeholder segment a whole placeholder on one line |
| ConvertHtmlToLumi.SegmentsAroundPlaceholder | functions/import_pipeline/convert_html_to_lumi_test.py:1481 | text, one placeholder, text is cut into exactly those three segments |
| ConvertHtmlToLumi.AssembledPlaceholdersOnly | functions/import_pipeline/convert_html_to_lumi.py:208-210 | placeholders with nothing between them give exactly the mapped contents, in order, unknown keys dropped |
| ConvertHtmlToLumi.TextSegmentContent | functions/import_pipeline/convert_html_to_lumi.py:188-205 | text between placeholders becomes one text content when it is not blank and spans come out of it; its spans are those of the text, and its id is drawn after theirs |
| ConvertHtmlToLumi.ParseHtmlBlock | functions/import_pipeline/convert_html_to_lumi.py:163-232 | blank text gives nothing; otherwise the equation placeholders are substituted and the text is cut at the content placeholders, each text segment becoming the text content of its spans and each known placeholder its mapped content |
| ConvertHtmlToLumi.ConvertRawOutputToSpans | functions/import_pipeline/convert_html_to_lumi.py:235-253 | no node gives no spans; otherwise the spans are those of the first node's text, none for blank untagged text, one untouched span when tokenizing is skipped |
| ConvertListContent.ListItemsOf | functions/import_pipeline/convert_list_content.py:57 | the items are direct `li` children |
| ConvertListContent.FirstList | functions/import_pipeline/convert_list_content.py:65 | the sub-list is taken from the first child that is a list |
| ConvertListContent.GetListContentFromTag | functions/import_pipeline/convert_list_content.py:44-110 | a non-list gives nothing; a list gives one list content whose items are its `li` children, each with the spans of its text and its first nested list, the id drawn after the items' |
| ConvertListContent.BuildListItem | functions/import_pipeline/convert_list_content.py:57-100 | one item: the first nested list becomes the sub-list, `p` children are unwrapped, and the spans are those of the rest of the text |
| ConvertListContent.ItemSpans | functions/import_pipeline/convert_list_content.py:79-96 | the item's spans are those of its text after extracting inline tags, none when it is blank and untagged |
| ConvertListContent.FirstListUnique | functions/import_pipeline/convert_list_content.py:62-70 | the first list is the list with no list before it |
| ExtractConcepts.ConceptId | functions/models/extract_concepts.py:57 | a parsed concept's id is `concept-` followed by the decimal digits of its position |
| ExtractConcepts.ConceptIdInjective | functions/models/extract_concepts.py:54-57 | concepts at different positions receive different ids |
| ExtractConcepts.ParseLumiConcepts | functions/models/extract_concepts.py:50-64 | no answer or an empty concept list gives `[]`; otherwise one Lumi concept per extracted concept, in order, with id `concept-i`, the same name and contents and no in-text citations |
| ExtractConcepts.ParsedIdsDistinct | functions/models/extract_concepts.py:54-62 | the ids of the parsed concepts are pairwise distinct |
| ExtractConcepts.Step | functions/models/extract_concepts.py:115 | the search after a match resumes at least one character on and no earlier than the match's end |
| ExtractConcepts.Occurrences | functions/models/extract_concepts.py:114-115 | every reported match start lies at or after the search origin |
| ExtractConcepts.OccurrencesSound | functions/models/extract_concepts.py:114-115 | every reported start is a case-insensitive whole-word occurrence of the concept name |
| ExtractConcepts.OccurrencesSpaced | functions/models/extract_concepts.py:115 | reported matches do not overlap: each begins at or after the end of the previous one |
| ExtractConcepts.OccurrencesComplete | functions/models/extract_concepts.py:114-115 | every whole-word occurrence after the origin is reported or overlaps a reported match |
| ExtractConcepts.NoMatchNoOccurrence | functions/models/extract_concepts.py:115 | nothing is reported exactly when there is no whole-word occurrence from the origin on |
| ExtractConcepts.OccurrencesIgnoreCase | functions/models/extract_concepts.py:114-115 | two names that differ only in letter case find the same matches |
| ExtractConcepts.SitesFor | functions/models/extract_concepts.py:115-124 | one site per reported match of a concept in a text |
| ExtractConcepts.TagsFrom | functions/models/extract_concepts.py:117-124 | one tag per site |
| ExtractConcepts.AnnotateSpans | functions/models/extract_concepts.py:110-124 | annotation keeps the number of spans |
| ExtractConcepts.IdBaseStep | functions/models/extract_concepts.py:117-118 | the ids of one span's tags start where the previous span's stopped, so the id supply is drawn in span order |
| ExtractConcepts.SitesForSound | functions/models/extract_concepts.py:114-123 | each site of a concept carries its id and covers exactly one whole-word match of its name |
| ExtractConcepts.SpanSitesSound | functions/models/extract_concepts.py:111-123 | every site in a span names one of the concepts and lies on one of its whole-word matches |
| ExtractConcepts.SitesForComplete | functions/models/extract_concepts.py:114-124 | every whole-word match of a concept is covered by one of its sites |
| ExtractConcepts.SpanSitesComplete | functions/models/extract_concepts.py:111-124 | every whole-word match of every concept is tagged, unless it lies inside an earlier match of the same concept |
| ExtractConcepts.SpanSitesEmpty | functions/models/extract_concepts.py:111-115 | no whole-word match of any concept gives no sites |
| ExtractConcepts.AnnotateOnlyAppends | functions/models/extract_concepts.py:110-124 | annotation only appends: every span keeps its id, text and existing tags, in order, and gains the tags of its matches after them |
| ExtractConcepts.AddedTagMeaning | functions/models/extract_concepts.py:116-124 | each added tag is a `CONCEPT` tag with a fresh consecutive id, metadata `{"concept_id": id}` of a concept, no children and a position equal to a whole-word match of that concept's name |
| ExtractConcepts.NoMatchUnchanged | functions/models/extract_concepts.py:110-124 | when no concept occurs in any span the spans come back unchanged |
| ExtractConcepts.AppendMatchTags | functions/models/extract_concepts.py:115-124 | the innermost loop appends exactly the tags of the concept's matches, drawing one id each |
| ExtractConcepts.AnnotateSpanTags | functions/models/extract_concepts.py:111-124 | the loop over concepts gives the span's specified annotation and draws one id per site |
| ExtractConcepts.AnnotatedEverywhere | functions/models/extract_concepts.py:110-124 | a list annotated span by span equals the specified annotation of the whole list |
| ExtractConcepts.AnnotateConceptsInPlace | functions/models/extract_concepts.py:97-124 | the caller's list is updated where it lies to the specified annotation of its old contents, and exactly one id is drawn per match |
| PromptUtils.FormattedSpansList | functions/shared/prompt_utils.py:62-70 | one `{ id: …, text: …}` entry per span, in span order |
| PromptUtils.FirstCommaAfterDigits | functions/shared/prompt_utils.py:67 | a decimal id holds no comma, so the first comma of an entry is the separator after the id |
| PromptUtils.EntryBody | functions/shared/prompt_utils.py:67 | an entry is the opening `{ id: `, the id, `, text: `, the text and the closing `}` |
| PromptUtils.FormatRoundTrip | functions/shared/prompt_utils.py:67 | the id and the text can be read back from an entry whatever characters the text holds |
| PromptUtils.FormatInjective | functions/shared/prompt_utils.py:66-69 | two spans with the same entry have the same id and text |
| PromptUtils.ReferenceSpans | functions/shared/prompt_utils.py:117-119 | one span per reference, in order |
| PromptUtils.FootnoteSpans | functions/shared/prompt_utils.py:121-123 | one span per footnote, in order |
| PromptUtils.ExtractSpansFromList | functions/shared/prompt_utils.py:73-79 | the loop collects the list's spans depth first: each item's spans, then its sub-list's |
| PromptUtils.ExtractSpansFromContent | functions/shared/prompt_utils.py:82-97 | a block yields its text spans or else its list spans, then the image, figure and html-figure captions that are present |
| PromptUtils.AppendContents | functions/shared/prompt_utils.py:106-107 | the loop over a section's contents appends their spans block by block |
| PromptUtils.AppendSection | functions/shared/prompt_utils.py:105-109 | one section appends its contents' spans and then its sub-sections', pre-order |
| PromptUtils.AppendSubsections | functions/shared/prompt_utils.py:108-109 | the recursive call appends every sub-section's spans in order |
| PromptUtils.AppendRoots | functions/shared/prompt_utils.py:104-115 | the loop over top-level sections appends each section's spans in order |
| PromptUtils.AppendReferences | functions/shared/prompt_utils.py:117-119 | the reference loop appends one span per reference |
| PromptUtils.AppendFootnotes | functions/shared/prompt_utils.py:121-123 | the footnote loop appends one span per footnote |
| PromptUtils.GetAllSpansFromDoc | functions/shared/prompt_utils.py:100-125 | the accumulator ends as the abstract's spans, then the sections' in pre-order, then the references', then the footnotes' |
| PromptUtils.EmptyDocHasNoSpans | functions/shared/prompt_utils.py:100-125 | a document without abstract, sections, references or footnotes gives `[]` |
| PromptUtils.ItemInList | functions/shared/prompt_utils.py:75-78 | every span of an item, and of its sub-list, is collected from the list |
| PromptUtils.NestedItemInList | functions/shared/prompt_utils.py:77-78 | a span of a nested list's item is collected from the outer list |
| PromptUtils.CaptionsInContent | functions/shared/prompt_utils.py:85-96 | text spans and every caption of a block are collected |
| PromptUtils.ContentInContents | functions/shared/prompt_utils.py:106-107 | the spans of every block of a section are collected |
| PromptUtils.SubsectionInSections | functions/shared/prompt_utils.py:108-109 | the spans of every sub-section are collected |
| PromptUtils.SectionInRoots | functions/shared/prompt_utils.py:105 | the spans of every top-level section are collected |
| PromptUtils.PartsInSection | functions/shared/prompt_utils.py:105-109 | a section collects the spans of its own contents and of each sub-section |
| PromptUtils.PartsInDoc | functions/shared/prompt_utils.py:100-125 | nothing reachable is missed: spans of every section, the abstract, every reference and every footnote are in the result |
| PromptUtils.FootnotesLast | functions/shared/prompt_utils.py:121-125 | the footnote spans close the result, in their own order |
| PromptUtils.GetJsonFromResponse | functions/shared/prompt_utils.py:31-43 | no output gives `{}`; otherwise the first output stripped of its code fence and decoded, or `{}` when it does not decode |
| PromptUtils.MakeLabels | functions/shared/prompt_utils.py:57 | one label per entry, in order, exactly when every entry has `id` and `label`; otherwise the error of the first entry lacking one |
| PromptUtils.Entries | functions/shared/prompt_utils.py:55-56 | a list is walked as it is, anything else as a one-element list |
| PromptUtils.GetLabelsFromResponse | functions/shared/prompt_utils.py:50-51 | a missing or empty output gives no labels |
| PromptUtils.FalsyAnswerGivesNoLabels | functions/shared/prompt_utils.py:53-59 | an answer that does not decode, or decodes to something false, gives no labels |
| PromptUtils.LabelsFromAnswer | functions/shared/prompt_utils.py:53-58 | a list of objects with both keys gives one label per object in order, and a single such object gives one label |
| PromptUtils.LabelsFailIff | functions/shared/prompt_utils.py:53-58 | the call raises exactly when the decoded answer is truthy and some entry lacks a key, with the first such entry's error |
| Summaries.GetSpansFromContent | functions/import_pipeline/summaries.py:132-148 | a block yields its text spans, or else its list spans depth first |
| Summaries.CaptionsNeverIncluded | functions/import_pipeline/summaries.py:132-148 | a block that is only an image or a figure yields no span whatever its captions, while the prompt collector takes up to three captions |
| Summaries.SpanTexts | functions/import_pipeline/summaries.py:154 | the texts of the spans, one per span, in order |
| Summaries.ContentTextSplits | functions/import_pipeline/summaries.py:151-154 | the block text is the span texts joined with single spaces: when no span text holds a space, splitting it on spaces gives the span texts back |
| Summaries.JoinContainsPart | functions/import_pipeline/summaries.py:154 | every part of a space join occurs in the joined text |
| Summaries.SpanTextInContentText | functions/import_pipeline/summaries.py:151-154 | every span's text is part of its block's text |
| Summaries.ContentTexts | functions/import_pipeline/summaries.py:160-161 | one text per block of the section, in order |
| Summaries.SubsectionTexts | functions/import_pipeline/summaries.py:162-164 | one text per sub-section |
| Summaries.ContentTextInSection | functions/import_pipeline/summaries.py:157-165 | a block's text is part of its section's text |
| Summaries.SubsectionTextInSection | functions/import_pipeline/summaries.py:157-165 | a sub-section's text is part of its parent's text |
| Summaries.NestedSpanTextInSection | functions/import_pipeline/summaries.py:151-165 | the text of a span of a block of a sub-section is part of the enclosing section's text |
| Summaries.CollectSection | functions/import_pipeline/summaries.py:267-272 | one turn of `_collect_recursive` appends the section's entry and then its sub-sections', in pre-order |
| Summaries.CollectSubsections | functions/import_pipeline/summaries.py:271-272 | the recursive call appends the entries of every sub-section tree in order |
| Summaries.SubtreeStep | functions/import_pipeline/summaries.py:267-272 | appending one sub-tree's entries advances the loop over the sub-sections by one |
| Summaries.ForestStep | functions/import_pipeline/summaries.py:267-274 | appending one tree's entries advances the loop over the top-level sections by one |
| Summaries.GetAllSectionsWithText | functions/import_pipeline/summaries.py:262-275 | the result is one `{id, text}` entry per section in pre-order |
| Summaries.SubtreeInSubtrees | functions/import_pipeline/summaries.py:271-272 | every entry of every sub-tree is collected |
| Summaries.TreeInForest | functions/import_pipeline/summaries.py:267-274 | every entry of every top-level tree is collected |
| Summaries.SubtreeInTree | functions/import_pipeline/summaries.py:267-272 | a section's own entry comes first in its tree, and the tree holds every entry of its sub-trees |
| Summaries.EverySectionHasEntry | functions/import_pipeline/summaries.py:262-275 | every section at any depth has its entry in the result |
| Summaries.FlatSubsections | functions/import_pipeline/summaries.py:267-272 | sub-sections without further sub-sections give exactly one entry each, in order |
| Summaries.BlockEntriesMeaning | functions/import_pipeline/summaries.py:332-336 | a section's entries come exactly from its text and list blocks |
| Summaries.CollectBlocks | functions/import_pipeline/summaries.py:332-336 | the inner loop appends one entry per text or list block, in order |
| Summaries.CollectSectionBlocks | functions/import_pipeline/summaries.py:331-338 | one section appends its own blocks' entries and then its sub-sections' |
| Summaries.CollectSubsectionBlocks | functions/import_pipeline/summaries.py:337-338 | the recursive call appends every sub-section's block entries in order |
| Summaries.GetAllContentsWithText | functions/import_pipeline/summaries.py:326-341 | the result is one entry per text or list block, sections in pre-order |
| Summaries.TreeBlocksTextual | functions/import_pipeline/summaries.py:330-338 | every entry of a section tree comes from a text or list block |
| Summaries.SubtreeBlocksTextual | functions/import_pipeline/summaries.py:337-338 | every entry of the sub-trees comes from a text or list block |
| Summaries.OnlyTextualKept | functions/import_pipeline/summaries.py:326-341 | only text and list blocks are kept, at any depth |
| Summaries.TopLevelBlocksKept | functions/import_pipeline/summaries.py:330-336 | every text or list block of a top-level section is kept |
| Summaries.LongEntries | functions/import_pipeline/summaries.py:278-292 | the prompts show exactly the entries whose text is longer than 100 characters (`MIN_CHARACTER_LENGTH`), in order; the content prompt at lines 346-350 filters the same way |
| Summaries.PromptLines | functions/import_pipeline/summaries.py:280-284 | one prompt line per long entry |
| Summaries.PromptLineMeaning | functions/import_pipeline/summaries.py:280-284 | each prompt line reads back as the id and text of a long entry of the data |
| Summaries.BatchesCover | functions/import_pipeline/summaries.py:236-239 | the batches, concatenated, are the items in order: every item exactly once |
| Summaries.BatchSizes | functions/import_pipeline/summaries.py:236-239 | every batch is non-empty and at most the batch size long, and all but the last are exactly that long |
| Summaries.BatchCount | functions/import_pipeline/summaries.py:236-239 | the number of batches is the item count divided by the batch size, rounded up |
| Summaries.BatchStep | functions/import_pipeline/summaries.py:237-238 | one turn of the loop takes the next slice of at most the batch size |
| Summaries.MakeBatches | functions/import_pipeline/summaries.py:236-239 | a batch size of 0 raises, a negative one gives no batch, a positive one gives the specified batches |
| Summaries.SliceBatches | functions/import_pipeline/summaries.py:236-239 | the slicing loop produces the specified batches |
| Summaries.SelectAbstractExcerpt | functions/import_pipeline/summaries.py:184-205 | the model is asked exactly when there is an abstract with a span; an id is returned only when asked and the answer is non-empty, and it is that answer |
| Summaries.AppendInRunOrder | functions/import_pipeline/summaries.py:98-111 | a generator issued after generators that all come before it keeps the requests in the fixed order, each at most once |
| Summaries.Calls | functions/import_pipeline/summaries.py:98-111 | a generator is run exactly when its option switches it on |
| Summaries.CallsInRunOrder | functions/import_pipeline/summaries.py:98-111 | the requests go out in the order section, content, span, excerpt, each at most once |
| Summaries.GenerateLumiSummaries | functions/import_pipeline/summaries.py:84-114 | each summary list is the generator's result when its option is on and empty otherwise; each generator runs exactly when its option is on (the excerpt only with an abstract), in the order section, content, span, excerpt |
| Summaries.AllOptionsOff | functions/import_pipeline/summaries.py:94-114 | with every option off all lists are empty, there is no excerpt and no generator is run |
| ImportPipeline.CollectFromContents | functions/import_pipeline/import_pipeline.py:151-156 | the loop over blocks appends, per block, its image and then its figure's images |
| ImportPipeline.ContentsStep | functions/import_pipeline/import_pipeline.py:152-156 | appending one block's images advances the loop over the blocks by one |
| ImportPipeline.CollectFromSection | functions/import_pipeline/import_pipeline.py:159-162 | one section appends its own blocks' images and then those of its sub-sections, pre-order |
| ImportPipeline.CollectFromSubsections | functions/import_pipeline/import_pipeline.py:161-162 | the recursive call appends the images of every sub-section tree in order |
| ImportPipeline.SubtreeStep | functions/import_pipeline/import_pipeline.py:159-162 | appending one sub-tree's images advances the loop over the sub-sections by one |
| ImportPipeline.ForestStep | functions/import_pipeline/import_pipeline.py:158-167 | appending one tree's images advances the loop over the top-level sections by one |
| ImportPipeline.CollectImageContents | functions/import_pipeline/import_pipeline.py:147-168 | the result is the abstract's images, then the sections' in pre-order, each block giving its image and then its figure's images |
| ImportPipeline.ContentInContents | functions/import_pipeline/import_pipeline.py:152-156 | the images of every block of a list of blocks are collected |
| ImportPipeline.SubtreeInSubtrees | functions/import_pipeline/import_pipeline.py:161-162 | the images of every sub-section tree are collected |
| ImportPipeline.TreeInForest | functions/import_pipeline/import_pipeline.py:159-167 | the images of every top-level section tree are collected |
| ImportPipeline.PartsInTree | functions/import_pipeline/import_pipeline.py:158-162 | a section collects the images of its own blocks and of every sub-section, so images at any depth are found |
| ImportPipeline.ImagesInDoc | functions/import_pipeline/import_pipeline.py:147-168 | an image of an abstract block or of any section tree is in the result |
| ImportPipeline.AbstractImagesFirst | functions/import_pipeline/import_pipeline.py:164-167 | the abstract's images open the result, in the order of its blocks |
| ImportPipeline.FigureImagesInOrder | functions/import_pipeline/import_pipeline.py:153-156 | a figure block contributes exactly the figure's images in order, after the block's own image if it has one |
| ImportPipeline.Keys | functions/import_pipeline/import_pipeline.py:269-270 | one placeholder key per id, in order |
| ImportPipeline.KeyInjective | functions/import_pipeline/import_pipeline.py:269-270 | distinct ids give distinct placeholder keys |
| ImportPipeline.KeyCharNotBracket | functions/import_pipeline/import_pipeline.py:269-270 | no character of a key after its opening two is a `[` |
| ImportPipeline.ShapesOpenWithMarker | functions/import_pipeline/import_pipeline.py:348-356 | every block pattern opens with a `[[l-` marker |
| ImportPipeline.NoMarkerInKey | functions/import_pipeline/import_pipeline.py:269-270 | no block marker occurs anywhere in a key |
| ImportPipeline.KeyInert | functions/import_pipeline/import_pipeline.py:347-356 | no block pattern matches in a key, so a key left by one pass is copied unchanged by the later passes |
| ImportPipeline.KeyReadBack | functions/import_pipeline/import_pipeline.py:269-270 | the block splitter reads a key back as one whole placeholder |
| ImportPipeline.CreateCaptionSpan | functions/import_pipeline/import_pipeline.py:272-279 | an empty caption gives no span and draws no id; otherwise the first span of the caption converted without sentence splitting, or none when it converts to nothing |
| ImportPipeline.CreateImageContent | functions/import_pipeline/import_pipeline.py:281-294 | the image keeps the LaTeX path, its storage path is `file_id/images/` plus the flattened path, alt text is empty, sizes are zero and an empty caption gives none |
| ImportPipeline.CollectSubImages | functions/import_pipeline/import_pipeline.py:316-323 | one image per image match of the figure body, in order |
| ImportPipeline.ShapeOf | functions/import_pipeline/import_pipeline.py:348-356 | each kind of block is matched by a pattern that opens with a marker |
| ImportPipeline.ReplaceImage | functions/import_pipeline/import_pipeline.py:296-305 | the content takes a fresh id first and is one image built from the match |
| ImportPipeline.ReplaceFigure | functions/import_pipeline/import_pipeline.py:307-329 | the content takes a fresh id first and is one figure with an image per image match of its body |
| ImportPipeline.ReplaceHtmlFigure | functions/import_pipeline/import_pipeline.py:331-345 | the content takes a fresh id first and is one HTML figure holding the post-processed, stripped body |
| ImportPipeline.Replace | functions/import_pipeline/import_pipeline.py:296-345 | dispatches to the replacer of the block kind, with the same guarantee |
| ImportPipeline.ReplaceBlocks | functions/import_pipeline/import_pipeline.py:348-356 | each match, left to right, gets a fresh increasing id, its content is stored in the caller's map under its key, and the key replaces it in the text |
| ImportPipeline.ReplaceHits | functions/import_pipeline/import_pipeline.py:296-345 | the substitution loop rebuilds the text from the literals with one key per match and stores one entry per match |
| ImportPipeline.HitStep | functions/import_pipeline/import_pipeline.py:296-305 | one turn of the substitution loop keeps its invariants |
| ImportPipeline.ReplacementsSnoc | functions/import_pipeline/import_pipeline.py:296-345 | one more replaced match extends the record of replacements |
| ImportPipeline.AscendingSnoc | functions/import_pipeline/import_pipeline.py:297 | an id drawn after the others keeps the ids increasing |
| ImportPipeline.StoredSnoc | functions/import_pipeline/import_pipeline.py:302 | storing one more content updates the map at its key |
| ImportPipeline.ReassembledSnoc | functions/import_pipeline/import_pipeline.py:348-356 | the rebuilt text grows by the new key and the next literal |
| ImportPipeline.PreprocessAndReplaceFigures | functions/import_pipeline/import_pipeline.py:264-358 | figures, then HTML figures, then images are replaced, each pass on the previous pass's text; ids are fresh and increasing, and the caller's map gains every replaced block under its key |
| ImportPipeline.ThreePasses | functions/import_pipeline/import_pipeline.py:347-356 | the ids and map entries of the three chained passes add up |
| ImportPipeline.AscendingAppend | functions/import_pipeline/import_pipeline.py:296-345 | ids drawn in two runs are increasing over both |
| ImportPipeline.StoredAppend | functions/import_pipeline/import_pipeline.py:296-345 | storing two runs of entries is storing their concatenation |
| ImportPipeline.StoredLookup | functions/import_pipeline/import_pipeline.py:296-345 | with distinct ids each block's content is found under its own key |
| ImportPipeline.StoredKeys | functions/import_pipeline/import_pipeline.py:296-345 | every key of the map after the passes was there before or is the key of a drawn id |
| ImportPipeline.StoredSize | functions/import_pipeline/import_pipeline.py:296-345 | storing under fresh distinct keys adds exactly one entry per id |
| ImportPipeline.OneEntryPerBlock | functions/import_pipeline/import_pipeline.py:264-358 | starting from a map without keys of fresh ids, the map gains exactly one entry per replaced block and each block's content is found under its key |
| ImportPipeline.NothingToReplace | functions/import_pipeline/import_pipeline.py:348-356 | a pass over a text without a match leaves it unchanged and draws no id |
| ImportPipeline.KeyPassIdle | functions/import_pipeline/import_pipeline.py:351-356 | a later pass over a key leaves it unchanged |
| ImportPipeline.OneFigurePass | functions/import_pipeline/import_pipeline.py:307-329 | a figure pass over one figure block leaves one key and builds one figure for it |
| ImportPipeline.OneKey | functions/import_pipeline/import_pipeline.py:305 | replacing one block that fills the text leaves just its key |
| ImportPipeline.OneFigure | functions/import_pipeline/import_pipeline.py:307-329 | the one content built for one figure match is a figure with one image per image match of its body |
| ImportPipeline.FigureSwallowsImages | functions/import_pipeline/import_pipeline.py:347-356 | a text that is one figure block, whatever images its body holds, ends as one key with one map entry, a figure holding those images; the images get no entry of their own |
| ConvertHtmlToLumi.SectionBuilder.constructor | functions/import_pipeline/convert_html_to_lumi.py:76-82 | the builder starts with no root section, an empty stack and nothing visited |
| ConvertHtmlToLumi.AddToCurrentKeepsShape | functions/import_pipeline/convert_html_to_lumi.py:133-153 | adding contents to the current section keeps the tree's shape, its section count and the nesting of levels |
| ConvertHtmlToLumi.AssembledPlaceholder | functions/import_pipeline/convert_html_to_lumi.py:207-212 | a placeholder whose key is in the map contributes that content; one whose key is absent contributes nothing |
| ConvertHtmlToLumi.AssembledTextBlock | functions/import_pipeline/convert_html_to_lumi.py:213-225 | a non-blank text segment contributes one text block of the tag's kind holding its spans |
| ConvertHtmlToLumi.SegmentsEnd | functions/import_pipeline/convert_html_to_lumi.py:226-230 | after the last placeholder the rest of the text, when not empty, is the last segment |
| ConvertHtmlToLumi.PlaceholderOfKey | functions/import_pipeline/convert_html_to_lumi.py:185-190 | a placeholder whose key holds no `]` and no line break ends right after its suffix |
| ConvertHtmlToLumi.NoBracketNoPlaceholder | functions/import_pipeline/convert_html_to_lumi.py:185-190 | no placeholder starts where the text has no `[` |
| LatexInlineCommand.LatexParser.constructor | functions/import_pipeline/latex_inline_command.py:74-83 | the parser holds the content with its cursor at the start position |
| LatexInlineCommand.UsageFromLeftmost | functions/import_pipeline/latex_inline_command.py:350-397 | no occurrence before the usage found is usable |
| LatexInlineCommand.UsageFromOccurrence | functions/import_pipeline/latex_inline_command.py:356-397 | at an occurrence the search stops with the usage there, or resumes one position further on |
| LatexInlineCommand.InlineAfterRemoval | functions/import_pipeline/latex_inline_command.py:536-554 | with definitions, the result is the fixpoint passes on the text without its definitions, stripped, and an error of a pass is the error of the whole |
| LatexInlineCommand.ExampleFirstPass | functions/import_pipeline/latex_inline_command_test.py:97-100 | the first pass over `$\R$` replaces the one use of `\R` by `\mathbb{R}` |
| LatexInlineCommand.ExampleSecondPass | functions/import_pipeline/latex_inline_command_test.py:97-100 | the second pass over `$\mathbb{R}$` changes nothing, so the passes stop |
| ConvertLumiSpans.LocateFromInOrder | functions/import_pipeline/convert_lumi_spans.py:145-155 | the located sentence windows are in text order, each sentence at most once, all from the sentence list |
| BlockPatterns.ScanFromSome | functions/import_pipeline/import_pipeline.py:348-356 | when the next match is `m`, the scan keeps the text before `m`, takes `m`, and resumes at `m`'s end, as `re.sub` does |
| ImportTags.Rows | functions/import_pipeline/convert_lumi_spans.py:46-52 | one search per row of the table, in table order |
| ImportTags.EarliestFromCorrect | functions/import_pipeline/convert_lumi_spans.py:46-52 | the loop over the rows keeps the leftmost match seen so far, an earlier row winning a tie |
| ImportTags.PickFits | functions/import_pipeline/convert_lumi_spans.py:46-63 | the pick is a row of the table whose match lies at or after the cursor, with its content shorter than the match |
| ConvertListContent.FirstListPrefix | functions/import_pipeline/convert_list_content.py:62-70 | scanning the children in order, the first list found stays the first list of all the children |
| ImageUtils.MatchAfterSlash | functions/import_pipeline/image_utils.py:89-93 | the target right after a `/`, followed by an allowed tail, matches there |
| ImageUtils.MatchWithoutExtension | functions/import_pipeline/image_utils.py:90-93 | without the optional extension, only the target, or the target and one final newline, may follow the match |
| LatexUtils.CandidatesHold | functions/import_pipeline/latex_utils.py:54-67 | every `.tex` file of the walk whose text holds `\documentclass` is a candidate |
| LatexUtils.InlineUnchangedFrom | functions/import_pipeline/latex_utils.py:232-234 | text without an unescaped `%` is left unchanged by the inline-comment pass |

## Left out

- Text.IsSpace, Text.IsAlpha, Text.IsDigit, ExtractConcepts.WordChar and ExtractConcepts.SameIgnoringCase are ASCII only. Python's `\s`, `\w`, `str.isalpha`, `str.isdigit` and `re.IGNORECASE` also accept non-ASCII letters, digits and spaces, so these are not modelled for non-ASCII input.
- LatexInlineCommand.IntLiteral and ConvertHtmlToLumi.HeadingLevel read decimal ASCII digits only. Python's `int()` also accepts `_` separators, surrounding white space and non-ASCII digits.
- LumiDoc.Id: the unique-id supply (`get_unique_id` in `shared/utils.py`, which is not part of this model) is a `nat` counter. ImportPipeline.KeyInert, ImportPipeline.KeyReadBack and PromptUtils.FormatRoundTrip rely on ids being written as decimal digits. An id supply that produces other characters is not modelled.
- ConvertHtmlToLumi.PlaceholderPrefix and ConvertHtmlToLumi.PlaceholderSuffix are fixed to `[[LUMI_PLACEHOLDER_` and `]]`. The source reads them from `shared.constants`, which is not part of this model.
- ExtractConcepts.AnnotateConceptsInPlace updates the caller's array of spans in place, but the spans are values. A span object that is also referenced from the document tree is not updated there, so aliasing between the list and the tree is not modelled.
- ImportPipeline.PreprocessAndReplaceFigures mutates the caller's `PlaceholderMap`, the way the `re.sub` callbacks do. Inside ConvertHtmlToLumi and ConvertListContent the map is only read, so it is passed as a value.
- Foreign calls are function parameters with no constraint:
  - NLTK's `sent_tokenize`;
  - BeautifulSoup parsing, `get_text`, `unescape` and `str(node)`;
  - `markdown_to_html`, `substitute_equation_placeholders` and `postprocess_content_text`;
  - `json.loads`;
  - `os.walk` listing and file reads;
  - `os.path.normpath`.
- ConvertLumiSpans.CreateLumiSpans bounds positions by the sentence before `postprocess_content_text`. That hook may shorten the text (`\$` becomes `$`), so the bound is not stated against the final span text.
- ImportPipeline.CreateCaptionSpan states the caption span exactly only for a caption without inline tags. For a caption with tags it states only that ids are not reused, not which span is returned.
- `extract_concepts` (the model call around `parse_lumi_concepts`) is not modelled. Neither are the model calls of `generate_span_summaries`, `generate_section_summaries` and `generate_content_summaries`, nor `_create_summary_span`. Their prompt text is a constant and their answers come from the network. Summaries.GenerateLumiSummaries takes the generators' results as parameters.
- Summaries `_get_all_spans_from_doc` is not modelled as its own member. It is the section walk of PromptUtils.GetAllSpansFromDoc with Summaries.GetSpansFromContent per block. The span batching over its result is Summaries.SliceBatches.
- The rest of `import_pipeline.py` is not modelled: `convert_model_output_to_lumi_doc`, the arXiv import entry points, image extraction and upload. This is orchestration and I/O. Likewise `image_utils.extract_images_from_latex_source` (PDF rasterisation, PIL) and the tar extraction in `latex_utils.py`.
- ImportPipeline.CreateImageContent sets width and height to the real `0.0`. Floating point is not otherwise modelled.
- Python's `re` engine is not modelled in general. Each pattern the core uses is a hand-written matcher with the same leftmost, lazy and back-reference behaviour on the inputs the pattern accepts.

## Findings

| source | as written | input that shows it | evidently intended | confidence | as-written member | corrected member |
|---|---|---|---|---|---|---|
| functions/import_pipeline/tokenize.py:85 | `next_sentence_index` is reset to the sentence after the current one for every math tag, so a second math tag crossing the already merged end absorbs the same follower again | sentences `a.`, `b.`, `c.` of `a. b. c.` with math tags at [1,3) and [4,7) give `a. b. b.` | absorption resumes after the sentences already merged, so the output joined by spaces is the input joined by spaces (`a. b. c.`) | not executed | Tokenize.Rejoined, shown by Tokenize.RejoinRepeatsSentence | Tokenize.RejoinedFixed, proved by Tokenize.RejoinedFixedPreservesText |
| functions/import_pipeline/latex_inline_command.py:285-288 | a `\def` whose command name or parameter text does not parse makes the scan `continue` without advancing `i`, so the loop never ends | `\defx` (and any `\def…` not followed by a backslash name, such as `\definecolor`) | resume after the keyword, as the other failed definitions do | not executed | LatexInlineCommand.DefinitionsFrom, shown by LatexInlineCommand.NamelessDefHangs | LatexInlineCommand.FixedDefinitionsFrom, proved by LatexInlineCommand.DefinitionsAgree |
| functions/import_pipeline/convert_html_to_lumi.py:82-158 | the visited set holds tags, and tags compare by value, so a content tag equal to one already converted is taken as visited and skipped | two equal paragraphs `<p>Same.</p><p>Same.</p>` convert only the first | skip only the descendants of converted tags, by position | not executed; depends on BeautifulSoup tag equality | ConvertHtmlToLumi.Processed, shown by ConvertHtmlToLumi.EqualParagraphSkipped | ConvertHtmlToLumi.ProcessedByPosition, proved by ConvertHtmlToLumi.ProcessedByPositionCovers |

The macro expander (LatexInlineCommand.Inline and LatexInlineCommand.FindAndParseCommands) uses the corrected scan, because the scan as written does not terminate. The sentence rejoin and the section builder follow the code as written: Tokenize.TokenizeSentences uses Tokenize.Rejoined, and ConvertHtmlToLumi.ConvertToLumiSections uses ConvertHtmlToLumi.Processed. The corrected definitions are proved beside them.
