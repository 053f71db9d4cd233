# Verified kernels of the coding agent

The repository is an autonomous coding agent: a provider-facing toolkit (`packages/ai-claude-compat`)
and the loop around it (`packages/aitm`). Under its input and output lie small algorithms and protocols
with many branches or much state. This project models those, in Dafny, and proves what they promise.

Where the source changes state step by step, so does the model: the matchers, scanners, compilers and
pollers are methods with loops, the output stream, the process entry, the secret registry, the prepared
compaction step, the import expansion, the memory directory and the rebase session are classes, and
redaction works on a heap of objects. Every such method is proved equal to a function or relation, and
the promises are proved about that. Everything outside is an arbitrary input: exit codes, clocks,
summarizers, model streams, servers, cancellations, the order in which workers finish.

| file | what it models |
|---|---|
| `Options`, `Text`, `Spacing` | optional values; searching, splitting, joining and trimming text; texts as words and gaps |
| `EditDistance`, `Matchers`, `EditTool`, `FuzzyPlaces` | the fuzzy edit engine, and where a fuzzy edit writes |
| `Glob`, `GlobMeaning`, `RegExp`, `GlobCompiler` | globs, what their text stands for, the regular expressions they compile to, and the compiler |
| `Regions` | merging the context around search hits |
| `Channel`, `OutputRuns`, `RawReads`, `BackgroundProcess` | background output: reading it in pieces, whole runs of filtered and of mixed reads, the classes |
| `Secrets`, `Redaction` | literal secrets; copying and in-place redaction of object graphs |
| `Messages`, `Prune`, `Compaction`, `CompactionRuns`, `StaleCache` | context compaction, one step and whole runs, and a run that loses a call |
| `JsonScan` | finding a JSON object in surrounding prose |
| `Pool`, `StreamRetry`, `Disposer` | the worker pool, watched streams with retries, releasing resources |
| `Imports`, `ImportReading` | expanding `@path` imports, and what references, fences and code spans are |
| `ChecksPoller`, `ReviewThreads`, `CiFix` | waiting for checks, walking pages, rebase and force-push |
| `TokenPatterns`, `CommandRules`, `CommandLines` | deny and allow rules for shell commands, and their verdict on command lines as written |
| `Memory` | the memory directory and its index |

Two facts the tables below build on: the token budget of compaction is the model's window less exactly
the reserve (`Compaction.UsableLeavesReserve`), and after a computed step the next one is answered from
the cache if and only if the message count is the same again (`CompactionRuns.StaleIff`).

## What turned out not to hold

The code is kept as it is; each of these has a condition under which the promise does hold.

- The compaction cache is keyed on the number of messages. A step that adds exactly as many messages as
  the rewrite before it dropped is answered from the cache (`CompactionRuns.StaleIff`), and its messages
  are lost while its count is not. Under one constant window, and for any serializer under which the tool
  call weighs at least four characters more than the second summary, this leads to a context with a tool
  result whose call is gone (`StaleCache.StaleHitCanOrphan`). In any run, stale hits included,
  a context loses a call if and only if some computed step keeps a whole tail that starts inside a step
  (`CompactionRuns.ContextsPairedIff`); splitting in front of a message that is no tool result is enough
  to rule that out (`CompactionRuns.SplitsOnStepsSafe`), and without stale hits every split is of that
  kind (`CompactionRuns.NoOrphanedResults`).
- A partial line that a filtered read flushes after the process exited is delivered in two pieces if more
  of that line arrives later (`OutputRuns.FlushedLineCanSplit`). When no read comes too late, all filters
  get their lines if and only if the events hold no such line (`OutputRuns.AllLinesDeliveredIff`); output
  that stops with the exit never splits (`OutputRuns.QuietAfterExit`).
- A reference that cannot be inlined and ends in punctuation is emitted with the punctuation twice:
  `@a.` becomes `@a..` (`Imports.PunctuationTwice`). Text without imports is unchanged if and only if no
  path has trailing punctuation (`Imports.UnresolvedUnchangedIff`).
- A memory whose description is empty, blank, or holds a line separator or paragraph separator in its
  middle is accepted and written to the index but not read back, so the index does not list its file
  (`Memory.EmptyDescriptionVanishes`), and the next write drops its line. From any state, index and
  directory agree after a write if and only if the description comes back as it is and they agreed on
  the other files (`Memory.AgreeBehindWrite`, `Memory.ReadableIff`); a later readable write of that memory
  or its removal repairs them (`Memory.LaterWriteRepairs`).
- A fuzzy edit hands the located block on as text and searches that in the whole file. It can write inside
  a line that was never reported (`FuzzyPlaces.AllCanTouchMore`), and a single edit can miss the one block
  that was found (`FuzzyPlaces.SingleCanMiss`). It touches only reported blocks if and only if every
  leftmost occurrence of the located text is whole lines (`FuzzyPlaces.OnlyReportedIff`).
- Editing a text and editing it back restores it if and only if the old text was found exactly and the
  new text is unique in the result and stands where it was put (`EditTool.EditBackRestoresIff`,
  `EditTool.EditBackCanMiss`).
- A secret that shares text with the marker can survive redaction: the word of the marker does
  (`Secrets.MarkerWordSurvives`). Alone, a secret is always removed if and only if no overlap with the
  marker spells it again (`Secrets.AlwaysRemovedIff`); whatever else is registered, if and only if it
  shares no text with the marker at all (`Secrets.RemovedAmongOthersIff`).
- A blocked push can leave git in the middle of a rebase without saying so: when it found one in progress
  and was cancelled or failed its fetch before its own (`CiFix.FoundRebaseStays`). Otherwise it does so if
  and only if aborting failed twice, which it reports, and left it there (`CiFix.BlockedMidRebaseIff`).

## Model

| member | source | states |
|---|---|---|
| EditDistance.Levenshtein | packages/ai-claude-compat/src/edit-replacers.ts:207-224 | the two-row loop returns the length of a shortest script of inserts, deletes and substitutions |
| EditDistance.DistIsEditDistance | packages/ai-claude-compat/src/edit-replacers.ts:207-224 | some script has that length and no script is shorter |
| EditDistance.NoCheaperScript | packages/ai-claude-compat/src/edit-replacers.ts:207-224 | every script from one text to the other has at least that many edits |
| EditDistance.CheapestScript | packages/ai-claude-compat/src/edit-replacers.ts:207-224 | for every pair of prefixes a script of exactly the table value exists |
| EditDistance.ZeroIffEqual | packages/ai-claude-compat/src/edit-replacers.ts:207-224 | the distance is zero if and only if the texts are equal |
| EditDistance.Symmetric | packages/ai-claude-compat/src/edit-replacers.ts:207-224 | the distance does not depend on the direction |
| EditDistance.Triangle | packages/ai-claude-compat/src/edit-replacers.ts:207-224 | a detour is never shorter |
| EditDistance.Bounds | packages/ai-claude-compat/src/edit-replacers.ts:207-224 | the distance is at least the difference of the lengths and at most the longer length |
| Matchers.SimilarityRange | packages/ai-claude-compat/src/edit-replacers.ts:127-148 | interior similarity lies between 0 and 1, and is 1 exactly when all compared interior lines agree after trimming |
| Matchers.ComputeMiddleSimilarity | packages/ai-claude-compat/src/edit-replacers.ts:127-148 | the loop computes the mean line similarity of the interior |
| Matchers.CutIsBlock | packages/ai-claude-compat/src/edit-replacers.ts:54-62 | cutting by line offsets gives exactly the block of whole lines |
| Matchers.LineStartOffset | packages/ai-claude-compat/src/edit-replacers.ts:45-51 | the offset of a line is the length of the lines before it with their breaks |
| Matchers.SpanOfLines | packages/ai-claude-compat/src/edit-replacers.ts:54-62 | the returned substring is the block of lines from the first to the last |
| Matchers.LineTrimmedMatch | packages/ai-claude-compat/src/edit-replacers.ts:69-86 | the spans are the blocks of the matching ranges, in order |
| Matchers.LineTrimmedExactly | packages/ai-claude-compat/src/edit-replacers.ts:69-86 | a range is reported if and only if every line equals the searched one after trimming |
| Matchers.TrailingBreakIgnored | packages/ai-claude-compat/src/edit-replacers.ts:69-86 | a line break at the end of the searched text does not change what is searched for |
| Text.TrimTakesSpace | packages/ai-claude-compat/src/edit-replacers.ts:69-86 | trimming takes white space off both ends and nothing else |
| Matchers.BlockAnchorMatch | packages/ai-claude-compat/src/edit-replacers.ts:94-124 | the spans are the blocks of the anchored ranges, in order |
| Matchers.BlockAnchoredExactly | packages/ai-claude-compat/src/edit-replacers.ts:94-124 | a range is reported if and only if its end lines match, its size is close enough and its interior is similar enough |
| Matchers.BlockAnchoredMeans | packages/ai-claude-compat/src/edit-replacers.ts:94-124 | said without the search: the first and last lines agree after trimming, the size is off by at most a quarter of the searched one or one line, and the mean similarity of the interior is at least the threshold |
| Matchers.MiddleIsMean | packages/ai-claude-compat/src/edit-replacers.ts:127-148 | the interior similarity is the sum of the line similarities by their number, and one without an interior |
| Matchers.SimilarityCountsEdits | packages/ai-claude-compat/src/edit-replacers.ts:127-148 | the similarity of two lines is one less the number of edits between their trimmed texts by the longer length |
| Matchers.WhitespaceNormalizedMatch | packages/ai-claude-compat/src/edit-replacers.ts:155-174 | the spans are the blocks of the ranges that `Matchers.SameWordsExactly` describes, single lines first, in order |
| Matchers.SameWordsExactly | packages/ai-claude-compat/src/edit-replacers.ts:155-174 | for a text that is not blank, a block is reported if and only if it has the same words in the same order: as a single line or as a window as long as the searched text |
| Matchers.NormalizeIff | packages/ai-claude-compat/src/edit-replacers.ts:155-158 | two texts normalize alike if and only if they have the same words, cut at white space, and to nothing exactly without words |
| Matchers.NormalizeJoins | packages/ai-claude-compat/src/edit-replacers.ts:156 | a normalized text is its words joined by one blank each |
| Spacing.WordsIff | packages/ai-claude-compat/src/edit-replacers.ts:156 | the words found are the runs without white space: the text is those words, white space around them and some of it between any two, and no other words do that |
| Matchers.NormalizedExactly | packages/ai-claude-compat/src/edit-replacers.ts:155-174 | a range of the given size is listed if and only if its block normalizes to the normalized search |
| Matchers.FindFuzzyMatch | packages/ai-claude-compat/src/edit-replacers.ts:184-190 | the spans come from the first matcher that finds any |
| Matchers.CandidatesLadder | packages/ai-claude-compat/src/edit-replacers.ts:184-190 | a range is a candidate if and only if the first of the three matchers that reports anything reports it |
| Matchers.CandidateNotEmpty | packages/ai-claude-compat/src/edit-replacers.ts:184-190 | no matcher reports an empty block for a text that is not blank |
| EditTool.EditReplacesTarget | packages/ai-claude-compat/src/edit-tools.ts:125-196 | a successful edit replaces one non-empty text that occurs in the file: its only occurrence, or each one standing first behind the one before until none is left; everything between stays, and the count is the number of occurrences; on the fuzzy path the target is a block of whole lines and the only candidate or one of equal ones |
| EditTool.ReplaceSpanReplaces | packages/ai-claude-compat/src/edit-tools.ts:178-196 | the replacement succeeds if and only if all occurrences are wanted or there is one, and then replaces exactly the leftmost non-overlapping ones and counts them |
| EditTool.ReplacedOneWay | packages/ai-claude-compat/src/edit-tools.ts:178-196 | what a successful edit is said to do leaves one resulting text and one count |
| Text.LeftmostIsSplit | packages/ai-claude-compat/src/edit-tools.ts:178-196 | cutting a text at each first occurrence until none is left gives the pieces that split and join work with, and no others |
| EditTool.ExactEditSucceedsIff | packages/ai-claude-compat/src/edit-tools.ts:125-174 | an exact edit succeeds if and only if all places are to be replaced or there is just one; otherwise it names the number found |
| EditTool.FuzzyRefusedIff | packages/ai-claude-compat/src/edit-tools.ts:140-174 | a request that is not found exactly is refused with an error if and only if that error is the first that applies: nothing found, a block much larger, several without replace-all, several that differ, or a found text that occurs again |
| EditTool.EditBackRestoresIff | packages/ai-claude-compat/src/edit-tools.ts:125-196 | the reverse of a single replacement restores the file if and only if the old text was found exactly and the new one is unique in the result and first stands where it was put |
| EditTool.EditBackCanMiss | packages/ai-claude-compat/src/edit-tools.ts:178-196 | a file on which the reverse edit finds one occurrence, but at another place |
| FuzzyPlaces.ReplacesPlaces | packages/ai-claude-compat/src/edit-tools.ts:178-196 | a successful replacement overwrites the leftmost non-overlapping occurrences and no other character |
| FuzzyPlaces.ReportedIffWhole | packages/ai-claude-compat/src/edit-tools.ts:147-174 | of the places where the located text stands, the matchers reported exactly those that are whole lines |
| FuzzyPlaces.OnlyReportedIff | packages/ai-claude-compat/src/edit-tools.ts:140-196 | a fuzzy edit touches only reported blocks if and only if each leftmost occurrence of the located text is whole lines |
| FuzzyPlaces.AllCanTouchMore | packages/ai-claude-compat/src/edit-tools.ts:140-174 | a file in which replacing all fuzzy matches also writes inside a line that no matcher reported |
| FuzzyPlaces.SingleCanMiss | packages/ai-claude-compat/src/edit-tools.ts:140-196 | a file in which a single fuzzy edit writes somewhere else than the only block that was found |
| EditTool.RunEdit | packages/ai-claude-compat/src/edit-tools.ts:125-174 | the checks and fallbacks run in the order of the specification, with the same errors |
| EditTool.RunFuzzyEdit | packages/ai-claude-compat/src/edit-tools.ts:125-174 | the fuzzy fallback refuses no candidate, disproportionate candidates and unequal ones, and else replaces the first |
| EditTool.RunMultiEdit | packages/ai-claude-compat/src/edit-tools.ts:60-83 | the loop over edits returns the fold of the single edits or the first failure |
| EditTool.MultiEditChain | packages/ai-claude-compat/src/edit-tools.ts:60-83 | success means a chain of single successful edits, each on the result of the one before, with the counts added up |
| EditTool.MultiEditFirstFailure | packages/ai-claude-compat/src/edit-tools.ts:60-83 | failure names the first edit that fails on the text left by those before it |
| EditTool.FirstDiffLine | packages/ai-claude-compat/src/edit-tools.ts:213-221 | the first line at which the texts differ, and nothing before it differs |
| Glob.FindClosingBrace | packages/ai-claude-compat/src/search-tools.ts:404-414 | the index of the brace that closes the one at the given place, or none |
| Glob.SplitTopLevel | packages/ai-claude-compat/src/search-tools.ts:417-437 | the pieces between the commas outside nested braces |
| Glob.SplitTopJoins | packages/ai-claude-compat/src/search-tools.ts:417-437 | joining the pieces gives the body back |
| Glob.SplitTopFree | packages/ai-claude-compat/src/search-tools.ts:417-437 | no piece holds a comma outside nested braces |
| GlobMeaning.BracesMean | packages/ai-claude-compat/src/search-tools.ts:367-437 | braces around well-nested alternates, in front of any text, stand for a stretch of any one of the alternates followed by a stretch of that text |
| GlobMeaning.MeansIff | packages/ai-claude-compat/src/search-tools.ts:367-437 | what a glob text stands for, said on the positions of its stars, braces and commas, is what its reading accepts |
| GlobMeaning.FrontMeans | packages/ai-claude-compat/src/search-tools.ts:367-401 | text without braces in front of a glob stands for its own stretch followed by one for the rest |
| GlobMeaning.ClosingIff | packages/ai-claude-compat/src/search-tools.ts:404-414 | the closing brace is the first at which all opened braces are closed, and there is none only without such a place |
| GlobMeaning.PieceIsPart | packages/ai-claude-compat/src/search-tools.ts:417-437 | every stretch between neighbouring commas at depth zero is one of the split pieces |
| GlobMeaning.PartIsPiece | packages/ai-claude-compat/src/search-tools.ts:417-437 | every split piece is a stretch between neighbouring commas at depth zero |
| Glob.ParseBraces | packages/ai-claude-compat/src/search-tools.ts:367-437 | the text of well-nested alternates in braces reads as one braces item in front of the reading of the rest |
| GlobCompiler.GlobToRegExp | packages/ai-claude-compat/src/search-tools.ts:357-437 | the emitted text reads back as a pattern that passes a path if and only if the glob text stands for the path from one of its starts to its end |
| GlobCompiler.PatternMeans | packages/ai-claude-compat/src/search-tools.ts:357-364 | the anchored pattern passes a path if and only if the glob text stands for it from the start, or without a slash in the glob from behind any slash |
| GlobCompiler.BracesPass | packages/ai-claude-compat/src/search-tools.ts:357-437 | a path passes a glob with alternates if and only if it is a stretch for the text in front, one for any of the alternates and one for the text behind |
| GlobCompiler.PatternCorrect | packages/ai-claude-compat/src/search-tools.ts:357-364 | the anchored pattern passes a path if and only if the parsed glob accepts it from the start, or without a slash in the glob from behind a slash |
| GlobCompiler.CompileCorrect | packages/ai-claude-compat/src/search-tools.ts:367-401 | a compiled glob in front of any pattern matches what the glob accepts followed by what the pattern matches |
| GlobCompiler.RunOfSegments | packages/ai-claude-compat/src/search-tools.ts:367-401 | the group emitted for `**/` repeats over exactly the runs of whole directories |
| GlobCompiler.BasenameMatch | packages/ai-claude-compat/src/search-tools.ts:357-364 | a glob without slash and double star matches if and only if its text stands for the basename |
| GlobCompiler.TextWithinSegment | packages/ai-claude-compat/src/search-tools.ts:367-401 | a glob text without slash and double star, whatever its braces, never crosses a slash |
| GlobCompiler.TranslateGlob | packages/ai-claude-compat/src/search-tools.ts:367-401 | the translation loop appends exactly the text of the compiled glob |
| RegExp.ReadPrint | packages/ai-claude-compat/src/search-tools.ts:357-364 | the text of a pattern reads back, by the pattern grammar, as that pattern |
| Regions.MergeRegions | packages/ai-claude-compat/src/search-tools.ts:308-323 | the merged regions are in order, at least one line apart, and cover exactly the lines in the context of some hit |
| Regions.InContextIff | packages/ai-claude-compat/src/search-tools.ts:308-323 | a line is in the context exactly when it is a line of the file at most so far in front of or behind some hit |
| Regions.SeparatedIsCanonical | packages/ai-claude-compat/src/search-tools.ts:308-323 | only one list of separated regions covers given lines |
| Channel.LinesAreNeverSpliced | packages/ai-claude-compat/src/background-process.ts:242-259 | every line of a filtered read matches, holds no line break and is one stretch of the output, also when output was evicted |
| Channel.CombinedIsStretch | packages/ai-claude-compat/src/background-process.ts:83-100 | carry and unread output together are always the last part of what was produced |
| Channel.CutMatching | packages/ai-claude-compat/src/background-process.ts:242-259 | completing lines neither loses nor changes the matching non-empty lines of the combined text |
| Channel.FilterLinesMatching | packages/ai-claude-compat/src/background-process.ts:124-130 | filtering keeps exactly the matching non-empty lines |
| Channel.KeepIs | packages/ai-claude-compat/src/background-process.ts:124-130 | exactly the lines the filter accepts are kept, in order and as often as they stand there |
| Channel.ReadKeepsContinuous | packages/ai-claude-compat/src/background-process.ts:192-259 | the carry is always the stretch just in front of the cursor |
| OutputRuns.ReadsDeliverSeen | packages/ai-claude-compat/src/background-process.ts:192-259 | a run without gaps, read to the end, delivers exactly the matching non-empty lines of what the reads saw |
| OutputRuns.ReadsDeliverOutput | packages/ai-claude-compat/src/background-process.ts:192-259 | however output is cut into chunks and reads: when no more than the cap arrives between reads, the last read follows the exit and no flushed line goes on, the reader gets exactly the matching non-empty lines of the output |
| OutputRuns.AllLinesDeliveredIff | packages/ai-claude-compat/src/background-process.ts:192-259 | when no read comes too late and the last follows the exit, every filter gets exactly its lines if and only if the events hold no line that goes on behind a flush |
| OutputRuns.LostIff | packages/ai-claude-compat/src/background-process.ts:93-100 | a gap is reported if and only if more than the cap was produced since the read before |
| OutputRuns.SplitsIff | packages/ai-claude-compat/src/background-process.ts:242-259 | without gaps lines are split if and only if a read behind the exit met a partial line and the next output goes on with it |
| OutputRuns.QuietAfterExit | packages/ai-claude-compat/src/background-process.ts:242-259 | output that stops with the exit splits no line |
| OutputRuns.FlushedLineCanSplit | packages/ai-claude-compat/src/background-process.ts:253-256 | any partial line flushed after the exit that output then goes on with makes the delivered lines differ from the produced ones, without any gap |
| OutputRuns.RunNeverSplices | packages/ai-claude-compat/src/background-process.ts:77-259 | in every run, with or without eviction, every line of every returned text matches, holds no line break and is one stretch of the output |
| RawReads.RawReturns | packages/ai-claude-compat/src/background-process.ts:220-226 | in any mix of reads, a raw read returns what was produced since the last read of either kind, or as much of its end as the buffer keeps |
| RawReads.RawReadsDeliverAll | packages/ai-claude-compat/src/background-process.ts:192-235 | as long as all reads are raw and none comes too late, the texts returned so far and the output not read yet are together exactly the output |
| RawReads.RawReadsReturnOutput | packages/ai-claude-compat/src/background-process.ts:192-235 | up to a last raw read the returned texts are exactly the output |
| RawReads.LinesBehindRaw | packages/ai-claude-compat/src/background-process.ts:220-259 | a filtered read behind a raw one sees only what arrived since: what was held back before is not delivered again |
| RawReads.RunStands | packages/ai-claude-compat/src/background-process.ts:77-259 | behind any events the unread output is what arrived since the last read, and a raw read leaves nothing held back |
| BackgroundProcess.CappedStream.Append | packages/ai-claude-compat/src/background-process.ts:83-89 | the buffer keeps the last part of all output, no longer than the cap |
| BackgroundProcess.CappedStream.Read | packages/ai-claude-compat/src/background-process.ts:93-100 | returns everything unread that is still kept, says whether unread output was evicted, and moves the cursor to the end |
| BackgroundProcess.Entry.OnError | packages/ai-claude-compat/src/background-process.ts:175-182 | appends the message, stops the entry, sets the exit code only if there is none, reports at most once |
| BackgroundProcess.Entry.OnExit | packages/ai-claude-compat/src/background-process.ts:183-187 | stops the entry, sets the exit code, reports at most once |
| BackgroundProcess.Entry.Finalize | packages/ai-claude-compat/src/background-process.ts:321-331 | the exit is reported once, whichever of error and exit comes first |
| BackgroundProcess.Entry.Poll | packages/ai-claude-compat/src/background-process.ts:192-235 | an invalid filter consumes and returns nothing; a raw read returns of either stream everything behind the cursor that the buffer keeps and drops the carries; a filtered read returns the matching complete lines; a gap is reported exactly when unread output of either stream was evicted |
| BackgroundProcess.FilterStream | packages/ai-claude-compat/src/background-process.ts:242-259 | the text returned and the new carry are those of the cut |
| Secrets.NoSecretSurvives | packages/aitm/src/logger/secret-registry.ts:41-47 | a registered secret that shares no text with the marker occurs nowhere in the output, whatever the other secrets are |
| Secrets.NeverCreated | packages/aitm/src/logger/secret-registry.ts:41-47 | replacing other secrets never creates one that was not there |
| Secrets.BracketFreeNeverOverlaps | packages/aitm/src/logger/secret-registry.ts:27-37 | a secret of accepted length without brackets, other than the word of the marker, shares no text with it |
| Secrets.RedactedTextIsClean | packages/aitm/src/logger/secret-registry.ts:41-47 | with only such secrets the output holds none of them |
| Secrets.CleanTextUntouched | packages/aitm/src/logger/secret-registry.ts:41-47 | text without secrets is unchanged |
| Secrets.RedactOneReplaces | packages/aitm/src/logger/secret-registry.ts:41-47 | each leftmost occurrence of the secret becomes the marker and all text around the occurrences stays |
| Secrets.AlwaysRemovedIff | packages/aitm/src/logger/secret-registry.ts:41-47 | registered alone, a secret is removed from every text if and only if no overlap with the marker spells it again |
| Secrets.RemovedAmongOthersIff | packages/aitm/src/logger/secret-registry.ts:27-47 | a secret is removed from every text, whatever else is registered, if and only if it shares no text with the marker |
| Secrets.MarkerWordSurvives | packages/aitm/src/logger/secret-registry.ts:27-47 | the word of the marker is long enough to be registered and survives its own redaction |
| Secrets.SecretReplacedWhole | packages/aitm/src/logger/secret-registry.ts:27-47 | a secret that contains shorter ones is replaced whole, because longer values come first |
| Secrets.SortSorts | packages/aitm/src/logger/secret-registry.ts:27-37 | registration orders the values longest first and keeps each as often as before |
| Secrets.AcceptedIff | packages/aitm/src/logger/secret-registry.ts:27-37 | a value is accepted if and only if an offered text trims to it and it has at least 8 characters |
| Secrets.Registry.RegisterSecretValues | packages/aitm/src/logger/secret-registry.ts:27-37 | the registry holds exactly the old secrets and the accepted new ones, each once, longest first |
| Secrets.Registry.RedactRegisteredSecrets | packages/aitm/src/logger/secret-registry.ts:41-47 | the loop returns the redaction by all secrets in order; none that shares no text with the marker is left |
| Redaction.RedactCopy | packages/aitm/src/logger/redact.ts:17-36 | the copy is the redacted tree of the graph and the set of ancestors is restored |
| Redaction.RedactInPlace | packages/aitm/src/logger/redact.ts:41-59 | of the newly seen objects each entry is hidden by its key, scrubbed or kept, every other object stays; everything followed from them is seen and nothing outside any set that holds the start and all it leads to; it ends on every graph |
| Redaction.OverwritingAgrees | packages/aitm/src/logger/redact.ts:17-59 | on any graph, reading the overwritten graph gives the tree of the copying redaction |
| Redaction.MarkerIffBackEdge | packages/aitm/src/logger/redact.ts:17-36 | along any path of the graph the copy holds the cycle marker exactly where the path first returns to an object above |
| Redaction.CopyAt | packages/aitm/src/logger/redact.ts:17-36 | wherever a path through the graph leads, the copy of the object there has for each entry the marker when its key is secret, else the scrubbed text, the plain value, the cycle marker for an object on the path, or the opened object |
| Redaction.WalkStaysIn | packages/aitm/src/logger/redact.ts:41-59 | every object on a path from a reached one is reached |
| Redaction.RedactBothWays | packages/aitm/src/logger/redact.ts:17-59 | redacting a heap in place and reading it back gives the copy made before; exactly a set of objects is overwritten that holds the root and all it leads to and no object outside such a set |
| Prune.PruneOldToolResults | packages/aitm/src/compaction/compaction-step.ts:339-376 | the backward loop returns the pruned messages and the exact tally |
| Prune.PruneKeeps | packages/aitm/src/compaction/compaction-step.ts:339-376 | pruning keeps the number of messages, the call ids, every non-tool message and everything from the split on |
| Prune.PruneKeepsPaired | packages/aitm/src/compaction/compaction-step.ts:339-376 | pruning leaves every tool result with its call |
| Prune.ClearedIff | packages/aitm/src/compaction/compaction-step.ts:352-364 | a result is cleared if and only if it is longer than the minimum and the shield is already filled by what was kept before it |
| Prune.PruneAccounts | packages/aitm/src/compaction/compaction-step.ts:339-376 | the freed count is exactly the drop in tool output, every cleared result had a full shield kept before it, all others are unchanged |
| Prune.PruneExplained | packages/aitm/src/compaction/compaction-step.ts:339-376 | the results after any part of the pass are those before it with the decided ones cleared, and the tally is exact |
| Prune.PruneTwice | packages/aitm/src/compaction/compaction-step.ts:339-376 | a second pass changes nothing when the placeholder is no longer than the minimum |
| Prune.PrunedTreated | packages/aitm/src/compaction/compaction-step.ts:339-376 | place by place: a tool result in front of the split is cleared exactly when it is large and the tool output kept behind it, in its message and those up to the split, fills the shield; everything else stays |
| Compaction.TruncateOldestToFit | packages/aitm/src/compaction/compaction-step.ts:386-404 | the scan returns the cut of the specification |
| Compaction.TruncateBest | packages/aitm/src/compaction/compaction-step.ts:386-404 | the longest legal suffix that fits is kept, and the shortest legal one when none fits |
| Compaction.PassesIff | packages/aitm/src/compaction/compaction-step.ts:99-190 | with a known window a call passes if and only if there is no step, nothing older than the kept steps, or both the estimate of the context and the reported tokens with the estimate of the messages since are under the budget; else it rewrites, given a window at the second lookup |
| Compaction.UnknownWindow | packages/aitm/src/compaction/compaction-step.ts:145-160 | a failed lookup lets the call pass, a missing window rejects it, and neither touches the prior summary |
| Compaction.FitsIff | packages/aitm/src/compaction/compaction-step.ts:190-199 | a rewritten context fits if and only if its estimate is under the budget, and also with what the report and the messages since exceed the estimate of the whole context |
| Compaction.PartedAt | packages/aitm/src/compaction/compaction-step.ts:168-180 | the context is split in front of exactly the messages of the last kept steps, counted together |
| Compaction.EstimateIsCeiling | packages/aitm/src/compaction/compaction-step.ts:305-314 | the estimate is a quarter of the characters, rounded up, and characters add up over messages |
| Compaction.WindowIff | packages/aitm/src/compaction/compactor.ts:74-148 | the budget is a number exactly when the limits are usable and that number is positive and what the reserve leaves of the window |
| Compaction.RewriteIs | packages/aitm/src/compaction/compaction-step.ts:174-293 | what a rewrite is: the pruned context when that frees 20000 characters and fits; else, with a summary, the brief it fits with, the summary and the longest legal end of the kept steps that fits; else the longest legal end of the pruned context; and which summary is updated next |
| Compaction.SummarizedIsBest | packages/aitm/src/compaction/compaction-step.ts:255-292 | the first user message and the summary in front of the longest legal end of the tail that fits, without that message when there is none or nothing fits behind it |
| Compaction.CompactsIffTooBig | packages/aitm/src/compaction/compaction-step.ts:129-190 | the call passes exactly when the live context passes the check that rewritten contexts have to pass, or there is nothing to give up |
| Compaction.FittingContextPasses | packages/aitm/src/compaction/compaction-step.ts:146-161 | a context that fits is passed through with the prior summary unchanged |
| Compaction.SummarizedFitsIff | packages/aitm/src/compaction/compaction-step.ts:255-282 | a summarized context fits if and only if the summary alone does; otherwise just the summary is sent |
| Compaction.TruncatedFits | packages/aitm/src/compaction/compaction-step.ts:237-250 | without a summary the longest suffix starting on a non-tool message that fits is kept, or the shortest one |
| Compaction.RewriteFits | packages/aitm/src/compaction/compaction-step.ts:174-292 | every rewritten context is strictly under the budget of the second lookup, unless it is the given summary alone or the shortest legal suffix and even that is not |
| CompactionRuns.PrepareStep.Prepare | packages/aitm/src/compaction/compaction-step.ts:81-97 | an empty context passes, an unchanged message count returns the cached result, anything else is computed and cached |
| CompactionRuns.PrepareStep.ComputeStep | packages/aitm/src/compaction/compaction-step.ts:99-293 | one computed step takes the branches of the specification and updates the prior summary |
| CompactionRuns.PrepareStep.Summarize | packages/aitm/src/compaction/compaction-step.ts:255-292 | the summarized context with the pinned brief, or cut behind it, or cut behind the summary |
| CompactionRuns.RewriteKeeps | packages/aitm/src/compaction/compaction-step.ts:174-292 | a rewrite leaves no tool result without its call, and the ends of steps stay legal places to cut |
| Messages.CutPairedIff | packages/aitm/src/compaction/compaction-step.ts:174-179 | user messages in front of a suffix of a paired context are paired if and only if the cut separates no tool result from its call |
| CompactionRuns.RewritePairedIff | packages/aitm/src/compaction/compaction-step.ts:174-292 | a rewrite of a paired context is paired if and only if it does not put a summary in front of a whole tail that starts inside a step |
| CompactionRuns.ContextsPairedIff | packages/aitm/src/compaction/compaction-step.ts:68-293 | over any run of steps and rewrites, stale cache hits included, every context sent holds each tool result with its call if and only if no computed step cuts an answer off |
| CompactionRuns.SplitsOnStepsSafe | packages/aitm/src/compaction/compaction-step.ts:174-293 | no context loses a call when every computed step splits in front of a message that is no tool result |
| CompactionRuns.NoOrphanedResults | packages/aitm/src/compaction/compaction-step.ts:68-293 | that is so in every run without stale cache hits, whatever was pruned, summarized or cut before |
| CompactionRuns.RepeatReturnsSame | packages/aitm/src/compaction/compaction-step.ts:79-97 | repeating a computed call returns the same result and changes nothing |
| StaleCache.StaleHitCanOrphan | packages/aitm/src/compaction/compaction-step.ts:79-97 | under one constant window, for every serializer under which the tool call weighs at least four characters more than the second summary, a run of four steps in which a stale hit leads to a context with an orphaned tool result |
| JsonScan.FirstBalancedObject | packages/ai-claude-compat/src/subagent.ts:897-925 | the scan loop returns the balanced object of the specification |
| JsonScan.FindsPrintedObject | packages/ai-claude-compat/src/subagent.ts:897-925 | an object printed by sections 4 and 7 of RFC 8259 behind text without an opening brace and in front of any text is returned exactly |
| JsonScan.ValueNeutral | packages/ai-claude-compat/src/subagent.ts:897-925 | the text of any JSON value, whatever its strings hold, leaves the scanner at the depth it started with |
| JsonScan.FoundIsShortest | packages/ai-claude-compat/src/subagent.ts:897-925 | the scan stops at the first place where the object is balanced |
| StreamRetry.ConsumeStreamWithWatchdog | packages/ai-claude-compat/src/subagent.ts:433-466 | the watchdog loop reads up to the first event that ends the stream |
| StreamRetry.ConsumeExactly | packages/ai-claude-compat/src/subagent.ts:433-466 | the outcome is that of the first ending event; a stall counts as after the finish if and only if a finish came before it |
| StreamRetry.Streamed | packages/ai-claude-compat/src/subagent.ts:297-358 | one attempt opens the streams of the specification, re-running a stall once |
| StreamRetry.CallWithRetry | packages/ai-claude-compat/src/subagent.ts:613-675 | the retry loop makes the attempts of the specification |
| StreamRetry.GenerationDisciplined | packages/ai-claude-compat/src/subagent.ts:297-358 | whatever the streams do: at most 2(maxRetries+1) streams, a stall after the submit call is the last event, a stall before it is re-run at most once in its attempt, and every further attempt follows a retryable error that was not cancelled |
| StreamRetry.CallDisciplined | packages/ai-claude-compat/src/subagent.ts:613-675 | the same from any attempt on |
| StreamRetry.CallStopsIff | packages/ai-claude-compat/src/subagent.ts:613-675 | a call stops exactly behind a stream that answers, or whose error is the last allowed, cancelled or not transient, and reports that error; a stall before the submit call always gets one more stream |
| StreamRetry.BoundIsMet | packages/ai-claude-compat/src/subagent.ts:613-675 | a provider that stalls and then fails transiently uses up the bound |
| Pool.WidthBounds | packages/ai-claude-compat/src/pool.ts:28 | at least one lane, never more than items, else the whole part of the limit |
| Pool.WidthIs | packages/ai-claude-compat/src/pool.ts:28 | the width for every limit: one for no number, all items for infinity, else the whole part between one and the number of items |
| Pool.NextInv | packages/ai-claude-compat/src/pool.ts:28-63 | every step of a lane, failure, abort or settling keeps the invariant |
| Pool.PoolSafety | packages/ai-claude-compat/src/pool.ts:28-63 | in every interleaving at most the width of workers are in flight, items start in order and at most once, and the pool resolves only with every slot holding its own item's result |
| Pool.NoStartAfterStop | packages/ai-claude-compat/src/pool.ts:28-63 | after a failure or abort no worker starts |
| Pool.StopSettles | packages/ai-claude-compat/src/pool.ts:28-63 | behind a failure or abort nothing starts any more in any continuation, and the pool is rejected for good unless it had resolved with every result in place |
| Pool.VerdictIsFinal | packages/ai-claude-compat/src/pool.ts:28-63 | a settled pool stays settled the same way |
| Pool.RunsAreBounded | packages/ai-claude-compat/src/pool.ts:28-63 | every interleaving ends after a bounded number of steps |
| Pool.NeverStuck | packages/ai-claude-compat/src/pool.ts:28-63 | while the pool is pending some lane can move or the pool can settle |
| Disposer.EachRunsOnce | packages/aitm/src/loop/disposer.ts:15-49 | in every interleaving of registrations, calls, releases and throws each release starts at most once and waits on the stack until then |
| Disposer.NewestFirst | packages/aitm/src/loop/disposer.ts:36-41 | what is released next was registered after everything else still held |
| Disposer.DrainLeavesNothing | packages/aitm/src/loop/disposer.ts:25-49 | when a drain ends, everything registered by then has been released |
| Disposer.EveryThrowReported | packages/aitm/src/loop/disposer.ts:36-49 | every throw is reported by exactly one drain, in order, or will be by the one under way |
| Disposer.DrainsFinish | packages/aitm/src/loop/disposer.ts:25-49 | until every call is answered a step is possible, and without new work the steps run out |
| Imports.ExpansionBounded | packages/aitm/src/agent-config/expand-imports.ts:49-196 | on every graph of files each real file is inlined at most once, the source file never, nesting stays within the limit and the inlined bytes within the budget |
| Imports.OutputBounded | packages/aitm/src/agent-config/expand-imports.ts:49-196 | on every graph of files the emitted text is at most twice as long as the entry file and the byte budget together |
| Imports.UnresolvedUnchangedIff | packages/aitm/src/agent-config/expand-imports.ts:136-165 | text whose paths lead nowhere is unchanged if and only if no path outside code has trailing punctuation |
| Imports.PunctuationTwice | packages/aitm/src/agent-config/expand-imports.ts:153-161 | the dot behind a path that leads nowhere is emitted twice |
| ImportReading.ExpandIs | packages/aitm/src/agent-config/expand-imports.ts:80-196 | the expansion of any text, line by line: fences and lines behind an open one stay, so do code spans and references that lead nowhere; every reference that leads to a new file within depth and budget is that file, expanded from its own directory |
| ImportReading.NextRefIs | packages/aitm/src/agent-config/expand-imports.ts:143-152 | the next reference is the leftmost place with `@` and a path, at the very start or behind white space; there is none only when no such place is left |
| ImportReading.RefAtIff | packages/aitm/src/agent-config/expand-imports.ts:143-152 | a reference is read at a place if and only if lead, `@` and the path up to the next white space stand there |
| ImportReading.StripIs | packages/aitm/src/agent-config/expand-imports.ts:153-155 | a path is looked up without exactly the punctuation at its end |
| ImportReading.MarksIff | packages/aitm/src/agent-config/expand-imports.ts:105-116 | a line is a fence if and only if three of one of the two fence characters stand behind its white space |
| ImportReading.FenceStep | packages/aitm/src/agent-config/expand-imports.ts:80-116 | the fence kept by the loop is the one that an earlier line opened and no line with its character closed |
| ImportReading.SegmentsIff | packages/aitm/src/agent-config/expand-imports.ts:118-134 | a line is cut into text and code spans in turn, spans taking all their backticks; only one cut does that |
| Imports.Expander.ExpandText | packages/aitm/src/agent-config/expand-imports.ts:80-103 | the loop over lines, with its fence, is the specified expansion and leaves the specified memo and budget |
| Imports.Expander.ExpandLine | packages/aitm/src/agent-config/expand-imports.ts:118-134 | the loop over the pieces of a line skips the code spans |
| Imports.Expander.ExpandPlain | packages/aitm/src/agent-config/expand-imports.ts:136-165 | the loop over references emits the text between them once |
| Imports.Expander.InlineImport | packages/aitm/src/agent-config/expand-imports.ts:167-196 | memo, budget and depth are checked and updated in this order |
| Imports.Segments | packages/aitm/src/agent-config/expand-imports.ts:118-134 | cutting a line at its code spans loses nothing |
| ChecksPoller.PollChecks | packages/aitm/src/github/checks-poller.ts:158-231 | the loop stops at the first poll for which the history of the reads gives a verdict, and returns that verdict |
| ChecksPoller.VerdictJustified | packages/aitm/src/github/checks-poller.ts:158-231 | green only when one read had every check passed, skipped or tolerated or reads were empty for the whole grace; red always names a failed, non-tolerated check; a read error only behind five bad reads in a row |
| ChecksPoller.VerdictIff | packages/aitm/src/github/checks-poller.ts:158-231 | when a poll gives which verdict: none exactly when aborted, an error exactly behind five bad reads, red exactly when a row failed untolerated, green exactly when all rows are done or missing checks are given up on, timed out otherwise after two hours |
| ChecksPoller.GraceEndsIff | packages/aitm/src/github/checks-poller.ts:158-231 | missing checks are given up on exactly at the seventh poll behind four empty reads, or later behind one |
| ChecksPoller.AggregateChecks | packages/aitm/src/github/checks-poller.ts:117-130 | failed or cancelled if and only if some row fails untolerated, success if and only if there are rows and all are settled |
| ChecksPoller.CollectFailedChecks | packages/aitm/src/github/checks-poller.ts:145-152 | the failed checks in order |
| ChecksPoller.FailedIff | packages/aitm/src/github/checks-poller.ts:145-152 | a check is reported if and only if one of its rows fails and is not tolerated |
| ChecksPoller.FailedAre | packages/aitm/src/github/checks-poller.ts:145-152 | exactly the rows that failed or were cancelled untolerated are listed, in order, with their status |
| ChecksPoller.Summarize | packages/aitm/src/github/checks-poller.ts:134-143 | the first row of every name, in order |
| ChecksPoller.SummaryOnePerName | packages/aitm/src/github/checks-poller.ts:134-143 | no name twice, no name lost, every line says what the first row of its name said |
| ChecksPoller.SummaryIs | packages/aitm/src/github/checks-poller.ts:134-143 | exactly the first row of each name is listed, in order |
| ChecksPoller.GraceIff | packages/aitm/src/github/checks-poller.ts:158-231 | the waited time reaches the grace if and only if some unbroken run of empty reads lasted that long |
| ChecksPoller.AtMost125Polls | packages/aitm/src/github/checks-poller.ts:158-231 | if the clock moves at least as far as each sleep there are at most 125 polls |
| ChecksPoller.BoundIsMet | packages/aitm/src/github/checks-poller.ts:158-231 | checks that stay pending under an exact clock are polled 125 times |
| ReviewThreads.CollectUnseen | packages/aitm/src/github/review-threads.ts:113-123 | the records collected are those whose id did not come before in anything fetched |
| ReviewThreads.FirstSeenOncePerId | packages/aitm/src/github/review-threads.ts:113-123 | no id twice, no id lost, every record the first of its id |
| ReviewThreads.FirstSeenIs | packages/aitm/src/github/review-threads.ts:113-123 | exactly the first record of each id is kept, in order |
| ReviewThreads.Paginate | packages/aitm/src/github/review-threads.ts:125-244 | the walk stops at the first page that is last, leads nowhere or repeats its cursor, or after 100 pages, keeps every page fetched and warns exactly when it was cut short |
| ReviewThreads.WalkDecides | packages/aitm/src/github/review-threads.ts:125-244 | said on the pages alone: the walk goes on behind a page if and only if it is neither an end nor ends where the one before ended, and returns the nodes of all pages once with the warning for what stopped it |
| ReviewThreads.FailedWalk | packages/aitm/src/github/review-threads.ts:125-244 | a request that brings no page ends the walk with nothing |
| ReviewThreads.CompleteWhenServed | packages/aitm/src/github/review-threads.ts:125-244 | from a server that ends within the cap everything arrives once, without a warning |
| TokenPatterns.TokenMatchesIff | packages/ai-claude-compat/src/command-rules.ts:147-155 | the regular expression built from a token passes exactly the tokens in which each star is replaced by a run without line terminators; equality is the case without stars |
| TokenPatterns.BodyIsJoin | packages/ai-claude-compat/src/command-rules.ts:147-155 | escaping the pieces and joining them is escaping character by character |
| CommandRules.SplitCompound | packages/ai-claude-compat/src/command-rules.ts:32-64 | the loop cuts at the operators outside quotes |
| CommandRules.DoubledOrNot | packages/ai-claude-compat/src/command-rules.ts:32-64 | the two-character operators cut as two single ones would |
| CommandRules.SequenceDenied | packages/ai-claude-compat/src/command-rules.ts:16-64 | a sequence by any operator, whose first part ends outside quotes, is denied if and only if one of its parts is, with the pattern of the first |
| CommandRules.Tokenize | packages/ai-claude-compat/src/command-rules.ts:68-94 | the loop cuts at white space outside quotes |
| CommandRules.QuotedCommandIsOne | packages/ai-claude-compat/src/command-rules.ts:16-94 | operators and spaces inside quotes never split: a command of quoted tokens is judged as those tokens |
| CommandRules.LineTokens | packages/ai-claude-compat/src/command-rules.ts:68-94 | quoting any tokens and cutting the line gives the tokens back |
| CommandRules.SkipCommandPrefixes | packages/ai-claude-compat/src/command-rules.ts:101-113 | the loop drops the leading wrappers |
| CommandRules.WrappersDoNotHide | packages/ai-claude-compat/src/command-rules.ts:101-113 | no run of assignments and wrappers in front of a command changes what is judged |
| CommandLines.PatternOfWords | packages/ai-claude-compat/src/command-rules.ts:119-143 | a pattern written as words matches if and only if its first word matches the command basename and the others can be embedded in order among the other tokens |
| CommandLines.OneRuleVerdict | packages/ai-claude-compat/src/command-rules.ts:16-143 | a written command is denied by one deny rule if and only if, behind its wrappers, the first word of the rule matches its basename and the others embed in order |
| CommandLines.ScriptVerdict | packages/ai-claude-compat/src/command-rules.ts:16-94 | written commands with operators between them are judged one by one by the values of their tokens, whatever their quotes hold; the first denial counts |
| CommandLines.TokensOfCommand | packages/ai-claude-compat/src/command-rules.ts:68-94 | a command written as tokens of bare and quoted pieces with white space between is cut into exactly the values of those tokens |
| CommandLines.FirstMatchDecides | packages/ai-claude-compat/src/command-rules.ts:16-27 | a command is denied by a pattern if and only if the first rule that matches denies it and has that pattern |
| CommandLines.UnwrappedMeans | packages/ai-claude-compat/src/command-rules.ts:101-113 | exactly the leading variables, env, command and later double dashes are looked through |
| CommandLines.AssignmentIff | packages/ai-claude-compat/src/command-rules.ts:96-113 | a token sets a variable if and only if it is a name, an equals sign and a value |
| CommandLines.BasenameMeans | packages/ai-claude-compat/src/command-rules.ts:158-161 | the basename is what stands behind the last slash |
| CommandRules.MatchesPattern | packages/ai-claude-compat/src/command-rules.ts:119-143 | the nested loops succeed if and only if the pattern matches the tokens |
| CommandRules.GreedyIff | packages/ai-claude-compat/src/command-rules.ts:127-142 | the greedy pass succeeds if and only if some in-order embedding exists |
| CommandRules.InsertedStillMatches | packages/ai-claude-compat/src/command-rules.ts:119-143 | tokens put anywhere behind the command never un-match a pattern |
| CommandRules.InsertedStillDenied | packages/ai-claude-compat/src/command-rules.ts:16-27 | under deny rules alone such tokens never lift a denial |
| CommandRules.EvaluateCommand | packages/ai-claude-compat/src/command-rules.ts:16-27 | the first denied subcommand decides, by its first matching rule |
| CiFix.PushDiscipline | packages/aitm/src/loop/ci-fix.ts:363-422 | the force-push is the last step, only under policy, not cancelled, right behind a rebase or continue that exited 0; fixed is returned exactly when it succeeded; the resolver and continue run only on what git just listed |
| CiFix.BlockedMidRebaseIff | packages/aitm/src/loop/ci-fix.ts:363-514 | a blocked run leaves a rebase in progress if and only if aborting failed twice, as it reports, and left it, or it found one and stopped before its own |
| CiFix.FoundRebaseStays | packages/aitm/src/loop/ci-fix.ts:363-422 | a run cancelled before it starts leaves the rebase it found in progress |
| CiFix.ResolverRunsAtMostTwice | packages/aitm/src/loop/ci-fix.ts:429-514 | the resolver runs at most twice, and never when none is given |
| CiFix.CleanRebasePushesIff | packages/aitm/src/loop/ci-fix.ts:363-422 | a rebase without conflicts is pushed if and only if policy allows it, the fetch succeeded and no check saw a cancellation |
| CiFix.ResolvedRebasePushes | packages/aitm/src/loop/ci-fix.ts:429-514 | a conflict that the resolver settles at once is pushed |
| CiFix.PushesIff | packages/aitm/src/loop/ci-fix.ts:363-514 | a run pushes if and only if it begins and rebases without a conflict, or with one that its last attempt settles, and is not cancelled by then |
| CiFix.CauseIff | packages/aitm/src/loop/ci-fix.ts:363-514 | each reason a blocked run gives is given exactly when it is the case |
| CiFix.ResolutionEnds | packages/aitm/src/loop/ci-fix.ts:429-514 | the last attempt decides: the second, or the first when no second follows |
| CiFix.SomeLast | packages/aitm/src/loop/ci-fix.ts:429-514 | every run of the attempts has a last one |
| CiFix.UnsettledAborts | packages/aitm/src/loop/ci-fix.ts:429-454 | a conflict that is not settled ends in an abort, tried again once if it fails, which a second failure reports |
| CiFix.UnmergedIs | packages/aitm/src/loop/ci-fix.ts:518-526 | the unmerged files are the lines git prints that are not blank, trimmed and in order; none when it fails |
| CiFix.Session.RebaseAndForcePush | packages/aitm/src/loop/ci-fix.ts:363-422 | the steps taken and the result are those of the specification |
| CiFix.Session.ResolveRebaseConflicts | packages/aitm/src/loop/ci-fix.ts:429-514 | the attempt loop takes the steps of the specification |
| CiFix.Session.AbortRebase | packages/aitm/src/loop/ci-fix.ts:440-454 | abort is tried once more when it fails, and a second failure is reported |
| Memory.FileStemIsStem | packages/ai-claude-compat/src/memory-loader.ts:74-79 | a stem is lower-case words joined by single hyphens and is its own stem |
| Memory.StemJoins | packages/ai-claude-compat/src/memory-loader.ts:74-79 | the stem is the runs of letters and digits of the lower-cased name, joined by single hyphens |
| Memory.LineReadsBack | packages/ai-claude-compat/src/memory-loader.ts:86-110 | an index line reads back as its file and its right-trimmed description, or not at all |
| Memory.ParseIff | packages/ai-claude-compat/src/memory-loader.ts:86-110 | a line is read as an entry if and only if it is a bracketed name, the file in parentheses, a dash and a description on one line |
| Memory.ReadableIff | packages/ai-claude-compat/src/memory-loader.ts:86-110 | a description comes back as it is if and only if it is not empty, ends in no white space and stays on one line |
| Memory.IndexReadsBack | packages/ai-claude-compat/src/memory-loader.ts:103-185 | reading a written index gives exactly the readable part of every entry, in order |
| Memory.ReadIndex | packages/ai-claude-compat/src/memory-loader.ts:103-110 | the loop collects the entries of the lines that parse |
| Memory.AgreeBehindWrite | packages/ai-claude-compat/src/memory-loader.ts:168-185 | from any state, index and directory agree after a write if and only if the description reads back as it is and they agreed on the other files |
| Memory.LaterWriteRepairs | packages/ai-claude-compat/src/memory-loader.ts:168-199 | what an unreadable description broke, the next readable write of that memory or its removal repairs |
| Memory.EmptyDescriptionVanishes | packages/ai-claude-compat/src/memory-loader.ts:153-185 | every memory named by a stem and without a description is accepted and gets a file that the index does not list |
| Memory.FlakyVanishes | packages/ai-claude-compat/src/memory-loader.ts:153-185 | for one, the memory named flaky |
| Memory.MemoryDir.Upsert | packages/ai-claude-compat/src/memory-loader.ts:153-185 | from any state: an invalid memory changes nothing; a valid one replaces its file and its one line and keeps every other; when index and directory agree afterwards |
| Memory.MemoryDir.Remove | packages/ai-claude-compat/src/memory-loader.ts:190-199 | from any state: file and line go together, agreement is kept or regained when only this file was off, no index is created |

## Left out

- `StreamRetry`: error classification is a status set and one flag for transient wording; delays and their jitter are not part of the model.
- `Matchers`: similarities are exact fractions where the source rounds to floating point.
- `Compaction.RewriteFits`: passing through on a failed lookup, without completed steps or without an older part is modelled but claims nothing about the budget.
- `CompactionRuns.ContextsPairedIff`: assumes that a rewritten context stays for the next step and that each step adds messages in which every tool result follows its call; `CompactionRuns.NoOrphanedResults` also that they begin with no tool message.
- `BackgroundProcess`: starting processes, signals and the timer that escalates to a kill are not part of the model.
- `OutputRuns`: whole runs of filtered reads use one filter; runs that mix filters and raw reads are those of `RawReads`, which states every raw read and the filtered reads directly behind one.
- `Secrets.AlwaysRemovedIff`: for a given list of several secrets that overlap the marker there is no exact condition, only `Secrets.NoSecretSurvives`; the exact condition over all lists is `Secrets.RemovedAmongOthersIff`.
- `Pool`: lanes are a transition system instead of coroutines, because their interleavings are the point; an empty input and a signal aborted before the start return before any lane exists and are left out.
- `Disposer`: likewise a transition system; `disposeQuietly` only swallows the error.
- `Imports.OutputBounded`: takes it that no text has more characters than bytes; the factor two covers punctuation that is emitted twice.
- `Imports`: where a path leads and whether it lies inside the root are one arbitrary function, so links and path containment are not modelled.
- `ChecksPoller`: parsing the rows and the whitelist of tolerated failures are arbitrary functions of the answer and the row.
- `ReviewThreads`: the two walks differ only in their first cursor and share one model; printing the warning is left out.
- `Memory`: lower-casing is an arbitrary function; writes are one at a time, as the lock of the directory makes them, and file errors are left out.
- `Memory.MemoryDir.Upsert`: of an index that was edited by hand to link a file whose name holds a bracket, only the text of the new index is stated, not what reads back.
- `CiFix`: what commands print is used only for the list of unmerged files; error texts are constructors.
- `GlobCompiler`: walking directories, ignore files and the search itself are left out, as is user-written regular expressions' own syntax.
- `Text`: characters stand for code units; sizes in bytes are an arbitrary function of the text.
- Repairing unescaped line breaks in model output, fence stripping and validation against schemas are left out: they add no property that spans steps.
- The vendor-token scrubber, command-line parsing, prompts, configuration precedence and formatting are left out: each is settled by one branch.
