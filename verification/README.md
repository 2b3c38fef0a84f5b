# Ren'Py dialogue translator — a Dafny model

`Py/translatev7.py` translates the dialogue of a Ren'Py script. It takes in
the file line by line. Blank lines, comments and `$` lines pass through
unchanged. On every other line it finds each double-quoted span with the
regular expression `"([^"]*)"`. A classifier decides whether the span is
dialogue or code: it looks at the keyword in front of the quote and at asset
file names. Dialogue is sent to the external `trans` command.

There are two modes:

- **Batch mode.** Queued spans are joined with the separator `|~|~|`, five
  to a call. The reply is split back apart. A batch that fails falls back to
  one call per text. The translations are spliced back into their lines, and
  the program pauses after every full batch.
- **Sequential mode.** Each accepted span is translated on its own as the
  line is read.

A dictionary of ten counters records what happened to every span.

The model is organised in modules:

- **Text**: Python's `strip`/`rstrip`, `lower`/`upper`, `in`, `startswith`/`endswith`, `split` and `join` on `seq<char>`.
- **Classifier**: the dialogue-or-code decision.
- **Scanner**: the quoted-span scan.
- **Codec**: a single call and a batch call to the command.
  - The command is an oracle: a function from the request to `Exited(code, stdout, stderr)`, `TimedOut` or `Raised(message)`.
  - The batch call covers encoding, the separator search and decoding.
- **Rewrite**: splicing translations into a line.
- **Chunking**: splitting the queued items into batches.
- **Pipeline**: specification functions for translating one text and one batch, with their counter updates.
  - `Service`/`ServiceOf` packages the oracle's single and batch calls, tied to the codec.
- **Lines**: taking in one line; rewriting the buffered lines; the sequential mode.
- **Driver**: the batch loop of `run`.
  - `RunBatch` is the loop as written.
  - `RunInOrder` is the corrected loop (see Findings).
- **Translator**: class `AutoTranslator`.
  - The field `stats` is the counter dictionary. The ghost field `pauses` counts the half-second sleeps.
  - Every method updates the object in place and is proved equal to the specification function for its step.

## Model

| member | source | states |
|---|---|---|
| Text.LStrip | Py/translatev7.py:120 | the result is a suffix of the input; everything removed is whitespace; the result does not start with whitespace |
| Text.RStrip | Py/translatev7.py:335 | the result is a prefix of the input; everything removed is whitespace; the result does not end with whitespace |
| Text.StripFixesTrimmed | Py/translatev7.py:232 | stripping yields a trimmed string, and a string is its own strip exactly when it is trimmed |
| Text.StripIdempotent | Py/translatev7.py:232 | stripping twice is stripping once |
| Text.BlankIffAllSpace | Py/translatev7.py:249 | a text is blank exactly when every character is whitespace |
| Text.BlankIffStripEmpty | Py/translatev7.py:249 | a text is blank exactly when its strip is empty, so `not text.strip()` is the blank test |
| Text.FindFrom | Py/translatev7.py:229 | the first occurrence of the pattern at or after the start, or none at all |
| Text.FindFromContains | Py/translatev7.py:210 | a search from 0 finds something exactly when the pattern is contained |
| Text.BoundaryCleanHasNoSeparator | Py/translatev7.py:186-188 | a text with no separator occurrence, even one overlapping a following separator, contains no separator |
| Text.FirstSeparatorAfter | Py/translatev7.py:229 | in `t + sep + rest` with `t` clean, the first separator starts right after `t` |
| Text.SplitJoin | Py/translatev7.py:179 | splitting a join on the same separator gives back the parts when no part can be confused with the separator |
| Classifier.StartsWithAnyMeans | Py/translatev7.py:122-124 | the keyword loop fires exactly when some lower-cased keyword prefixes the text |
| Classifier.EndsWithAnyMeans | Py/translatev7.py:136 | the suffix-tuple test holds exactly when some listed extension ends the text |
| Classifier.ShouldTranslate | Py/translatev7.py:118-140 | an accepted span names no asset, and the text before its quote neither contains `$` nor ends with `:` |
| Classifier.ShouldTranslateRules | Py/translatev7.py:118-140 | a span is refused exactly when the stripped, lower-cased text before its quote starts with a skip keyword, contains `$`, or ends with `:` or `old`, or when the span ends with an asset extension or contains `/` or `\` |
| Classifier.ShouldTranslateLocal | Py/translatev7.py:120 | the decision depends only on the line up to the quote and on the span's text |
| Classifier.ShowStatementSkipped | Py/translatev7.py:122-124 | a span after a `show ` statement is never translated |
| Classifier.PngAssetSkipped | Py/translatev7.py:136-138 | a span naming a `.png` file is never translated |
| Classifier.LeadingProseTranslated | Py/translatev7.py:118-140 | a span at the start of a line that names no asset is translated |
| Classifier.NoKeywordEmpty | Py/translatev7.py:122-124 | no non-empty keyword prefixes the empty text |
| Scanner.NextQuote | Py/translatev7.py:361 | a found position is at or after the start and holds a quote |
| Scanner.NextQuoteFirst | Py/translatev7.py:361 | no quote lies between the start and the found position |
| Scanner.NextQuoteAtMost | Py/translatev7.py:361 | when a quote exists at or after the start, one is found no later than it |
| Scanner.ScanFrom | Py/translatev7.py:361 | the `finditer` scan from a position: the next quote opens a span and the quote after it closes the span, and an unpaired quote ends the scan (its properties are Scanner.ScanWellFormed and Scanner.ScanCoversQuotes) |
| Scanner.ScanWellFormed | Py/translatev7.py:361 | the scan yields quoted spans in increasing, non-overlapping order, each with no quote inside, all after the start |
| Scanner.FindQuotes | Py/translatev7.py:361 | the matches of a line are well-formed quoted spans |
| Scanner.ScanCoversQuotes | Py/translatev7.py:361 | any quote followed later by another quote is the opening or closing quote of some match, so no quote pair is missed |
| Codec.EncodeBatch | Py/translatev7.py:175-188 | the empty batch, an over-long join and a separator collision are each rejected exactly under their condition, checked in that order; otherwise the request is the join, at most 1000 characters |
| Codec.SeparatorVariants | Py/translatev7.py:211-217 | the fallback separators are non-empty |
| Codec.FirstContained | Py/translatev7.py:218-222 | a found variant is contained in the reply and no earlier variant is; none is found exactly when none is contained |
| Codec.ChooseSeparator | Py/translatev7.py:209-229 | a chosen separator is non-empty and occurs in the reply; the exact separator is chosen whenever it occurs; nothing is chosen exactly when neither the separator nor any variant occurs |
| Codec.CleanParts | Py/translatev7.py:232 | the kept parts are non-empty, trimmed and no more than the split gave (Codec.CleanPartsCons, Codec.CleanPartsAppend and Codec.CleanPartsDropsBlank state which parts are kept, in order) |
| Codec.CleanPartsCons | Py/translatev7.py:232 | one part at a time: a blank part is dropped, any other part is kept stripped, in front of the cleaned rest |
| Codec.CleanPartsAppend | Py/translatev7.py:232 | cleaning a concatenation is the concatenation of the cleaned pieces, so the kept parts stay in order |
| Codec.CleanPartsDropsBlank | Py/translatev7.py:232 | a blank segment anywhere, such as the empty one between two adjacent separators, is dropped without shifting the other parts |
| Codec.DecodeBatch | Py/translatev7.py:204-238 | a decoded reply has exactly the expected number of non-empty, trimmed translations |
| Codec.BatchReply | Py/translatev7.py:190-243 | an accepted command answer came with exit code 0 and yields the expected number of non-empty, trimmed translations |
| Codec.TranslateBatch | Py/translatev7.py:170-243 | a successful batch call answers a non-empty batch with one non-empty, trimmed translation per text |
| Codec.TranslateSingle | Py/translatev7.py:142-168 | a successful single call came with exit code 0 and yields the command's stripped output, which is non-empty, trimmed and contains neither `error` nor `failed` in any case; a timed-out call gives the timeout error |
| Codec.SingleReply | Py/translatev7.py:154-164 | a success comes only from exit code 0 and is the stripped standard output, non-empty, trimmed and containing neither `error` nor `failed` in any case |
| Codec.SingleReplyAccepts | Py/translatev7.py:158-164 | an exit-0 reply whose stripped output is non-empty and mentions neither `error` nor `failed` is accepted as that stripped output |
| Codec.SingleReplyFails | Py/translatev7.py:154-156 | a non-zero exit fails with the stripped error output, else the stripped standard output, else the default message |
| Codec.SingleEchoRoundTrip | Py/translatev7.py:142-164 | if the command echoes its input, a trimmed, non-empty text mentioning neither `error` nor `failed` comes back unchanged |
| Codec.EncodeFailureSendsNothing | Py/translatev7.py:175-188 | a batch rejected before the call gives the same error whatever the command would answer |
| Codec.BlankReplyRejected | Py/translatev7.py:206-207 | a blank reply with exit code 0 is an empty-result error |
| Codec.SeparatorHasNoCase | Py/translatev7.py:212-213 | the separator is its own lower and upper case |
| Codec.SeparatorMustSurvive | Py/translatev7.py:209-225 | a non-empty reply without the exact separator is rejected, because every variant contains it |
| Codec.VariantsAbsent | Py/translatev7.py:211-224 | without the separator, no fallback variant occurs in the reply either |
| Codec.JoinTrimmed | Py/translatev7.py:204 | joining parts whose first and last are trimmed gives a trimmed string |
| Codec.CleanPartsKeepsTrimmed | Py/translatev7.py:232 | cleaning parts that are already non-empty and trimmed changes nothing |
| Codec.EncodeAccepts | Py/translatev7.py:175-188 | a non-empty batch within the length limit and free of separators is sent as its join |
| Codec.DecodeJoin | Py/translatev7.py:204-238 | decoding the join of two or more clean, trimmed texts gives the texts back |
| Codec.EchoRoundTrip | Py/translatev7.py:170-238 | if the command echoes its request, a clean batch of two or more texts comes back unchanged |
| Codec.OneTextEchoRejected | Py/translatev7.py:209-225 | a one-text batch answered with itself fails with a lost separator |
| Codec.StraddlingSeparatorMisaligns | Py/translatev7.py:179-238 | the batch `["a\|~", "b"]` passes the collision check, and its echo decodes to `["a", "~\|b"]` |
| Codec.EncodeBatchChecked | Py/translatev7.py:175-188 | the corrected encoder: an accepted request is non-empty and splits back on the separator into exactly the texts, and it accepts only what the encoder as written accepts |
| Codec.StraddleRejected | Py/translatev7.py:185-188 | the corrected encoder refuses the batch `["a\|~", "b"]` with a separator collision |
| Codec.CheckedEchoRoundTrip | Py/translatev7.py:170-238 | a batch of two or more non-empty, trimmed texts accepted by the corrected encoder decodes from its own request back to the texts |
| Codec.LowerPrefixOccurs | Py/translatev7.py:257 | the letter-by-letter timeout scan agrees with an occurrence in the lower-cased text |
| Codec.MentionsTimeoutContains | Py/translatev7.py:257 | the timeout scan holds exactly when `timeout` occurs in the lower-cased message |
| Codec.IsTimeoutError | Py/translatev7.py:257 | the timeout test read off each kind of single-call error (Codec.TimeoutErrorByMessage proves it is the substring test on the lower-cased message) |
| Codec.TimeoutErrorByMessage | Py/translatev7.py:257 | an error counts as a timeout exactly when its message contains `timeout` in any case |
| Codec.TimeoutIsRecognised | Py/translatev7.py:165-166 | the single call's timeout message is classed as a timeout |
| Codec.EmptyResultNoTimeout | Py/translatev7.py:161-162 | the empty-or-error-result message is not classed as a timeout |
| Codec.SilentFailureNoTimeout | Py/translatev7.py:155 | the default command-failure message is not classed as a timeout |
| Codec.UnexpectedPrefixNoTimeout | Py/translatev7.py:167-168 | an unexpected exception is classed as a timeout exactly when its own text mentions one |
| Rewrite.QuotedSpan | Py/translatev7.py:361 | a quoted span's slice is its content between two quotes |
| Rewrite.SpliceFrom | Py/translatev7.py:425-427 | reference definition of a rewritten line: the text between spans copied, span i replaced by value i in quotes (its properties are Rewrite.SpliceShift, Rewrite.SpliceIdentity and Rewrite.SubstituteAll) |
| Rewrite.SpliceShift | Py/translatev7.py:425-427 | text before the next span is copied through unchanged |
| Rewrite.SpliceIdentity | Py/translatev7.py:416-427 | splicing each span's own content back leaves the line unchanged |
| Rewrite.SubstituteAll | Py/translatev7.py:356 | the left-to-right substitution of `re.sub` yields the splice of the values into the spans |
| Rewrite.ApplyDescending | Py/translatev7.py:416-427 | replacing spans from the last to the first, as the source does, yields the same splice |
| Chunking.ChunksCover | Py/translatev7.py:401-402 | the batches, concatenated, are the item list |
| Chunking.ChunksShape | Py/translatev7.py:401-402 | every batch is non-empty and at most the batch size, and every batch but the last is full |
| Chunking.CountFullChunks | Py/translatev7.py:407-408 | the number of full batches is the item count divided by the batch size, rounded down |
| Pipeline.ServiceOf | Py/translatev7.py:142-243 | the service's single and batch calls are the codec's calls to the command |
| Pipeline.TranslateTextValue | Py/translatev7.py:245-272 | the text a single attempt yields is the text itself or the single call's translation, and a blank text comes back unchanged |
| Pipeline.TranslateTextOutcome | Py/translatev7.py:245-272 | the result is the text itself or the single call's translation; success holds exactly for a non-blank text whose call succeeds; the empty-output status never arises; any non-success keeps the text |
| Pipeline.BlankTextStatus | Py/translatev7.py:249-252 | a blank text is counted as empty input and returned unchanged |
| Pipeline.FailedTextStatus | Py/translatev7.py:256-263 | a failed call is counted as a timeout or a failure by its message, and the text is returned unchanged |
| Pipeline.TranslatedTextStatus | Py/translatev7.py:270-272 | a successful call is counted as a success and its translation returned |
| Pipeline.RecordText | Py/translatev7.py:247-270 | the counter update for one text: the processed counter and the counter of its status (Pipeline.RecordTextAccounts proves the totals) |
| Pipeline.RecordTextAccounts | Py/translatev7.py:247-270 | one text raises the processed counter by one and gives exactly one outcome; the batch counters stay |
| Pipeline.ZipMapKeys | Py/translatev7.py:294-297 | the built map has exactly the items' keys |
| Pipeline.ZipMapValue | Py/translatev7.py:294-297 | a key maps to the value of its last occurrence |
| Pipeline.FallbackAt | Py/translatev7.py:322-327 | the fallback value of item i is that text translated on its own |
| Pipeline.ChunkMap | Py/translatev7.py:274-331 | the map of one batch: the zipped batch reply on success, the per-text fallback otherwise (its properties are the ChunkMap lemmas below) |
| Pipeline.ChunkMapKeys | Py/translatev7.py:274-331 | one batch's map has exactly the batch's keys, whether the batch call succeeds or fails |
| Pipeline.ChunkMapOnSuccess | Py/translatev7.py:287-306 | after a successful batch call, item i's key maps to translation i, when no later item has that key |
| Pipeline.OutcomeMapOnSuccess | Py/translatev7.py:294-297 | a successful outcome maps item i's key to translation i, when no later item has that key |
| Pipeline.ChunkMapOnFailure | Py/translatev7.py:307-331 | after a failed batch call, each key maps to its text translated on its own, which is either that text or a successful single translation |
| Pipeline.ChunkMapOrigin | Py/translatev7.py:274-331 | every value in a batch's map is its key's text itself, its successful single translation, or its translation at its own position in a successful batch call |
| Pipeline.ChunkStatsAccounts | Py/translatev7.py:287-331 | every item of a batch is processed once and gets one outcome; a success adds a batch success and counts every item as a success; a failure adds a batch failure and counts every item as a fallback |
| Pipeline.RecordAllAccounts | Py/translatev7.py:322-327 | translating a list of texts one by one processes each once and gives each one outcome |
| Lines.FilterPartition | Py/translatev7.py:364-369 | kept plus skipped matches make up all matches, and every kept match is in the chosen list |
| Lines.FilterMembers | Py/translatev7.py:364-369 | every chosen match is a kept match of the line |
| Lines.FilterWellFormed | Py/translatev7.py:364-369 | the chosen matches keep the scan's order and disjointness |
| Lines.ChosenAccounts | Py/translatev7.py:364-369 | chosen plus skipped spans are all the matches, and a match is chosen exactly when the classifier accepts it and its text is not blank |
| Lines.IntakeLine | Py/translatev7.py:333-378 | a queued line carries its own line number |
| Lines.IntakePassed | Py/translatev7.py:338-341 | a blank, comment or `$` line is returned as it came in, and no span is counted as skipped |
| Lines.IntakeVerbatim | Py/translatev7.py:338-341 | only a passed-through line comes back verbatim, unchanged and with no skipped span |
| Lines.IntakeAccounts | Py/translatev7.py:333-378 | a queued line holds its right-stripped text and all of its matches; its chosen spans are exactly the accepted, non-blank matches; chosen plus skipped is the number of matches |
| Lines.MergeMaps | Py/translatev7.py:400-404 | the batches' maps merged in order, a later entry winning (Lines.MergeMapsKeys and Lines.MergeMapsOrigin state its keys and values) |
| Lines.MergeMapsKeys | Py/translatev7.py:400-404 | the merged translations have exactly the keys of all batch items |
| Lines.MergeMapsOrigin | Py/translatev7.py:400-404 | every merged value is its key's text itself, its successful single translation, or its translation in a successful batch call |
| Lines.TranslationsCoverSpans | Py/translatev7.py:380-431 | every chosen span of every buffered line has a translation entry |
| Lines.ChosenValueOrigin | Py/translatev7.py:421-427 | the value spliced into each chosen span is that span's entry in the translations, and it is the span text itself, its single translation or its batch translation at its position |
| Lines.RewriteLine | Py/translatev7.py:412-429 | a buffered line with each chosen span replaced by its looked-up value, and a line ending (Lines.UntranslatedLineUnchanged and Lines.ChosenValueOrigin state its content) |
| Lines.RewriteAll | Py/translatev7.py:410-431 | one rewritten line per buffered line, in order |
| Lines.UntranslatedLineUnchanged | Py/translatev7.py:412-429 | a line whose spans all map to their own text is written back unchanged apart from trailing whitespace, which becomes one line ending |
| Lines.MergeStatsAccounts | Py/translatev7.py:400-404 | over all batches, every item is processed once with one outcome, and there is one batch call per batch |
| Lines.PendingStatsAccounts | Py/translatev7.py:380-431 | flushing the buffer processes each queued span once, gives each one outcome, makes one batch call per batch and leaves the skipped counter alone |
| Lines.PendingPausesCount | Py/translatev7.py:407-408 | the buffer pauses once per full batch of queued spans |
| Lines.SequentialLine | Py/translatev7.py:333-357 | the sequential mode's line: pass-through lines verbatim, otherwise the right-stripped line with every match replaced by its sequential value, and a line ending (Lines.SequentialSkippedLineUnchanged and Lines.SequentialAt state its content) |
| Lines.SequentialAt | Py/translatev7.py:345-353 | match i's sequential value and outcome are those of match i alone |
| Lines.SequentialValueAt | Py/translatev7.py:345-353 | match i's sequential value is that of match i alone |
| Lines.SequentialOutcomeAt | Py/translatev7.py:345-353 | match i's sequential outcome is that of match i alone |
| Lines.MapLinesAt | Py/translatev7.py:559-562 | output line i is the function applied to input line i |
| Lines.SequentialRunAt | Py/translatev7.py:557-571 | the sequential run has one output line per input line, and output line i is input line i processed alone |
| Lines.SequentialRunStep | Py/translatev7.py:560-562 | one more line appends its processed form and updates the counters by that line alone |
| Lines.RecordSequentialAccounts | Py/translatev7.py:345-353 | each match is either counted as skipped code or processed once with one outcome; the batch counters stay |
| Lines.SequentialSkippedLineUnchanged | Py/translatev7.py:345-357 | a line none of whose matches is dialogue comes out right-stripped and otherwise unchanged |
| Driver.FlushLineIsMod | Py/translatev7.py:587 | the recursive flush-line test is `line % 100 == 0` |
| Driver.ShouldFlush | Py/translatev7.py:584-588 | the buffer is flushed exactly when it holds a full batch, on the last line, or on a line number divisible by 100 |
| Driver.Flush | Py/translatev7.py:590-593 | a flush empties the buffer and emits one output line per buffered line |
| Driver.Step | Py/translatev7.py:577-595 | one iteration of the loop as written: the line taken in, its skipped spans counted, and the result handled by Driver.Advance (Driver.StepAdvances, Driver.LinesAccounted) |
| Driver.Advance | Py/translatev7.py:580-595 | a passed-through line goes to the output; a queued line joins the buffer, which is flushed when Driver.ShouldFlush holds (Driver.PendingBelowBatch) |
| Driver.RunBatch | Py/translatev7.py:572-595 | the state after the first k lines of the loop as written (Driver.LinesAccounted, Driver.TrailingBufferDropped) |
| Driver.PendingBelowBatch | Py/translatev7.py:584-593 | the buffer never holds a full batch between iterations |
| Driver.LinesAccounted | Py/translatev7.py:577-595 | after k lines, the output lines plus the buffered lines number k, plus what was there at the start |
| Driver.CompleteWhenLastLineQueued | Py/translatev7.py:584-593 | when the last line is queued, the buffer ends empty and the output has one line per input line |
| Driver.BatchIntakeQueues | Py/translatev7.py:580-581 | every line that does not pass through is queued |
| Driver.BatchIntakePasses | Py/translatev7.py:594-595 | every passed-through line is appended directly |
| Driver.TrailingBufferDropped | Py/translatev7.py:577-595 | a queued line followed by a final passed-through line leaves the queued line in the buffer, never emitted |
| Driver.BatchDropsTrailingBuffer | Py/translatev7.py:577-595 | the file `["x\n", "\n"]` produces only `["\n"]` |
| Driver.PassedLineOvertakes | Py/translatev7.py:577-595 | a passed-through line is emitted before a queued line that came earlier |
| Driver.StepInOrder | Py/translatev7.py:577-595 | one iteration of the corrected loop: the buffer is flushed before a passed-through line (Driver.InOrderAligned) |
| Driver.RunInOrder | Py/translatev7.py:572-595 | the state after the first k lines of the corrected loop (Driver.InOrderDrains, Driver.InOrderComplete) |
| Driver.InOrderDrains | Py/translatev7.py:577-595 | the corrected loop ends with an empty buffer |
| Driver.InOrderAligned | Py/translatev7.py:577-595 | in the corrected loop, every output line i is input line i verbatim or a rewrite of it, and the buffer holds exactly the next queued lines |
| Driver.InOrderComplete | Py/translatev7.py:577-595 | the corrected loop emits one output line per input line, aligned with its input |
| Driver.InOrderAgrees | Py/translatev7.py:577-595 | on a file where every line is queued, the corrected loop and the loop as written coincide |
| Translator.AutoTranslator.constructor | Py/translatev7.py:36-58 | a fresh translator has every counter at zero and calls the given command |
| Translator.AutoTranslator.TranslateText | Py/translatev7.py:245-272 | returns the text's translation value and records its status in the counters |
| Translator.AutoTranslator.ProcessBatchTranslation | Py/translatev7.py:274-331 | returns the batch's translation map and updates the counters as one batch call with per-item fallback |
| Translator.AutoTranslator.ZipTranslations | Py/translatev7.py:294-297 | builds the key-to-translation map item by item |
| Translator.AutoTranslator.TranslateEach | Py/translatev7.py:321-331 | the fallback loop builds the map of individually translated texts and its counters |
| Translator.AutoTranslator.ProcessLine | Py/translatev7.py:333-378 | returns the line's intake and adds its skipped spans to the skipped-code counter, nothing else |
| Translator.AutoTranslator.QueueMatches | Py/translatev7.py:359-378 | a line that does not pass through is queued with its matches and chosen spans, and its skipped spans are counted |
| Translator.AutoTranslator.SelectSpans | Py/translatev7.py:361-369 | the loop chooses exactly the accepted, non-blank matches and counts the rest as skipped |
| Translator.AutoTranslator.ProcessLineSequential | Py/translatev7.py:333-357 | returns the sequentially translated line and the counters of its matches |
| Translator.AutoTranslator.TranslateMatches | Py/translatev7.py:345-356 | translates each match in order, with its counters |
| Translator.AutoTranslator.TranslateMatch | Py/translatev7.py:345-353 | one match: skipped code keeps its text and is counted as skipped; anything else goes through one translation |
| Translator.AutoTranslator.CollectItems | Py/translatev7.py:388-397 | collects the chosen spans of all buffered lines as items, in order |
| Translator.AutoTranslator.TranslateChunks | Py/translatev7.py:399-408 | translates the items batch by batch, merging the maps and counters, with one pause per full batch |
| Translator.AutoTranslator.RewriteLines | Py/translatev7.py:410-431 | rewrites each buffered line with the translations |
| Translator.AutoTranslator.ProcessPendingLines | Py/translatev7.py:380-431 | returns the rewritten buffer and updates the counters and pauses as the buffer's specification says |
| Translator.AutoTranslator.BatchStep | Py/translatev7.py:577-595 | one iteration of the loop as written moves the state by exactly one driver step |
| Translator.AutoTranslator.QueueLine | Py/translatev7.py:580-593 | buffers a queued line and flushes when the condition holds |
| Translator.AutoTranslator.RunBatchMode | Py/translatev7.py:572-595 | the batch loop as written ends in the driver's final state for the file |
| Translator.AutoTranslator.BatchStepInOrder | Py/translatev7.py:577-595 | one iteration of the corrected loop moves the state by one corrected step |
| Translator.AutoTranslator.RunBatchModeInOrder | Py/translatev7.py:572-595 | the corrected loop ends in the corrected driver's final state, with an empty buffer |
| Translator.AutoTranslator.RunSequentialMode | Py/translatev7.py:557-571 | the sequential loop returns the sequential run of the file, its counters, and one pause per line |

## Left out

- Calls to `trans` through `subprocess`, together with their 25 s and 30 s timeouts. The command is a parameter: a deterministic function from the request to an exit code with stdout and stderr, a timeout, or an exception message. The model therefore cannot express two identical requests answered differently.
- `time.sleep(0.5)` is kept only as a ghost count of pauses (`pauses`); wall-clock time, elapsed-time and ETA figures are not modelled.
- Not part of this model: file I/O, logging and printed output.
  - `_generate_output_name`, `_generate_log_name`, `_init_log_file`, `_log_translation` and `_write_summary_log`.
  - `_check_dependencies` and `_validate_output`.
  - The progress line in `run`, the reading and writing of the files in `run`, and `main`.
  - `run`'s result is the list of output lines; what happens to them afterwards is not modelled.
- The `LOG_LEVEL` global and its upper-casing in the constructor only affect logging and are left out.
- `USE_BATCH` is a constant in the source. Both modes are modelled side by side: `RunBatchMode` and `RunSequentialMode`.
- `Text.Lower` and `Text.Upper` change only ASCII letters; Python's full Unicode case mapping is not modelled. `Text.IsSpace` holds for exactly the characters Python 3's `str.isspace` accepts.
- Error messages are modelled as strings only where the timeout test reads them. The wording of other error messages is otherwise not modelled.
- Translator.AutoTranslator.TranslateMatches, TranslateMatch and ProcessLineSequential translate a line's matches first and splice the results in afterwards. `re.sub` interleaves the two. Since the splice reads only the match positions, the result and the counters are the same.
- The empty-output branch of `_translate_text` (`Py/translatev7.py:265-268`) is modelled but cannot be taken, because a successful single call never returns empty text (`Pipeline.TranslateTextOutcome`).

## Findings

| source | as written | input that shows it | evidently intended | confidence | as-written member | corrected member |
|---|---|---|---|---|---|---|
| Py/translatev7.py:577-595 | the buffer of queued lines is flushed only from the queued-line branch; a passed-through line is appended immediately, and nothing flushes after the loop | the file `["x\n", "\n"]`: `x` is queued, the blank line is the last line and passes through, and the output is `["\n"]` alone, so the translated `x` line is lost; with a queued line after the blank, the blank overtakes `x` | every input line appears in the output, in input order | not executed | Driver.BatchDropsTrailingBuffer | Driver.InOrderComplete |
| Py/translatev7.py:185-188 | the collision check looks for the separator inside each text on its own, so a separator made of a text's end and the join's separator passes it | the batch `["a\|~", "b"]` is sent as `a\|~\|~\|~\|b`; echoed back it decodes to `["a", "~\|b"]`, so each translation lands on the wrong span | the request splits back into exactly the texts sent | not executed | Codec.StraddlingSeparatorMisaligns | Codec.EncodeBatchChecked |
