# cmus: verified core

A model, in Dafny, of the core of the cmus music player, with proofs of what its algorithms and state machines
promise. One module stands for one source file or one concept of it; `dafny verify dfyconfig.toml` checks everything.

**Audio pipeline.** `Ring` is the chunk ring of `buffer.c` as a value, `Buffer` the same as an array updated in place,
and `Interleaving` the producer and consumer threads on it: every mutex section is one step, and the copies into and
out of a chunk, and the scaling inside a read window, are steps of single bytes between them; a thread may also leave
its window without a report. A state has a fault flag that is raised by a failed assertion, by an access outside a
chunk and by two threads in one chunk; no run raises it. `Gain` counts how often each byte is scaled, `Stream` is the
in-place version, and `Pipeline` shows that the threads on the ring drive such a stream. `PlayerModes` is the joint
automaton of the two thread statuses, and `Player` implements the commands and thread sections of `player.c` on
separate status fields, against that automaton; `Session` drives a player and keeps the history of its modes, which is
a run of the automaton. The calls into plugins are methods that demand what the plugin layer asserts, so a misuse
would not verify.

**Library.** `LibraryTree` and `Tree` are the artist/album/track tree, `Filing` says where it puts a track, `Library`
adds the hash, the sorted list, the shuffle list, the filter and the current track, and steps from one track to the
next. `Traversal` and `TrackList` are the walks over tree and lists, `Window` is the viewport and `MoveSel` moves
tracks in an editable list. `MergeSort` is the in-place list sort on linked nodes, proved against `StableSort`.

**Filters.** `ExprSyntax`, `ExprGrammar` and `ExprParser` are the filter language, and `FilterText` its texts;
`FilterExpansion` and `Filters` are the named filters, `FilterMeaning` says what a filter says of a track,
`GlobLanguage` and `Glob` the wildcard matcher.

**Codecs.** `Utf8`, `UChar` and `Cmdline` are text stepping and the line editor, `PathSpec` and `Path` the path
canonicaliser, `CacheFormat` and `Cache` the track cache file and `CacheTable` the cache in memory. `RandArray` is the
random index picker.

Where a file updates structures in place there is a class or an array method whose contract names a function of the
old state; the lemmas are about those functions.

## Findings

Properties that the code does not have, each with a lemma or method that shows it and, where the code does have them
under a condition, the exact condition:

- `rand_array` can return an excluded index (`RandArray.CollisionExample`); the exact condition is
  `RandArray.ComplementIffNoCollision`.
- A filter that uses another filter twice is rejected as recursive (`FilterExpansion.ReadTwiceFails`); the exact
  condition is `FilterExpansion.CheckSucceedsIff`.
- `date=-1` never holds although a comment in `expr.c` says it asks for tracks without a date
  (`FilterExpansion.DateIsNeverUnset`). The model follows the code.
- `player_info.status` can stay wrong (`Player.StatusRace`); `Player.Player.Reopen` says exactly when.
- Moving tracks while every track is marked empties the window and fails an assertion (`MoveSel.AllMarkedExample`;
  `MoveSel.Editable.MoveSelected` says that it does exactly then).
- `cache_refresh` bounds its loop by the number of tracks still cached, so with deleted files it stops early and
  reports too few (`CacheTable.LossesExample`); `CacheTable.TrackTable.CacheRefresh` has the exact conditions.
- Scaling can happen twice when it is switched off and on (`Gain.ReenableScalesTwice`), and a partial frame at the end
  of what a round offers is left unscaled (`Gain.PartialFrameExample`). `Gain.StepIsSafeIff` has the exact condition
  on each step; with such steps every byte is scaled once (`Gain.ScaledExactlyOnce`). `Gain.WrittenScaledIff` says
  which bytes of a single round are scaled.
- The check of the two positions can fire although they are in order, since they are 32 bits wide
  (`Gain.WrappedCheckExample`); `Gain.WrappedCheckFiresIff` says when.
- Re-encoding decoded bytes is not the identity for overlong sequences (`Utf8.OverlongExample`); the exact condition
  is `Utf8.EncodeUndoesDecodeIff`.

## Model

| member | source | states |
|---|---|---|
| RandArray.RandArray | command_mode.c:1665-1720 | it succeeds exactly if enough different values are drawn, with every access in bounds; then the indexes strictly increase below `nmax` and are the sorted sample, or, when more than half are wanted, the complement of the sample exactly if no unwanted value lies too far right of its slot |
| RandArray.ComplementIffNoCollision | command_mode.c:1702-1718 | the fill that reads and writes the same array gives the exact complement of the excluded values if and only if the k-th of them is at most offset + 2k + 1 |
| RandArray.CollisionExample | command_mode.c:1665-1720 | run with 5 tracks, 3 wanted and the draws 3 and 4, the answer contains the unwanted 3 and misses 2 |
| RandArray.FillInverted | command_mode.c:1702-1718 | the in-place fill leaves a strictly increasing array that skips what its read cursor saw |
| RandArray.DrawDistinct | command_mode.c:1690-1699 | it succeeds exactly if the draws have enough different residues, and keeps the first of each in order of appearance |
| RandArray.AlreadyDrawn | command_mode.c:1694-1697 | the search finds a value exactly if it was drawn before |
| RandArray.DrawSorted | command_mode.c:1690-1700 | likewise, and then the slots hold the sorted sample |
| RandArray.SortDistinct | command_mode.c:1700 | sorting different values makes them strictly increasing and keeps the set of values |
| LinkedList.ListDel | list.h:93-111 | unlinking the k-th node leaves a well-formed circular list of the others in order |
| LinkedList.ListAddTail | list.h:81-91 | linking a free node before the head appends it to the list |
| MergeSort.ListMergesort | mergesort.c:4-65 | the sort terminates with a well-formed circular list behind the caller's head, and for every total preorder it is the stable sorting of the input nodes |
| MergeSort.MergePasses | mergesort.c:14-63 | passes with run length 1, 2, 4, ... that swap the roles of the two heads, until one pass leaves a single run |
| MergeSort.MergePass | mergesort.c:18-51 | one pass moves every node from one head to the other, merging neighbouring runs pairwise |
| MergeSort.MergePair | mergesort.c:21-50 | two neighbouring runs go over to the sorted list merged, and the next run is found |
| MergeSort.MergeRuns | mergesort.c:29-48 | the inner loop appends exactly the stable merge of the two runs, while both stay linked in one list |
| MergeSort.RunEnd | mergesort.c:21-28 | the second run begins K nodes on, or at the head if the list ends before |
| MergeSort.Adopt | mergesort.c:53-58 | the closing pointer assignments put the sorted nodes behind the caller's head |
| StableSort.MergeStable | mergesort.c:29-48 | merging keeps equals in order, those of the first run before those of the second |
| StableSort.PassDoublesRuns | mergesort.c:18-51 | a pass over sorted runs of length k leaves sorted runs of length 2k |
| StableSort.MergeSortIsStable | mergesort.c:4-65 | bottom-up merging of runs of one is a stable sort for any total preorder |
| Glob.GlobMatch | glob.c:94-231 | compiling and matching decides the declared meaning of `*`, `?`, escapes and folded text, for every pattern and text |
| Glob.GlobList.Compile | glob.c:94-155 | the compiled list accepts the language of the pattern, has text or nothing after each star, and has no empty text |
| Glob.GlobList.Simplify | glob.c:30-92 | in-place reordering computes the normal form |
| Glob.GlobList.SqueezeRun | glob.c:35-90 | one run of wildcards is replaced by its question marks followed by at most one star |
| Glob.ScanText | glob.c:114-130 | a stretch of text with escapes stands for the same literals, without the backslashes |
| Glob.DoGlobMatch | glob.c:171-226 | the recursive matcher terminates and accepts exactly the language of the list |
| Glob.MatchAfterStar | glob.c:193-222 | trying the text behind a star at each of its occurrences finds a match if there is one |
| Glob.StrCaseStr | uchar.c:522-543 | the first occurrence up to case, and none exactly if there is none |
| Glob.StrNCaseEqual | uchar.c:499-520 | equal over the length of the pattern means that the text starts with it, up to case |
| GlobLanguage.SimplifyKeepsLanguage | glob.c:30-92 | simplification accepts exactly the same texts |
| GlobLanguage.SimplifyNormalises | glob.c:30-92 | after it a star is followed by text or nothing, so the assertion in the matcher cannot fail |
| GlobLanguage.MatchRun | glob.c:30-92 | of a run of wildcards only the number of question marks and the presence of a star matter |
| GlobLanguage.MatchText | glob.c:179-184 | a text item matches exactly the texts that start with it, up to case |
| GlobLanguage.PatternLaws | glob.c:94-155 | what each character of a pattern asks of the text |
| ExprGrammar.ParseUndoesPrint | expr.c:80-382 | every expression tree, printed with parentheses only round binary right operands and binary operands of `!`, parses back to itself |
| ExprGrammar.TokenizeRender | expr.c:80-204 | tokenising undoes the rendering of any separable token sequence |
| ExprGrammar.ParseTokens | expr.c:220-382 | the tokens of a tree are read back as that tree, whatever operator or end follows |
| ExprGrammar.PrintedFilterParsesTheSame | expr.c:80-430 | any accepted filter text, reprinted, gives the same tree |
| ExprGrammar.ParseWellFormed | expr.c:220-430 | what the parser accepts is a complete tree of well-formed leaves |
| ExprSyntax.IntRoundTrip | expr.c:288-298 | every int survives printing and the strtol conversion |
| ExprSyntax.IntValIs | expr.c:288-298 | a word of digits has its decimal value; beyond an int it wraps round, and beyond a long it gives -1, or 0 behind a minus sign |
| ExprSyntax.DigitsValSnoc | expr.c:288-298 | a further digit multiplies the value by ten and adds itself |
| FilterText.ParseIff | expr.c:80-430 | the parser accepts exactly the grammatical texts, with parentheses anywhere, and reads each as its tree, in which parentheses only group |
| FilterText.TextIsRead | expr.c:80-430 | every grammatical text is read as its tree |
| FilterText.ExtraParens | expr.c:246-250 | parentheses round a whole filter, or any part of it, change nothing |
| FilterText.RenderTokenize | expr.c:148-204 | the tokens of a text, put together, give the text back |
| FilterText.Unfinished | expr.c:339-382 | the errors for one operator, negation or parenthesis too much behind any filter |
| FilterText.Unclosed | expr.c:220-250 | the errors for a parenthesis that is not closed, and for a missing operand |
| FilterText.BadComparison | expr.c:256-307 | the errors for a comparison without a value, or with one that does not fit its operator |
| FilterText.BadText | expr.c:80-173 | the errors for a string that is not closed, a stray character, and a value where a key belongs |
| FilterText.ControlCharacter | expr.c:391-397 | a control character anywhere is refused |
| ExprParser.ExprParse | expr.c:384-430 | the cursor-driven parser computes the grammar's reading of the text, errors included |
| ExprParser.ParseLevel | expr.c:339-382 | growing the tree operand by operand through `add` gives the left-associative reading |
| ExprParser.ParseOne | expr.c:220-309 | one operand, negation or parenthesis is read as the grammar says, or fails as it says |
| ExprParser.AddAttachesAtTheRightPlace | expr.c:311-337 | an operator goes on top of a finished tree, and the following operand always becomes its right child |
| ExprParser.FinishedHasNoOpenOperand | expr.c:311-337 | the descent along the right edge of a finished tree ends at no open operand |
| ExprParser.TokenizeAll | expr.c:188-204 | the tokeniser loop computes the token sequence of the text or its first error |
| ExprParser.GetTokenAt | expr.c:148-173 | one token from the cursor, the longest operator first |
| ExprParser.GetStr | expr.c:80-110 | a quoted string with its escapes, or the missing quote |
| ExprParser.GetIntOrKey | expr.c:112-146 | a word is an integer or a key, or has an unexpected character |
| FilterExpansion.CheckSucceedsIff | expr.c:432-491 | expansion, which halts for every table, succeeds exactly if the filter can be read down to built-in leaves of the right type with each name read once |
| FilterExpansion.CheckKeepsMeaning | expr.c:432-572 | on success only built-in leaves of the right type remain, and evaluation agrees with reading each name as its definition |
| FilterExpansion.CycleFails | expr.c:432-491 | a filter from which a cycle of names can be reached is rejected |
| FilterExpansion.ReadTwiceFails | filters.c:88-101 | a filter that reads some name twice is rejected although it has a finite reading |
| FilterExpansion.UsedTwiceIsRejected | filters.c:88-101 | x & x is rejected for every user-defined x |
| FilterExpansion.UsedTwiceExample | filters.c:88-101 | so it is for x defined as "tag" |
| FilterExpansion.DateIsNeverUnset | expr.c:534-552 | `date=-1` never holds, against the comment in the code, and a track without a date counts as year 0 |
| FilterExpansion.UnsetIntegers | expr.c:536-568 | for the other integer keys -1 means missing: `=-1` accepts a missing value and no other comparison does |
| FilterExpansion.UnfoldKeepsMeaning | expr.c:432-572 | replacing names by definitions keeps the meaning and leaves built-in leaves |
| FilterExpansion.ExpandsToItself | expr.c:432-491 | an expression with built-in leaves is its own expansion, and marks nothing |
| FilterExpansion.BuiltinIs | expr.c:413-430 | the twelve built-in keys and their types |
| FilterMeaning.TextMeans | expr.c:384-572 | a filter text with built-in keys is accepted, and evaluates to what it says of the track: comparisons by their sign, missing numbers equal to -1 and nothing else, streams endless, dates by year |
| Filters.FilterList.Activate | filters.c:103-166 | it succeeds exactly if every selected filter parses, has a reading, and no name is read twice or selected; then the library filter has built-in leaves and accepts exactly the tracks for which every selected filter holds, or fails, as selected, and is absent exactly if none is selected; otherwise nothing changes but marks |
| Filters.ActivationIff | filters.c:108-158 | when the selected filters can be joined and expanded |
| Filters.ConjunctionIs | filters.c:108-147 | there is a join exactly if every selected filter parses, and it is empty exactly if none is selected |
| Filters.ConjunctionSnoc | filters.c:121-146 | a filter selected after the others stands to their right, negated if selected so |
| Filters.SelectedMarks | filters.c:110-117 | the marks before the expansion are the selected names |
| Filters.FilterList.JoinSelected | filters.c:108-147 | selected filters are joined in order, negated ones under `!`, and marked visited |
| Filters.FilterList.CheckLeavesOf | expr.c:432-491 | the recursive check with its marks on the list computes the expansion and leaves exactly the marks of the names read |
| Filters.FilterList.CheckNamed | expr.c:468-490 | a user-defined name is replaced by its expanded definition |
| Filters.FilterList.GetFilter | filters.c:88-101 | a definition is handed out once; the second request is refused and remembered as recursive |
| Filters.FilterList.FindFilter | filters.c:77-86 | the first entry of the name, and none exactly if it is undefined |
| Filters.FilterList.ParseFilter | filters.c:374-402 | parsing, forgetting all marks and expanding gives the expansion from no marks |
| Filters.ParsedIs | filters.c:374-402 | a text is accepted exactly if it parses and can be read with each name met once, and then has built-in leaves only and means the same |
| Filters.FilterList.SetAnonymous | filters.c:404-422 | a good expression becomes the library filter, deactivates the named ones and keeps the selections; a bad one changes nothing but marks |
| Filters.FilterList.SetFilter | filters.c:284-347 | one entry is added or replaced in name order, neither selected nor active, and all others stay as they are; a bad name or definition changes nothing |
| Filters.NameParses | filters.c:270-282 | a name is valid exactly if, as a filter, it stands for the filter of that name |
| Filters.ActivationMeaning | filters.c:103-166 | after activation a track is shown exactly if every selected filter holds, or fails, as selected |
| Filters.ConjunctionMeaning | filters.c:108-147 | the joined expression means that each selected filter holds as selected |
| Utf8.PrevUndoesNext | uchar.c:259-332 | on arbitrary bytes, stepping back from the end of a character returns to its start |
| Utf8.DecodeUndoesEncode | uchar.c:85-150 | for all code points but NUL the encoding is valid and decodes to the same text (section 3 of RFC 3629, surrogates included) |
| Utf8.ValidRoundTrip | uchar.c:85-117 | every string the validity check accepts decodes to code points that encode to the same bytes |
| Utf8.EncodeUndoesDecodeIff | uchar.c:304-364 | re-encoding any byte string reproduces it exactly if it has no overlong sequence and none beyond 0x10ffff; invalid bytes survive |
| Utf8.StandardExamples | uchar.c:334-364 | the examples of section 7 of RFC 3629 |
| Utf8.EncodeKeepsOrder | uchar.c:334-364 | encoded characters compare byte by byte as their code points do |
| Utf8.OverlongExample | uchar.c:304-364 | the overlong bytes C1 81 are written back as 41 |
| Utf8.CharAtEncoded | uchar.c:304-364 | where an encoded character stands it is read back whole |
| Utf8.ReencodeChar | uchar.c:304-364 | one character is written back as it was read, or shorter |
| UChar.GetChar | uchar.c:304-332 | the code point at the cursor and the next boundary |
| UChar.PrevCharPos | uchar.c:259-302 | the backward scan over at most four bytes |
| UChar.StrLen | uchar.c:119-150 | counts exactly the steps of the reader |
| UChar.IsValid | uchar.c:85-117 | accepts exactly the valid strings |
| UChar.SetCharRaw | uchar.c:334-364 | writes the encoding at the cursor and nothing else |
| Cmdline.CmdLine.InsertCh | cmdline.c:22-38 | the character joins the text left of the cursor; bytes and both byte and character counters still match the split of the text at the cursor |
| Cmdline.CmdLine.Backspace | cmdline.c:40-58 | the character left of the cursor goes, if any; bytes and both byte and character counters still match the split of the text at the cursor |
| Cmdline.CmdLine.BackspaceToBol | cmdline.c:60-64 | everything left of the cursor goes; bytes and both byte and character counters still match the split of the text at the cursor |
| Cmdline.CmdLine.DeleteCh | cmdline.c:66-81 | the character right of the cursor goes, if any; bytes and both byte and character counters still match the split of the text at the cursor |
| Cmdline.CmdLine.SetText | cmdline.c:83-97 | the text is replaced and the cursor put at its end; bytes and both byte and character counters still match the split of the text at the cursor |
| Cmdline.CmdLine.ClearEnd | cmdline.c:108-114 | everything right of the cursor goes; bytes and both byte and character counters still match the split of the text at the cursor |
| Cmdline.CmdLine.MoveLeft | cmdline.c:116-122 | the cursor passes one whole character to the left; bytes and both byte and character counters still match the split of the text at the cursor |
| Cmdline.CmdLine.MoveRight | cmdline.c:124-132 | the cursor passes one whole character to the right; bytes and both byte and character counters still match the split of the text at the cursor |
| Cmdline.CmdLine.MoveHome | cmdline.c:134-138 | the cursor goes to the start; bytes and both byte and character counters still match the split of the text at the cursor |
| Cmdline.CmdLine.MoveEnd | cmdline.c:140-144 | the cursor goes to the end; bytes and both byte and character counters still match the split of the text at the cursor |
| Path.PathStrip | path.c:7-71 | the in-place stripper terminates and leaves the canonical form of any absolute path, never longer than the input |
| Path.PathAbsoluteCwd | path.c:73-93 | the resulting string is the canonical form of the path taken below the directory |
| Path.GoUp | path.c:34-55 | `..` moves the cursor back behind the parent directory, clamped at the root |
| Path.DropSlashes | path.c:15-23 | a run of slashes is closed up without changing what remains to be walked |
| Path.DropDot | path.c:25-30 | a `.` component is closed up likewise |
| Path.KeepName | path.c:56-67 | a proper component is kept and the cursor moves behind it |
| Path.CutSlash | path.c:69-70 | a trailing slash is cut except for the root |
| PathSpec.CanonicalIdempotent | path.c:7-71 | canonicalising twice changes nothing |
| PathSpec.CanonicalOfComponent | path.c:7-71 | canonical forms grow by components: empty ones and `.` change nothing, `..` leads to the parent, another name goes below |
| PathSpec.CanonicalOfRoot | path.c:7-71 | and they start from the root |
| Buffer.ChunkBuffer.constructor | buffer.c:35-40 | a new buffer is consistent and empty |
| Buffer.ChunkBuffer.Clear | buffer.c:130-143 | from any state, the queue is empty |
| Buffer.ChunkBuffer.GetRpos | buffer.c:49-63 | what is offered for reading is the oldest part of the queue, nothing exactly if no chunk is filled |
| Buffer.ChunkBuffer.GetWpos | buffer.c:65-87 | a non-zero write size is at least 1024; it is zero exactly if every chunk is filled |
| Buffer.ChunkBuffer.BufferConsume | buffer.c:89-106 | exactly the oldest bytes leave the queue |
| Buffer.ChunkBuffer.BufferFill | buffer.c:108-128 | exactly the bytes written at the write position join the queue |
| Buffer.ChunkBuffer.GetFilledChunks | buffer.c:145-186 | the count equals the number of filled flags, also when both indexes meet |
| Ring.ConsumeTakes | buffer.c:89-106 | consuming keeps the cyclic shape and drops a prefix of the queue |
| Ring.FillAppends | buffer.c:108-128 | filling keeps the cyclic shape and appends to the queue |
| Ring.FilledChunksCountsFlags | buffer.c:145-186 | the index arithmetic counts the filled flags, full and empty told apart |
| Ring.Sizes | buffer.c:49-87 | write sizes are zero or at least 1024, and each size is zero exactly at full or empty |
| Ring.FillContinues | buffer.c:109-127 | the chunk that is written to stays the same while it has room for 1024 bytes, and passes to the consumer when it has less, or at the end of a file unless it is empty |
| Ring.PokeKeeps | buffer.c:73-87 | bytes copied into the write window without the lock do not disturb the queue |
| Interleaving.RunIsFifo | buffer.c:6-143 | in every interleaving of both threads' sections, unlocked byte copies and in-place scaling, with windows also left without a fill or a consume: no assertion fails, no access leaves its chunk, the threads are never in the same chunk, the bytes consumed are a prefix of the bytes filled, as the consumer rewrote them, and the rest is what is queued |
| Interleaving.StepKeeps | buffer.c:49-143 | each step of either thread keeps the shared invariant, also leaving a window when the reader has nothing yet or the device takes nothing |
| Interleaving.WindowsDisjoint | buffer.c:6-9 | a chunk is accessed by the producer or the consumer, not both |
| Interleaving.EndOfFileLosesNothing | player.c:746-762 | when the consumer finds nothing to read after an end of file, every byte ever filled has been consumed |
| Gain.ScaledExactlyOnce | player.c:194-244 | over every careful history, whatever amounts the device takes, each byte accepted while scaling was on had been scaled exactly once; careful means that a round offers whole frames beyond scale_pos, and that a switch while scaling is off finds scale_pos not ahead of the consumer |
| Gain.StepIsSafeIff | player.c:194-244 | after any careful history, a further step of any kind leaves every careful continuation exact if and only if it is careful too; otherwise a continuation writes a byte scaled twice or not at all |
| Pipeline.EachByteOnce | player.c:745-797 | in every interleaving of the threads, with scaling switched anywhere in between, the stream queues as many bytes as the ring and stands where the ring was consumed to; after careful steps each byte consumed is the byte filled at its place, as rewritten, and was scaled once if scaling was on |
| Pipeline.StreamFollows | player.c:745-797 | every run of the threads is a history of the stream |
| Gain.NeverFaults | player.c:194-213 | the assertion on the two positions never fails, however scaling is switched |
| Gain.WrittenScaledIff | player.c:204-243 | in one round exactly those written bytes are scaled that precede the last whole frame boundary |
| Gain.ReenableScalesTwice | player.c:1212-1220 | after a short write, switching scaling off and on again scales a queued byte twice |
| Gain.PartialFrameExample | player.c:230-243 | a device that takes six of eight bytes gets the last two unscaled |
| Gain.WrappedCheckFiresIff | player.c:194-213 | with 32-bit positions the order check fires exactly if the scaled but unwritten stretch crosses a multiple of 2^32 |
| Gain.WrappedCheckExample | player.c:194-213 | so it does after a seek to just below 4 GiB of the stream and a short write across it |
| Gain.RoundedAndClipped | player.c:170-192 | a scaled sample is the nearest integer, clipped to 16 bits |
| Gain.FullVolumeIsIdentity | player.c:170-192 | full volume changes no sample |
| Stream.SampleStream.ScaleSamples | player.c:194-244 | the loop scales exactly the whole frames behind scale_pos |
| Stream.SampleStream.WriteRound | player.c:778-797 | scale, write and consume one stretch; a failed write consumes nothing |
| Stream.SampleStream.ResetBuffer | player.c:126-131 | the buffer is empty and both positions are zero |
| Stream.SampleStream.SetSoftVolume | player.c:1212-1220 | switching scaling on from off starts it at the consumer's position |
| Stream.SampleStream.SetReplayGain | player.c:1222-1235 | likewise for replay gain |
| Player.PlayerScalesOnce | player.c:778-797 | every valid player has its positions in order while scaling, and if its history was careful each byte written with scaling on was scaled exactly once |
| Player.Player.constructor | player.c:86-102 | the player starts unloaded with everything closed |
| Player.Player.OneOfFive | player.c:86-102 | between commands file, device and both statuses are in one of five joint states |
| Player.Player.PlayerStop | player.c:937-944 | file and device are closed, nothing is queued, and both sides are stopped, or empty if no file was set; the status is published |
| Player.Player.PlayerPlay | player.c:946-969 | a paused player resumes, a playing one rewinds, a closed one opens its file, or the next, and the device, and queues what prebuffering reads; the outcome is given for every answer of the plugins, and is where the automaton goes |
| Player.Player.PlayerPause | player.c:971-998 | playing a local file it pauses file and device, paused it resumes both, a network stream goes on, and a closed player starts |
| Player.Player.PlayerSetFile | player.c:1000-1023 | on an open device the new file plays, reopening it for another format, or is closed or gone if something fails; otherwise it is set only |
| Player.Player.PlayerPlayFile | player.c:1025-1056 | the new file plays in its format if it and the device open; otherwise both are closed, or there is no file |
| Player.Player.PlayerSeek | player.c:1058-1129 | playing or paused, the position is the sought one with an empty buffer, or nothing changes; a closed player starts first and is then sought from where that leaves it |
| Player.SeekStaysInside | player.c:1077-1114 | a seek stays in the file, ends five seconds before its end unless it goes back, and a forward one loses at most half a second |
| Player.SeekTargetIs | player.c:1077-1114 | exactly where a seek leads: absolute, back and forward, and when it is refused |
| Player.SoughtIs | player.c:1074-1122 | the byte position sought is the last one before the time sought |
| Player.ConvertedIs | player.c:133-142 | the conversion keeps the rate, is done once, and leaves alone exactly wider samples, more channels and 16-bit signed little-endian stereo |
| Player.Player.PlayerSetOp | player.c:1134-1179 | a playing or paused file goes on in that state on the newly opened device without disturbing the stream, or both sides stop; a closed player stays as it is |
| Player.Player.PlayerSetBufferChunks | player.c:1181-1197 | both sides stop, with nothing queued, before the buffer is replaced by one of the given number of chunks, clamped to 3..30 |
| Player.Player.HandleEof | player.c:660-710 | a lost connection, or an end without continuing, stops both sides; repeating plays on from the start; without a next file the player is empty; otherwise the next file plays if it and the device open, with what prebuffering reads |
| Player.Player.NextFile | player.c:683-703 | the next file continues on the open device, which is reopened only for another format |
| Player.Player.ChangeSf | player.c:633-658 | the device plays the format the reader delivers, or both sides stop |
| Player.Player.ProducerPlay | player.c:502-542 | every call to the input plugin finds it in the state it asserts |
| Player.Player.ConsumerPlay | player.c:583-601 | the device is opened with the converted format of the current file |
| Player.Player.ConsumerStop | player.c:603-618 | the device is closed exactly once |
| Player.Player.ProducerStop | player.c:544-551 | the file is closed and the buffer emptied |
| Player.Player.ProducerSetFile | player.c:571-577 | the old file is deleted before the new one is created |
| Player.Player.Prebuffer | player.c:448-498 | everything that is read joins the queue, up to an error, the end or a full buffer; the playing position stays |
| Player.DeliveredConcat | player.c:448-498 | readings count one after the other until one ends them |
| Player.DeliveredOne | player.c:448-498 | a reading counts in full, and one that has to be repeated nothing |
| Player.Player.ProducerSection | player.c:816-864 | what the one or two readings give joins the queue, and the end of the file is noted exactly if one of them meets it; no status changes, also while the device is being reopened |
| Player.Player.ConsumerWrite | player.c:778-797 | a successful write advances the position by what was accepted and is one round of the stream over what was offered |
| Player.Player.WriteFails | player.c:783-790 | after a failed write the device is closed, the producer runs on, and no byte is lost |
| Player.Player.Reopen | player.c:787-793 | the file plays on if the device opens, and otherwise the producer runs alone; the published status is wrong exactly if the other thread reported an error meanwhile or it was wrong already |
| Player.StatusRace | player.c:338-352 | a write error, a read error of the other thread and a successful reopening, in this order, leave a wrong published status |
| PlayerModes.SilentOnlyAfterFailedReopen | player.c:783-793 | in every run the producer plays with a closed device only since a write error whose reopening failed |
| Player.StopThenPlay | player.c:937-969 | from any valid player, stop and then play with a file and a device at hand leaves the file open, the device open in its format, and both published as playing |
| Session.Session.Perform | player.c:937-1197 | each command, and the end of a file, is one step of the reference automaton: the history of the player stays a run that ends in its mode |
| Session.Session.Consume | player.c:778-793 | a round of the consumer leaves the history alone, and starts a reopening exactly if the write failed |
| Session.Session.Produce | player.c:816-864 | a section of the producer queues what it read and leaves the history alone |
| Session.Session.Reopen | player.c:783-793 | the reopening is the step of a write error |
| Session.SilentOnlyAfterWriteError | player.c:783-793 | of the player itself: its producer runs with a closed device only since a write error whose reopening failed |
| Library.ViewsAgree | lib.c:49-139 | in every valid library the sorted list, the shuffle list and the tree show exactly the stored tracks the filter accepts, no file twice, and no artist or album is empty or doubled |
| Library.NoCurrentWhenEmpty | lib.c:315-322 | with an empty tree no track is current, so the assertion before stepping cannot fail |
| Library.TotalConcat | editable.c:55-62 | playing times add up |
| Library.TotalOne | editable.c:58-60 | an unknown time counts nothing |
| Library.Lib.LibAddTrack | lib.c:131-139 | a new file is stored and, if accepted, filed in the tree by its names and put in the sorted list behind its equals; a known or refused one changes no view; all views agree |
| Library.Lib.LibRemove | lib.c:428-439 | a shown track leaves the hash and all views; a hidden one stays |
| Library.Lib.LibSetFilter | lib.c:367-426 | the hash is kept, all views are rebuilt for the new filter, and the current track stays current exactly if still shown |
| Library.Lib.ViewClear | command_mode.c:131-144 | clearing the views and then the store leaves nothing |
| Library.Lib.ClearShown | command_mode.c:220-226 | clearing the views alone keeps what the filter hides |
| Library.Lib.LibClearStore | lib.c:441-457 | the hash is empty |
| Library.Lib.HashInsert | lib.c:85-108 | refuses exactly the filenames that are stored |
| Library.Lib.HashRemove | lib.c:110-129 | the entry is there, so the assertion cannot fail, and exactly it is removed |
| Library.Lib.ViewsAddTrack | lib.c:49-62 | the track joins tree, shuffle list and sorted list once each |
| Library.Lib.SortedListAdd | track.c:153-171 | the track goes behind everything that is not greater, and the list stays sorted |
| Library.Lib.ListAddRand | track.c:173-196 | from either end the track lands at the drawn position |
| Library.Lib.FreeLibTrack | lib.c:277-293 | the track leaves every view, and the hash unless a filter is being set |
| Library.Lib.EditableRemoveTrack | editable.c:64-80 | one track leaves all views and the counters follow |
| Library.Lib.EditableClear | editable.c:282-292 | all views are empty, and the hash has lost exactly what they showed |
| Library.Lib.LoadAll | lib.c:392-403 | the loop over all buckets shows every accepted entry once |
| Library.Lib.RestoreCur | lib.c:412-425 | the search by filename finds the very track that was current |
| Library.Lib.SetSortKeys | editable.c:114-148 | the sorted list is stably re-sorted and the other views stay |
| Library.Lib.LibReshuffle | track.c:198-218 | the shuffle list is permuted |
| Library.Lib.LibStep | lib.c:302-353 | next and previous make a shown track current: the one the tree walk, the sorted list or the shuffle list gives for the mode; none only in an empty library or at the end without repeat |
| Library.Lib.NormalStep | lib.c:182-268 | the current track is found in the tree, and the result is the track that the walk from there gives |
| Library.Lib.SortedStep | track.c:107-151 | the nearest track of the sorted list, before or after, that is on the current album, by the current artist or any, by mode; with repeat there always is one |
| Library.Lib.ShuffleStep | track.c:55-105 | likewise in the shuffle list, where automatic reshuffling permutes the list at its end and goes on from its other end |
| Library.Lib.SortedSetSelected | lib.c:355-365 | the selected row becomes current, and it is shown |
| Library.Lib.TreeSetSelected | tree.c:361-390 | the selected track, or the first of the selected artist, becomes current, and it is shown |
| Library.Lib.SortArtists | tree.c:473-480 | re-sorting the artists keeps all views in agreement |
| LibraryTree.AddInserts | tree.c:546-608 | filing a track inserts it at one place of the flat sequence and moves no other |
| LibraryTree.AddKeepsOk | tree.c:402-608 | filing creates no empty or duplicate artist or album, up to case |
| LibraryTree.AddKeepsSorted | tree.c:441-544 | artists, albums and tracks stay sorted |
| LibraryTree.RemoveDeletes | tree.c:749-775 | removing deletes exactly that track from the flat sequence |
| LibraryTree.RemoveKeepsOk | tree.c:749-775 | an album goes with its last track and an artist with its last album |
| LibraryTree.RemoveKeepsSorted | tree.c:749-775 | what remains is still sorted |
| LibraryTree.PlaceByName | tree.c:402-429 | the names of a filed track lead to its artist and album |
| LibraryTree.SpecialCmpOrders | tree.c:431-439 | names in angle brackets first, the rest in folded order: a total preorder |
| Filing.ArtistByTags | tree.c:554-575 | the artist a track is filed under: streams together, the sorting and album artist tags before the mark of a compilation, that before the artist tag, and a stand-in for none |
| Filing.AlbumByTags | tree.c:554-577 | the album likewise |
| Filing.YesInAnyCase | tree.c:565-570 | what marks a compilation: 1, or yes in any case |
| Filing.Filed | tree.c:546-608 | a track that was added is under the artist and the album of its names, up to case |
| Filing.CompilationFiled | tree.c:565-570 | a local track of a compilation is under <Compilations> whoever its artist is |
| Filing.StreamFiled | tree.c:554-556 | a stream is under <Stream> whatever its tags |
| Filing.OthersStay | tree.c:581-607 | an artist or album of that name keeps its name, date and fold and gets the track; otherwise a new one comes, with the names and the date of the track; nothing else changes |
| Filing.NewOnesLast | tree.c:441-544 | among equal tracks, albums or artists the new one comes last |
| Filing.SpecialFirst | tree.c:431-460 | names in angle brackets come first, other names in the order of their folded text |
| Filing.EarlierFirst | tree.c:495-519 | earlier albums come first, and those of one date by name |
| Filing.TheIsSkipped | tree.c:392-400 | a leading "the" in any case does not count when sorting loosely, nor the blanks behind it |
| Filing.SortKeyIs | tree.c:441-471 | that is how artists compare when sorting loosely; otherwise their exact names do |
| Filing.OtherNamesStay | tree.c:392-400 | other names are taken as they are |
| Filing.RemovalChangesNothingElse | tree.c:749-775 | what is left after a removal keeps its names, dates and folds |
| Strings.StrCmpIs | filters.c:322-335 | a string precedes another exactly if it is a proper start of it or smaller where they first differ |
| Tree.ArtistTree.TreeAddTrack | tree.c:546-608 | the loops over artists, albums and tracks file the track where the specification says; `Filing` says where that is |
| Tree.ArtistTree.FindArtistAndAlbum | tree.c:402-429 | the first artist and album of those names, up to case |
| Tree.ArtistTree.ArtistPosition | tree.c:441-460 | a new artist goes before the first greater one |
| Tree.ArtistTree.AlbumPosition | tree.c:495-519 | a new album goes by date, then by name |
| Tree.ArtistTree.AlbumAddTrack | tree.c:521-544 | a track goes before the first greater one |
| Tree.ArtistTree.TreeRemove | tree.c:749-775 | exactly one occurrence of the track leaves a tree that stays well-formed and sorted |
| Tree.ArtistTree.TreeSortArtists | tree.c:473-480 | a stable sort of the artists that keeps all tracks |
| Traversal.NextIs | lib.c:182-224 | the next track is the next of the flat sequence, after the last of the album, artist or library its first when repeating |
| Traversal.FirstTrack | lib.c:182-229 | with no current track both directions begin with the first track |
| Traversal.PrevIs | lib.c:226-268 | the previous track likewise |
| Traversal.PlayingRotates | lib.c:182-224 | m steps with repeat rotate the range by m |
| Traversal.CycleVisitsAll | lib.c:182-224 | every track of the range is played within one cycle |
| Traversal.CycleIsInjective | lib.c:182-224 | none is played twice within a cycle, and then it starts over |
| Traversal.PrevUndoesNext | lib.c:182-268 | with repeat on, previous and next undo each other |
| Traversal.AaaModeFilterIsRange | lib.c:166-178 | the mode filter allows exactly the tracks of the range that the tree walk goes round, and always the current one, so a search with repeat ends |
| Traversal.IndexElement | tree.c:546-608 | a place in the tree is an index of the flat sequence |
| Traversal.TreeNextIs | tree.c:159-199 | stepping down goes round the visible rows and the head |
| Traversal.TreePrevIs | tree.c:108-157 | stepping up goes round the other way |
| Traversal.TreeStepsUndo | tree.c:108-199 | up and down undo each other for any set of expanded artists |
| TrackList.ListGetNext | track.c:107-128 | the nearest allowed track further on, around the end only when repeating |
| TrackList.ListGetPrev | track.c:130-151 | the nearest allowed track before, likewise |
| TrackList.ListStep | track.c:107-151 | both directions at once, as a step from one track to another |
| TrackList.NextThenPrev | track.c:107-151 | from an allowed track, next and previous undo each other when repeating |
| Window.Viewport.Changed | window.c:138-196 | from any rows for top and selection: the selection stays, is visible again, and lines stay blank only if top is the first row |
| Window.Viewport.MakeVisible | window.c:159-178 | top moves no further than needed to show the selection |
| Window.NearestIs | window.c:159-178 | the new first row is the nearest one to the old from which the selection is visible |
| Window.Viewport.Minimize | window.c:180-194 | top moves back until no line is blank that a row could fill |
| Window.Viewport.Up | window.c:88-103 | the selection moves up, at most to the first row, and top follows it |
| Window.Viewport.Down | window.c:105-132 | the selection moves down, at most to the last row, and top follows by the least amount |
| Window.Viewport.SetSel | window.c:238-274 | the given row is selected and visible |
| Window.Viewport.GotoTop | window.c:276-286 | the first row is selected at the top |
| Window.Viewport.GotoBottom | window.c:288-308 | the last row is selected with as many rows above it as fit |
| Window.Viewport.PageUp | window.c:310-313 | up by a window less one row |
| Window.Viewport.PageDown | window.c:315-318 | down by a window less one row |
| Window.Viewport.SetNrRows | window.c:76-86 | after resizing the selection is the same and visible |
| Window.Viewport.SetContents | window.c:62-74 | a new list starts at its first row |
| Window.Viewport.SetEmpty | window.c:54-60 | no list, no rows |
| Window.Viewport.RowVanishes | window.c:198-214 | no iterator stays on the row |
| Window.Viewport.RemoveRow | editable.c:64-80 | telling the window and then unlinking a row keeps the viewport sound; the selection moves exactly if it was on that row, to the next row or from the last to the one before |
| Window.Viewport.InsertRow | editable.c:55-62 | linking in a row and then telling the window keeps it sound and the selection unchanged |
| Window.Viewport.Reorder | editable.c:114-120 | sorting shows the first row |
| MoveSel.Editable.EditableMoveAfter | editable.c:258-268 | the marked tracks end up together behind the selected one or the last unmarked one before it; with none marked the selected track moves one down, around the end; the assertion fails exactly if every track is marked |
| MoveSel.Editable.EditableMoveBefore | editable.c:270-280 | the same upwards |
| MoveSel.Editable.MoveSelected | editable.c:176-211 | the list is the given one with the moving tracks behind the anchor, the top-most of them selected and visible, unless every track is marked |
| MoveSel.AllMarkedExample | editable.c:176-211 | two tracks, both marked by a filter: the move aborts |
| MoveSel.Editable.EditableAdd | editable.c:55-62 | the track joins the list and the window, marks and their count stay |
| MoveSel.Editable.EditableRemoveTrack | editable.c:64-80 | exactly that track leaves list and marks, and the count of marks follows |
| MoveSel.Editable.EditableRemoveSel | editable.c:82-102 | the marked tracks go, or the selected one if none is marked; the others stay in order and nothing is marked |
| MoveSel.Editable.EditableClear | editable.c:282-292 | list and marks are empty |
| MoveSel.Editable.EditableToggleMark | editable.c:150-162 | the selected track changes its mark and the selection moves down |
| MoveSel.Editable.EditableMark | editable.c:294-314 | exactly the tracks the filter accepts are marked, and a bad filter changes nothing |
| MoveSel.Editable.EditableUnmark | editable.c:316-325 | nothing is marked |
| MoveSel.Editable.EditableInvertMarks | editable.c:327-337 | exactly the unmarked tracks are marked |
| MoveSel.Editable.Collect | editable.c:183-197 | exactly the moving tracks are taken out, collected backwards, with the window kept sound |
| MoveSel.Editable.PutBack | editable.c:199-205 | linking each behind the anchor restores their order |
| MoveSel.Editable.FindInsertAfter | editable.c:213-233 | the next track, or back to the first unmarked one |
| MoveSel.Editable.FindInsertBefore | editable.c:235-256 | two back, or back to the first unmarked one before |
| MoveSel.MovedKeepsOrder | editable.c:176-211 | the result is a permutation with the moving tracks contiguous, both groups in their order |
| CacheFormat.RoundTrip | cache.c:174-348 | reading the written file gives the same records, across alignment padding |
| CacheFormat.DecodeEntry | cache.c:69-131 | every entry written is accepted, whatever follows, and gives the record back |
| CacheFormat.EncodeDecoded | cache.c:69-131 | an accepted entry holds nothing but its record: writing that again gives the same bytes |
| CacheFormat.SplitJoin | cache.c:105-131 | terminated strings are read back one by one |
| CacheFormat.JoinSplit | cache.c:69-92 | and fill their region completely |
| CacheFormat.CountIsSplit | cache.c:81-89 | as many terminators as strings |
| CacheFormat.EntryLayout | cache.c:25-36 | the size, duration and time stand in the first sixteen bytes, lowest byte first, and the strings behind them |
| CacheFormat.CorruptFile | cache.c:174-222 | a file that goes on with something that is no entry gives the records before it and is reported; so is one without the header, which gives none |
| Cache.Writer.WriteTi | cache.c:280-316 | what reaches file and buffer together is padding and entry, wherever the buffer is flushed |
| Cache.Writer.WriteFile | cache.c:336-342 | the file holds the header and every entry, independent of the buffer |
| Cache.Gbuf.AddZeros | gbuf.c:87-93 | padding is appended and room for a terminator kept |
| Cache.Writer.FlushBuffer | cache.c:272-278 | flushing loses nothing |
| Cache.Writer.Lengths | cache.c:288-299 | the length table has room for 32 comments, and the size field is right |
| Cache.Gbuf.AddBytes | gbuf.c:48-54 | the buffer grows and keeps room for a terminator |
| Cache.ValidCacheEntry | cache.c:69-92 | decides validity without reading outside the file |
| Cache.CacheEntryToTi | cache.c:94-131 | decodes a valid entry without reading outside it |
| CacheTable.TrackTable.ReadCache | cache.c:174-222 | adds the records up to the first bad entry, and reports it |
| CacheTable.TrackTable.AddTi | cache.c:59-67 | the record joins the front of its chain |
| CacheTable.TrackTable.Lookup | cache.c:133-143 | finds the record added last under the name, or none exactly if there is none |
| CacheTable.TrackTable.CacheGetTi | cache.c:375-391 | a cached record is returned, otherwise what the input plugin reads is cached; names stay different and no other lookup changes |
| CacheTable.TrackTable.RemoveTi | cache.c:145-167 | walking the chain unlinks exactly that record, and passes over a record that is not there |
| CacheTable.TrackTable.GetTrackInfos | cache.c:253-270 | all records of all buckets, each once, sorted by filename |
| CacheTable.TrackTable.CacheClose | cache.c:318-348 | the file holds the records of the table, and answers every lookup as the table does if no two have the same name, whether it is written, sorted, or left alone because nothing changed |
| CacheTable.TrackTable.CacheRefresh | cache.c:393-455 | of the tracks in name order a first part is visited and each gets what its file holds now, and no other name appears; names stay different and the counters follow; as the loop runs to the shrinking total, all are visited exactly if none but the last is lost, and all are reported exactly if none is |
| CacheTable.TrackTable.RefreshOne | cache.c:398-452 | one visited track is kept, replaced or dropped, no other lookup changes, and total, new and removed follow |
| CacheTable.VisitedAll | cache.c:398-453 | when the loop bounded by the present total ends |
| CacheTable.LossesExample | cache.c:393-455 | of two tracks whose files are both gone one stays cached |
| CacheTable.LatestPermutes | cache.c:253-270 | with different names the order in which records are added does not matter to any lookup |
| CacheTable.ChainPlace | cache.c:145-167 | deleting a record from its chain is deleting it from the sequence of all |
| CacheTable.CloseThenInit | cache.c:174-348 | closing the cache and starting again with the file gives the same records, and the same lookups if names differ |
| CacheTable.RefreshThenInit | cache.c:174-455 | after refreshing, closing and starting again, lookups find what the refresh left |

## Left out

- Decoder and output plugins, mixers, HTTP, sockets, D-Bus, curses, options and key tables: their results are
  parameters (`World`, `Outcome`, `Read`), I/O is not part of this model.
- Allocation, reference counts and freeing.
- Shutdown of the player: the invariants are about running threads.
- Player.Player.Prebuffer: the chunk limit and the loop on EAGAIN are not computed; the reads made are a given sequence.
- Player.Player.SeekOpen: positions are computed in exact arithmetic, not in floating point.
- Gain.WrappedCheckFiresIff: positions are unbounded, and this lemma says what 32 bits change. Queued bytes carry how
  often they were scaled instead of their samples; the arithmetic of one sample is separate.
- Replay gain's scale factor from tags, and the table of volume coefficients.
- Interleaving: a state machine over the values of `Ring`, not over the class; in the player the reset is done with
  both locks held, which is why it needs both threads outside.
- ExprParser.ExprParse: does not model the test that the text is valid UTF-8, since text is a sequence of code points.
  Token lists and tree links are values with cursors as indexes; parent pointers are not modelled.
- FilterExpansion: comparisons are over mathematical integers, tag values are fields of a track.
- Glob: text and patterns are sequences of code points; case folding is any function that maps NUL only to NUL. The
  original advances by the byte length of the pattern, which differs when folding changes encoded lengths.
- Cmdline.CmdLine.InsertCh: only code points up to 0x10ffff; the marks for invalid bytes are left out, because such bytes
  can join their neighbours to one character.
- Cmdline.CmdLine.SetText: only valid UTF-8, for the same reason. Storage capacity is left out.
- Path.PathStrip: only absolute paths, which is what its one caller passes. `~` and the current directory lookup are
  left out.
- RandArray: the random numbers are a given sequence; the library `qsort` is a sorting function.
- Library: lists are sequences and a track is identified by its value, since no filename is stored twice; the windows
  of the views are in `Window`. Comparison by sort keys is any total preorder, the expression filter any predicate.
- Library.Lib.EditableRemoveTrack: marks and the window of the list are in `MoveSel` and `Window`.
- Library.Lib.ListAddRand: random numbers are arbitrary.
- Tree.ArtistTree.TreeRemove: the track's album pointer is the place its names lead to; expanded flags do not change.
- Traversal: the search iterators.
- TrackList.ListGetNext: the filter is any predicate that allows some track, and reshuffling is left out; the mode filter
  and reshuffling are in `Library.Lib.SortedStep` and `Library.Lib.ShuffleStep`.
- TrackList.ListGetPrev: likewise.
- Window: rows are identified by numbers, and the callback on a changed selection is not modelled.
- MoveSel: parsing the filter of a mark command, total times, and calling back for each marked track.
- CacheTable.TrackTable.GetTrackInfos: the library `qsort` is a stable sort; with different names that is the only result.
- CacheTable.TrackTable.CacheRefresh: which entries of the list are replaced by NULL depends on reference counts, which
  are left out.
- CacheTable.TrackTable.RemoveTi: of equal records the last one added is taken, where the original compares pointers.
- CacheFormat: 64-bit little-endian machines; records with more than 32 comments, for which the original's length table
  is too small; files of 4 GiB and more, where its 32-bit offsets would wrap.
- The worker queue, the play queue's total time, the browser, the search code and the status line.
