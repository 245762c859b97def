# Verified model of the command history, crash protocols, command correction and click translation

This project models four groups of the repository's code in Dafny 4.11 and proves what they promise.
`dafny verify dfyconfig.toml` checks all of it. One module per file:

* **Command history** (`src/command_history.rs`). `HistoryLines` cuts bytes into lines; `HistoryStore`
  says what a reader sees, what a compaction keeps and what an append adds; `HistoryFile` holds the
  loops and the in-place updates (`read_recent_from`, `append`, `compact_locked_with_budget`,
  `discard_through_newline`), each proved against those functions; `HistoryLock` is the two-level lock
  protocol with any number of processes, deaths, timeouts and sidecar replacement, and
  `HistoryAcknowledged` says when its appends are acknowledged; `HistoryWriter` is
  the background writer by itself and together with its bounded queue and any number of flushing callers. The record codec is a parameter with the laws of JSON the store
  relies on: it decodes what it encodes, an encoding is one non-empty line, no proper prefix of an
  encoding decodes, and trimming white space from the end of a line does not change what it decodes to.
  `LawfulCodec` shows with a plain codec that these laws can be met.
* **Crash and claim protocols** (`src/atomic_file.rs`, `src/agent.rs`). `CrashFs` is one directory with
  visible, durable and pending names: a power loss keeps any subset of the pending changes, in order,
  and gives files that were never synced any contents. On it stand `AtomicFile` (one atomic replacement,
  every system call free to fail), `AtomicRuns` (whole runs of replacements, syncs and power losses) and
  `SessionClaim` (any number of openers claiming the saved session, on the name facts of `ClaimNames`),
  with `ClaimOutcomes` on which of them return it.
  `SnapshotBound` is the separate byte accounting that cuts a live snapshot before it is stored.
* **Shell lexer and correction engine** (`src/command_correction.rs`). `ShellLexer` has the quote machine,
  the span scanner, the word decoder and a one-pass lexer, and proves that they agree; `ShellScanners`,
  `ShellTrim` and `ShellStages` hold the loops, and `StageArguments` relates the arguments of the whole to
  those of the stages; `ShellQuoting`, `ShellPrinting`, `ShellReplace` and `CandidateGate` prove
  the round trips, the one-word replacement and the gate; `EditDistance` and `NameRanking` the dynamic
  program and the ranking; `RequestEpoch` the request state machine.
* **Click to arrow keys** (`src/click_cursor.rs`). `ClickCursor`, from clicked cell to line editor.

`Outcomes`, `Sequences`, `Utf8` and `Whitespace` are shared vocabulary.

## Where a promise fails, and exactly when it holds

* Padding is Unicode white space while arguments are separated by ASCII white space, so trimming can
  change the arguments: a final no-break space belongs to an argument and is removed
  (`ShellTrim.NoBreakSpaceIsLost`). `ShellTrim.TrimKeepsWordsExactly` says for all commands when the
  arguments survive. Commands that pass the review rule have no such white space, so the gate is safe
  (`CandidateGate.AcceptedKeepsWords`).
* The arguments of a command are not always the arguments of its stages (`ShellStages.RedirectionSkipsWord`):
  exactly when a stage begins with an argument while a redirection before it still lacks its operand,
  the whole command takes that argument for the operand (`StageArguments.StageWordsIff`).
* The writer consumes a pending error even if the flushing caller has timed out
  (`HistoryWriter.TimedOutFlushLosesError`). The error is learned exactly when the next flush's call
  returns instead of timing out (`HistoryWriter.ErrorLearnedIff`, `HistoryWriter.NextCallerLearnsIff`).
* A claimed snapshot can be lost with power when another is published before the claim is synced
  (`SessionClaim.RacingPublishDropsClaim`), and only then (`SessionClaim.OneNameThroughoutIff`).
* A retired correction generation is dead until exactly 2^64 bumps have passed
  (`RequestEpoch.StaleGenerationIff`, `RequestEpoch.WrapRevives`).
* Clamping can make a refused distance sendable; `ClickCursor.ClampRevivesRefused` says exactly when.
* Cell indices saturate, and beyond that point different cells look the same
  (`ClickCursor.SaturationHidesDistance`); `ClickCursor.SaturationHidesDistanceIff` says exactly which.

## Model

| member | source | states |
|---|---|---|
| HistoryLines.LinesRebuild | src/command_history.rs:1035-1080 | every file is its complete lines followed by its unterminated tail |
| HistoryStore.NewestMeaning | src/command_history.rs:900-970 | a record is reported exactly when some line reads as it and no later line reads as the same command |
| HistoryStore.NewestDistinct | src/command_history.rs:945-970 | no command is reported twice |
| HistoryStore.NewestOrdered | src/command_history.rs:945-970 | an earlier place in the result means a later line in the file |
| HistoryStore.WindowIsTail | src/command_history.rs:909-944 | the read begins with the first line that begins within the last 4 MiB |
| HistoryStore.ReadRecentHolds | src/command_history.rs:945-970 | for every file and limit, each reported record passes the validator and some line of at most 1 MiB decodes to it |
| HistoryStore.ReadRecentFindsAll | src/command_history.rs:945-970 | of a file within the window, read with room for every line, a record is reported exactly when a line within the limit decodes to it, it passes the validator, and no later such line has its command |
| HistoryStore.KeptMeaning | src/command_history.rs:1047-1068 | compaction keeps, before evicting, each line of at most 1 MiB that decodes to a record the validator passes, as often as it occurs, and no other |
| HistoryStore.EvictIsLongest | src/command_history.rs:1068-1079 | every longer suffix than the one kept breaks the entry limit or the byte budget |
| HistoryStore.EvictIncremental | src/command_history.rs:1068-1079 | evicting line by line while scanning equals evicting once at the end |
| HistoryStore.CompactedContents | src/command_history.rs:1035-1099 | a compacted file's lines are exactly the kept ones, in order, within the byte budget, with no fragment |
| HistoryStore.CompactionFixedPoint | src/command_history.rs:1035-1099 | a second compaction changes nothing |
| HistoryStore.CompactionKeepsNewest | src/command_history.rs:1028-1099 | what a full read sees after a compaction is the newest part of what it saw before |
| HistoryStore.TailReadRefinesFullRead | src/command_history.rs:900-970 | for every file and limit the 4 MiB read returns a prefix of the full newest-first list, and its first entries when the file fits the window |
| HistoryStore.AppendedLines | src/command_history.rs:830-898 | an append adds its own line last, and ends a crash fragment as a line of its own |
| HistoryStore.AppendReadsBack | src/command_history.rs:830-898 | from any earlier bytes the appended record is first in every bounded read, and the earlier bytes stay as a prefix |
| HistoryStore.AppendCompactReadsBack | src/command_history.rs:830-898 | the same after the compaction that an append may trigger |
| HistoryStore.TornRecordIsAllOrNothing | src/command_history.rs:870-889 | a record whose write was cut short later reads as itself or as nothing |
| HistoryFile.ByteReader.DiscardThroughNewline | src/command_history.rs:1013-1026 | skips exactly to the end of the physical line, however it is buffered |
| HistoryFile.NewestInRegion | src/command_history.rs:945-970 | the backward scan returns the first entries of the deduplicated newest-first list of the region |
| HistoryFile.ScanRecent | src/command_history.rs:1035-1080 | the streaming scan returns the longest fitting suffix of the lines to keep, or fails at the first line that is not text |
| HistoryFile.HistoryFile.ReadRecentFrom | src/command_history.rs:900-970 | the loop returns what the specification of the bounded read says, for any file length observed beforehand |
| HistoryFile.HistoryFile.Compact | src/command_history.rs:1028-1099 | succeeds exactly when every line's first MiB is text and nothing fails, and says what the file holds in every case: after a success the newest lines that fit of those that `HistoryStore.KeptMeaning` describes |
| HistoryFile.HistoryFile.Append | src/command_history.rs:830-898 | succeeds exactly when the record passes the validator, its encoding fits, nothing fails and a due compaction can scan the file; gives the contents after success and after every failure; a success leaves at most 32 MiB and reads back first |
| HistoryLock.RunKeepsInv | src/command_history.rs:489-567 | lock ownership, file and log invariants hold in every reachable state |
| HistoryLock.MutualExclusion | src/command_history.rs:489-567 | in every run at most one process is in the critical section, whatever happens to the sidecar |
| HistoryLock.SequentialHistory | src/command_history.rs:830-898 | the file always equals the logged appends performed one after the other in lock order; each acquisition logs at most one, in strictly increasing order, with every acknowledged one among them |
| HistoryLock.HistoryIsAppends | src/command_history.rs:830-898 | in every run each logged append turns the contents it found into exactly what the append method leaves when interrupted there, or when it succeeds if acknowledged, its due compaction included |
| HistoryLock.WritesReachCurrentFile | src/command_history.rs:870-889 | a write goes to the file the name leads to, never to one a compaction replaced, and its newline repair is still right |
| HistoryLock.AcknowledgedLineIsInFile | src/command_history.rs:830-898 | an acknowledged record's line is in the file, or a compaction from its own on evicted it to meet the limits; nothing else ever loses it |
| HistoryLock.LastAppendReadsFirst | src/command_history.rs:830-970 | the last append to change the file, once acknowledged, is first in every bounded read |
| HistoryAcknowledged.AcknowledgedIff | src/command_history.rs:830-898 | in every run, whatever the other processes do, an append that took both locks ends acknowledged exactly when no call was refused to it, the file scanned if it had to, and its process did not die |
| HistoryAcknowledged.UncontestedAppend | src/command_history.rs:489-567 | from every reachable state a process that finds both locks free can go through with its append alone; it logs one entry and leaves the locks free and the sidecar in place |
| HistoryAcknowledged.UncontestedStoreAppend | src/command_history.rs:830-898 | such an append leaves what the append method leaves, compacted when due, and is acknowledged exactly if that method succeeds |
| HistoryAcknowledged.LocksAreHandedOver | src/command_history.rs:489-567 | in every run a lock passes only from its holder to nobody and from nobody to its next holder |
| HistoryWriter.RunHistoryWriter | src/command_history.rs:691-719 | appends run in order and each flush answers with the first failure since the flush before it |
| HistoryWriter.FirstFailureMeaning | src/command_history.rs:695-714 | that answer is a failure before which none failed, or there was none |
| HistoryWriter.FailureGoesToOneFlush | src/command_history.rs:691-719 | a generation's first failure is answered by the next flush and belongs to no other |
| HistoryWriter.ErrorLearnedIff | src/command_history.rs:711-716 | some flush hands the error to a caller exactly when the next flush finds its caller still waiting |
| HistoryWriter.WriterRefinesLoop | src/command_history.rs:691-828 | in every run of queue, writer and callers the events are what the loop does with the accepted messages in order, and the backlog is bounded |
| HistoryWriter.TimedOutFlushLosesError | src/command_history.rs:711-716 | the failing case: after a flush that timed out, the next one that waits is told that all is well |
| HistoryWriter.FlushCoversEarlier | src/command_history.rs:783-828 | in every run, when a flush returns, every append accepted before it began has run, and its answer is its generation's first failure |
| HistoryWriter.NextCallerLearnsIff | src/command_history.rs:783-828 | the caller of the next flush learns of the error exactly if its call returned, and nobody does exactly if that call timed out |
| HistoryWriter.OthersLearnOtherErrors | src/command_history.rs:691-828 | no returned flush but the next one answers for the failed append |
| HistoryWriter.FlushCanReturn | src/command_history.rs:783-828 | no deadlock: from every reachable state a new flush can be queued and answered without anybody timing out |
| HistoryWriter.BacklogFills | src/command_history.rs:721-780 | from every reachable state, of appends queued at once exactly those are accepted that leave at most 256 messages waiting |
| CrashFs.MayBindAppend | src/atomic_file.rs:343-393 | what one more pending directory change adds to the names a crash can leave |
| CrashFs.MayHoldMeaning | src/atomic_file.rs:343-393 | the contents a crash can leave, in terms of surviving names and synced data |
| AtomicFile.RenamePublishes | src/atomic_file.rs:377-382 | renaming a synced temporary adds exactly the complete new contents to what a crash may leave |
| AtomicFile.CreateUniqueTemp | src/atomic_file.rs:217-251 | retries taken names and only those, 128 times; succeeds unless the name has a NUL, a creation is refused or all 128 are taken; never clobbers an existing file or uses the destination's name |
| AtomicFile.Discard | src/atomic_file.rs:96-107 | cleanup before the rename leaves the destination untouched and, when the unlink succeeds, no temporary |
| AtomicFile.WriteAtomicDetailed | src/atomic_file.rs:356-393 | at every step processes and crash survivors find the old or the complete new contents; durable exactly when the name is usable and no call was refused, pending exactly when only the last directory sync was, otherwise not published for the first reason; each outcome says what is possible afterwards, and a leftover temporary means its unlink was refused |
| AtomicFile.DurabilityReceipt.Sync | src/atomic_file.rs:323-341 | succeeds exactly when the sync is not refused, and then every synced file that is visible is the only thing any crash leaves under its name |
| AtomicRuns.DurableOutlastsCrashes | src/atomic_file.rs:297-308 | in every run, after a durable write the destination comes back with it or a later published one |
| AtomicRuns.PendingBecomesDurable | src/atomic_file.rs:323-341 | a pending write becomes durable with the next successful directory sync unless power was lost in between |
| AtomicRuns.HoldingsAfter | src/atomic_file.rs:343-393 | no event makes contents possible that were neither possible before nor just published |
| SessionClaim.StepKeepsInv | src/agent.rs:670-723 | every step of every opener, publisher, failure and power loss keeps the claim invariant |
| SessionClaim.RestoredAtMostOnce | src/agent.rs:642-723 | in every run a published snapshot is returned as a live session at most once |
| SessionClaim.SettledEvidenceStays | src/agent.rs:684-723 | once any directory sync has followed the claim's rename, no crash makes the snapshot public again, and until consumed every crash finds it whole under its private name alone, whatever its opener's own sync, read or unlink did |
| SessionClaim.PublicSnapshotStays | src/agent.rs:670-687 | a public snapshot whose publication is on disk stays public, whole and under that name alone through every crash |
| SessionClaim.KeptIff | src/agent.rs:670-687 | that publication is on disk exactly when every publication so far has been followed by a directory sync or a power loss |
| SessionClaim.ClaimKeepsOneNameIff | src/agent.rs:670-723 | in every run a claimed, unconsumed snapshot whose publication was on disk keeps exactly one name through every crash, exactly when it is not both overtaken by a publication and unsynced |
| SessionClaim.OneNameThroughoutIff | src/agent.rs:670-723 | it keeps exactly one name at every moment and through every crash exactly when nothing is published between its claim and the next directory sync |
| ClaimNames.PublishLoses | src/agent.rs:684-687 | a publication over a rename that can still be rolled back makes a crash possible that leaves the older snapshot no name |
| SessionClaim.ConsumedWasRestorable | src/agent.rs:690-723 | only snapshots that decoded are unlinked, and only unlinked ones are returned; that each of them is, unless its opener dies, is `ClaimOutcomes.ConsumedIsAccounted` |
| ClaimOutcomes.ReturnedIff | src/agent.rs:670-723 | in every run, once the last opener to claim a snapshot is through with it, the session has been returned exactly when its first sync, read, decoding and unlink succeeded and it neither died nor lost power; the last sync does not matter |
| ClaimOutcomes.ConsumedIsAccounted | src/agent.rs:703-721 | in every run each consumed snapshot is returned, about to be, or lost with an opener that died or lost power between unlink and return, exactly one of these |
| ClaimOutcomes.PublishedIsReturned | src/agent.rs:670-723 | from every reachable state a published session is returned to the next opener that is refused nothing, whatever its last sync does, and no name leads to it afterwards |
| SessionClaim.RacingPublishDropsClaim | src/agent.rs:684-687 | the failing case: such a publication and a power loss, and the older snapshot is nowhere |
| SnapshotBound.EncodedWithoutFirst | src/agent.rs:390-399 | dropping the first of several turns drops its bytes and one comma from the array |
| SnapshotBound.CutOldest | src/agent.rs:373-401 | the incremental count stays the exact size of the retained slice; the cut is the longest unit-aligned suffix that fits, and fails only if the last unit does not |
| SnapshotBound.BoundLiveSnapshot | src/agent.rs:365-436 | unchanged when it fits, otherwise the stored suffix or the error of the check that refuses it |
| SnapshotBound.LongestSuffixIff | src/agent.rs:373-401 | there is exactly one cut, and one exists exactly when the last unit fits |
| SnapshotBound.SuffixKeepsUnits | src/agent.rs:375-417 | proposal and observation stay or go together; header and last turn are kept |
| SnapshotBound.SuffixIsStorable | src/agent.rs:469-525 | a snapshot that met the per-turn and id rules passes validation after the cut exactly when at most 128 turns remain |
| SnapshotBound.DocumentFits | src/agent.rs:426-430 | the document check can only fail for an oversized state field |
| SnapshotBound.DocumentSizeIsExact | src/agent.rs:405-430 | the size compared with the limit is the length of the seven-field document as it is written |
| SnapshotBound.OnlyTheLastUnitFails | src/agent.rs:365-436 | nothing but an oversized last unit makes an ordinary live snapshot fail |
| SnapshotBound.ValidateSnapshot | src/agent.rs:469-525 | accepts exactly the storable snapshots and reports the first rule broken, in the order checked |
| SnapshotBound.TurnLimits | src/agent.rs:486-540 | what each kind of turn is held to, in numbers, and which error names it |
| ShellLexer.ShellWordsIsLex | src/command_correction.rs:754-834 | scanning spans and then decoding each gives the words of reading the command once |
| ShellLexer.SpanEndsAgree | src/command_correction.rs:754-827 | scanner and decoder are in the same quote state at every span end |
| ShellScanners.ShellWordSpans | src/command_correction.rs:754-795 | the scanning loop with its skips finds exactly the specified spans |
| ShellScanners.ShellWordValue | src/command_correction.rs:797-827 | the decoding loop with its lookahead gives exactly the specified value |
| ShellScanners.DecodeSpans | src/command_correction.rs:829-834 | decoding the spans one by one gives the lexed arguments |
| ShellQuoting.LexUndoesQuoting | src/command_correction.rs:754-834 | for every list of strings, lexing its single-quoted, space-joined line gives it back |
| ShellPrinting.LexUndoesPrinting | src/command_correction.rs:754-834 | however each word is written (bare, quoted either way, escaped, or mixed), whatever separates the words and whatever redirections stand between them, the arguments are the texts of the words that are no operands |
| ShellTrim.TrimCommandPadding | src/command_correction.rs:838-860 | the loop returns the specified trimmed command |
| ShellTrim.TrimIdempotent | src/command_correction.rs:838-860 | trimming twice is trimming once |
| ShellTrim.TrimSplits | src/command_correction.rs:838-860 | all bare white space goes at both ends and nothing else: what a quote or backslash holds stays |
| ShellTrim.TrimKeepsWordsExactly | src/command_correction.rs:838-860 | the arguments survive exactly when the removed padding adds nothing to the lexer |
| ShellTrim.TrimKeepsWords | src/command_correction.rs:838-860 | they always survive when all white space is ASCII |
| ShellTrim.NoBreakSpaceIsLost | src/command_correction.rs:838-860 | a final no-break space is an argument's and is removed |
| ShellStages.ShellStages | src/command_correction.rs:1413-1453 | the splitting loop returns exactly the specified stages |
| ShellStages.StagesRebuild | src/command_correction.rs:1413-1453 | stages interleaved with the removed separators are the command |
| ShellStages.StageStartsUnquoted | src/command_correction.rs:1413-1453 | each stage starts outside quotes and escapes |
| ShellStages.StagesAreComplete | src/command_correction.rs:1413-1453 | no stage holds an unquoted control operator that should have split it, and nothing else splits |
| ShellStages.StageWords | src/command_correction.rs:1413-1453 | the command's arguments are a subsequence of its stages' arguments, equal without an unquoted redirection |
| ShellStages.RedirectionSkipsWord | src/command_correction.rs:1413-1453 | the failing case: with a redirection before a pipe they differ |
| StageArguments.WholeIsStages | src/command_correction.rs:1413-1453 | the command's arguments are those of its stages read with the operand still owed carried from stage to stage |
| StageArguments.StageWordsIff | src/command_correction.rs:1413-1453 | they equal the stages' own arguments exactly when no stage entered with an operand owed begins with an argument |
| ShellReplace.ReplaceExactly | src/command_correction.rs:862-897 | a command is returned exactly when the names are usable and one argument only spells the old one, and which characters change |
| ShellReplace.ReplacedIff | src/command_correction.rs:862-897 | a command is returned exactly when the names are usable and exactly one argument is written as the old name, bare or in one pair of quotes |
| ShellReplace.ReplaceChangesOneWord | src/command_correction.rs:862-897 | the arguments change in exactly one entry, everything outside the span stays, no control marker is added |
| ShellReplace.NoNewMarker | src/command_correction.rs:1068-1073 | a marker of the edited text lies wholly beside the new name, so the original had it |
| CandidateGate.ReviewClosedUnderTrim | src/review_input.rs:39-57 | a reviewed text stays reviewable, and no longer, after trimming |
| CandidateGate.AcceptedIff | src/command_correction.rs:1091-1154 | a candidate is accepted, without its padding, exactly when it is small and reviewable, changes something, adds no control marker, and runs no privilege or remote program, feeds no interpreter and pipes nothing from the network into one that the original did not |
| CandidateGate.RejectionIsHonest | src/command_correction.rs:1091-1154 | a rejection names a rule the candidate breaks |
| CandidateGate.AcceptedRevalidates | src/command_correction.rs:1091-1154 | an accepted command revalidates against the same original to itself, and so does its unedited draft |
| CandidateGate.AcceptedKeepsWords | src/command_correction.rs:1091-1154 | the accepted command has the candidate's arguments |
| CandidateGate.EditedRevalidates | src/command_correction.rs:2241-2248 | an accepted draft is accepted again verbatim |
| CandidateGate.ReplacementPassesMarkerRule | src/command_correction.rs:1068-1154 | a one-word correction is never refused for adding control syntax |
| CandidateGate.CorrectionProposal.Accept | src/command_correction.rs:2506-2530 | submitting agrees with the label, and the command runs directly exactly when it is the proposed one, verified and harmless |
| EditDistance.EditDistance | src/command_correction.rs:901-927 | the rolling three-row loop returns the recursive optimal-string-alignment distance |
| EditDistance.DistanceIsCheapest | src/command_correction.rs:901-927 | that distance is the cost of a cheapest script of insertions, deletions, substitutions and adjacent swaps: one reaches it, none beats it |
| EditDistance.DistanceLaws | src/command_correction.rs:901-927 | symmetric, zero only for equal strings, between the length difference and the longer length |
| EditDistance.TriangleFails | src/command_correction.rs:901-927 | it is not a metric |
| NameRanking.RankNames | src/command_correction.rs:942-991 | the loop, sort and cut return the specified ranking |
| NameRanking.RankingSorted | src/command_correction.rs:942-991 | the ranking is strictly increasing in the four-key order and has no two results equal ignoring case |
| NameRanking.LowerEqualsIff | src/command_correction.rs:957-965 | names count as one exactly when they differ at most in the case of ASCII letters |
| NameRanking.RankingOrder | src/command_correction.rs:979-986 | closer names first, then better scores, then nearer lengths, then alphabetical order |
| NameRanking.RankingMeaning | src/command_correction.rs:942-991 | every result is a trimmed input, plausible, within the allowed distance and not the needle |
| NameRanking.RankingComplete | src/command_correction.rs:942-991 | every plausible input within range has its spelling, ignoring case, in the ranking |
| NameRanking.RankingIgnoresOrder | src/command_correction.rs:942-991 | permuting at most 50,000 inputs that are distinct ignoring case and padding changes nothing |
| RequestEpoch.CorrectionRequestState.Start | src/command_correction.rs:3169-3180 | adopts the token on the live epoch, cancels the one it replaces, and cancels a stale token |
| RequestEpoch.CorrectionRequestState.Advance | src/command_correction.rs:3160-3165 | cancels what is in flight and mints the next generation modulo 2^64 |
| RequestEpoch.CorrectionRequestState.Finish | src/command_correction.rs:3200-3214 | succeeds only for the request in flight on the live epoch |
| RequestEpoch.CorrectionRequestState.Cancel | src/command_correction.rs:3217-3233 | the same, cancelling its token |
| RequestEpoch.CorrectionRequestState.Retire | src/command_correction.rs:3244-3251 | succeeds only on the live epoch, which it ends |
| RequestEpoch.CorrectionRequestState.Drop | src/command_correction.rs:3254-3260 | cancels what is in flight |
| RequestEpoch.LiveIsFresh | src/command_correction.rs:3153-3252 | in every run the token in flight carries the current generation |
| RequestEpoch.EveryTokenAccounted | src/command_correction.rs:3153-3260 | in every run the tokens given to start are exactly those live, cancelled or finished |
| RequestEpoch.FatesAreDisjoint | src/command_correction.rs:3153-3260 | distinct tokens have exactly one of these fates |
| RequestEpoch.LiveIff | src/command_correction.rs:3153-3260 | a token is in flight exactly when it was started on the generation then current and no later call advances, drops or names that generation |
| RequestEpoch.FinishedIff | src/command_correction.rs:3200-3214 | a token is finished exactly when a finish call names its generation while it is in flight |
| RequestEpoch.StaleGenerationIff | src/command_correction.rs:3160-3165 | a passed generation is current again exactly when the bumps since are a multiple of 2^64 |
| RequestEpoch.PassedGenerationIsDead | src/command_correction.rs:3241-3251 | with fewer bumps no later call naming a passed generation succeeds or changes anything |
| RequestEpoch.WrapRevives | src/command_correction.rs:3160-3165 | after exactly 2^64 advances a retired generation can be retired again |
| ClickCursor.TargetStaysInSpan | src/click_cursor.rs:130-164 | a target lies on the span, is the click when that does, and never the cursor's cell |
| ClickCursor.TargetIsNearest | src/click_cursor.rs:130-164 | none exactly when the row is outside the span or the cursor is already there; otherwise no cell of the span is nearer to the click |
| ClickCursor.TargetWithoutSpan | src/click_cursor.rs:130-164 | without a span the target is the click on the cursor's own row, and otherwise none |
| ClickCursor.CharSteps | src/click_cursor.rs:172-206 | the walk returns the signed number of characters between the cells, capped at 4097 |
| ClickCursor.StepsAntisymmetricAdditive | src/click_cursor.rs:166-206 | steps are antisymmetric, and additive while no leg is over the cap |
| ClickCursor.ArrowBytes | src/click_cursor.rs:265-283 | one key per step in the right mode and direction, and nothing exactly for zero or more than 4096 |
| ClickCursor.KeysMoveExactly | src/click_cursor.rs:259-283 | a line editor reading the keys ends exactly at the target |
| ClickCursor.ClickLands | src/click_cursor.rs:130-283 | click to editor end to end: lands on the target's character, and never presses Right at the end of the input |
| ClickCursor.ClampIsNearest | src/click_cursor.rs:255-257 | clamping gives the nearest distance within the room on both sides |
| ClickCursor.ClampRevivesRefused | src/click_cursor.rs:255-257 | a refused distance becomes sendable by clamping exactly when the room is 1 to 4096 |
| ClickCursor.SaturationHidesDistanceIff | src/click_cursor.rs:43-46 | two different cells of the grid share an index exactly in the listed saturation cases |
| ClickCursor.SaturationHidesDistance | src/click_cursor.rs:43-46 | the failing case: five characters apart with one index |
| ClickCursor.ClickIsUnmovedPress | src/click_cursor.rs:217-247 | a release yields a cell exactly after a plain press there that the pointer never left |

## Left out

- Text is a sequence of Unicode scalar values; spans and stage borders count characters where the source counts UTF-8 bytes. Byte lengths are modelled where a limit depends on them.
- The record codec, JSON of turns, jagent's decoder, the alphanumeric and invisible-character tables, `is_dangerous`, the fuzzy score, `stage_programs` and `stage_interpreter` are parameters.
- Permissions, ownership, symbolic links, FIFOs and the entropy of temporary names; a system call either does its job or fails.
- Clocks: a lock wait may time out at any moment, and so may a flush. A flush before the writer exists has nothing to wait for and returns at once; the writer is never replaced.
- The library's stable `sort_by` is a function; its merge strategy is not part of this model.
- In `HistoryFile` one object stands for the file; other processes appear in `HistoryLock` only, which has no power loss.
- In `AtomicFile` nobody else changes the directory during one call; `AtomicRuns` interleaves whole calls with other events.
- `HistoryStore.TailReadRefinesFullRead` speaks of one snapshot of the file: a file growing during the read is not part of this model.
- `HistoryFile.HistoryFile.Compact` fails on bytes that are not UTF-8 while the reader skips such lines, as in the source; the laws of compaction are about runs that succeed.
- `SessionClaim` takes `claim_exclusive` as one atomic no-replace rename and a publication as one rename of a synced file; the retries over private names are any further attempts to open.
- SessionClaim.OneNameThroughoutIff: is about runs without a power loss after the claim; through one, the snapshot goes on as a settled claim or as public again, which `SettledEvidenceStays` and `PublicSnapshotStays` cover, or has just been lost.
- SnapshotBound.OnlyTheLastUnitFails: assumes at most 128 turns, a state field of at most 1024 bytes of JSON and a decoder that takes back what was encoded; the count's overflow errors for sizes beyond the machine word are not modelled.
- NameRanking.RankingIgnoresOrder: for at most 50,000 inputs distinct after trimming and lowercasing, because otherwise the first spelling seen wins.
- ClickCursor.CharSteps: requires columns inside the grid, which the walk needs to advance, and states the count for cells whose index does not saturate; for others it bounds the result.
- ClickCursor.ClickLands: the cursor is on the input span, as a line editor's caret is, and the click and the span's ends have columns inside the grid and indices that do not saturate.
- `click_may_move_cursor` is a conjunction of flags.
- Non-Unix variants of the file code, prompts, providers, failure classification, probes and the option tables.
