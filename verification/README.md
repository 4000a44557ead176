# Verified model of the Maranode core

Maranode is a local inference daemon with an audit trail. This project models ten of its components
in Dafny and proves what they are for. Methods and classes follow the loops and the state of the
Rust code; specification functions give each of them a meaning, and lemmas prove what that meaning
promises over all inputs and all runs. Where a result could be met by a specification and a method
that share a mistake, a lemma states it once more in terms of inputs and outputs alone, with the
numbers and texts of the source written out.

| component | modules | main results |
|---|---|---|
| typo suggestions | `EditDistance` | the table is the minimum over all edit scripts; it is a metric; what a suggestion is |
| audit log | `AuditChain`, `AuditStore`, `AuditVerify`, `AuditRuns`, `AuditPruning`, `AuditTheorems`, `AuditMeaning`, `AuditSchedules` | every run that prunes nothing from under the open handle verifies, counts what is retained and misses only what was overdue; rotation is invisible; exactly which retention schedules are safe, and what the others lose |
| generation | `Generation` | an answer is the one transcript up to the first token that ends it; streaming and blocking generation agree in text, end and failure |
| chunking | `Whitespace`, `ChunkText`, `ChunkCode`, `CodeCuts` | chunks fit, cover and conserve the source; where text and code are cut and what goes together |
| retrieval | `Sorting`, `Retrieval` | merging the per-collection bests gives the best rows of the store |
| GGUF metadata | `GgufFormat`, `Gguf` | the reader finds what an encoder written from the format wrote, through nested arrays it skips, and exactly when it cannot |
| inference queue | `Queue` | counters are exact in every interleaving; the overshoot bound is exact |
| workspace quotas | `Usage` | the ledger is exact and the quotas hold in every run; exactly where the memory quota bounds the bytes in use |
| rate limits | `RateLimit`, `Unseal` | pruning is invisible; exact bounds over every run |
| model store | `Models` | every model verifies and is the bytes that were read; removing one breaks no other |
| compliance exports | `Csv`, `CsvExport`, `ExportMeaning` | an RFC 4180 reader gets the original values back; which entries and what in each column |

`Prelude` holds the datatypes they share. `dafny verify dfyconfig.toml` checks the whole project.

A MAC, a digest, a sampler, a vector product and a case folding are functions given as parameters,
so every result holds for whatever they are; where a result needs more (an injective MAC, no digest
collision), its contract says so. Clocks are parameters of the calls that read them.

Where the code and its documentation disagree, the model follows the code:

- The configuration calls `max_queue_depth` a limit on waiting requests
  (docs/config.toml.example:62, docs/usage.md:173); the counter also counts the requests that run
  (crates/maranode-inference/src/queue.rs:76-82).
- The comment on pruning says that the chain is broken from the first entry that remains
  (crates/maranode-audit/src/retention.rs:9). Verification anchors at that entry, so a log without
  segments stays correct; `AuditTheorems.PruneAloneVerifiesIff` says exactly when.
- The sign-in limiter is called a sliding window of `max_per_minute` attempts
  (crates/maranode-api/src/state.rs:279-280); its windows are fixed, and up to 2 * limit - 1 requests
  pass in 60 seconds. `RateLimit.BoundIsReached` gives the run, and `RateLimit.DocumentedLimitIff`
  says that the documented bound holds exactly for limit one.

## Where the code falls short

Some promises hold only under a condition. Each is proved to be the exact one, and the failing sides
are shown at runs from the initial state.

- Pruning puts a new file under the log's name while the daemon's handle stays on the old one
  (crates/maranode-audit/src/retention.rs:54, crates/maranode-audit/src/log.rs:22). What is appended
  next is in no file that readers find, and after a rotation verification can fail. Rotation,
  retention and pruning each read the clock (crates/maranode-audit/src/log.rs:188,
  crates/maranode-audit/src/rotate.rs:234, crates/maranode-audit/src/retention.rs:18), so a schedule
  is safe exactly when retention is off, or `audit_max_age_days` is at least one and retention is
  longer by at least what a pass may take: one day is ample, equal periods are not
  (`AuditSchedules.ScheduleSafeIff`). The shipped one is not safe (`AuditSchedules.ShippedScheduleFails`).
- Pruning alone can leave a gap behind a segment (`AuditTheorems.PruneAloneVerifiesIff`,
  `AuditSchedules.PruneAloneBreaksTheChain`), and so can a pass whose pruning reads the clock later
  than its retention (`AuditTheorems.SweptVerifiesIff`, `AuditSchedules.SlowPassBreaksTheChain`).
- A shredding event cannot be read back, and verification fails as long as its line is retained
  (`AuditTheorems.EveryQuietRunVerifies`, `AuditTheorems.ShreddingFails`).
- The rate limits (`RateLimit.PruningInvisibleIff`, `RateLimit.KeepsBoundIff`).
- The memory quota at its largest value, and for a model imported again while in use
  (`Usage.MemoryQuotaHoldsIff`, `Usage.RecordedIff`, `Usage.ReimportedModelPasses`).
- Blobs left without a row (`Models.RunTidyIff`, `Models.TakenNameLeavesOrphan`,
  `Models.FailedDeletionLeavesOrphan`).
- A metadata key or string over 4096 bytes, a chat template for instance, hides a context length that
  comes after it (`Gguf.ReaderFindsContextLength`, `Gguf.LongTextHidesContextLength`).

## Model

| member | source | states |
|---|---|---|
| `EditDistance.Distance` | crates/maranode-cli/src/errors.rs:101-124 | The table filled row by row holds the recurrence of every pair of prefixes; its last cell is the distance of the whole texts |
| `EditDistance.Neighbours` | crates/maranode-cli/src/errors.rs:107-121 | Dropping the last character of either text moves the distance by at most one; this is what makes the match branch, which looks at the diagonal only, lose nothing |
| `EditDistance.NoScriptIsCheaper` | crates/maranode-cli/src/errors.rs:107-121 | Every script of keeps, substitutions, deletions and insertions costs at least the distance of what it reads and writes |
| `EditDistance.SomeScriptAttains` | crates/maranode-cli/src/errors.rs:107-121 | For all texts some script turns one into the other at exactly the distance |
| `EditDistance.DistIsLeastCost` | crates/maranode-cli/src/errors.rs:101-124 | The distance is the minimum over all edit scripts: attained by one, undercut by none |
| `EditDistance.ZeroMeansEqual` | crates/maranode-cli/src/errors.rs:101-124 | The distance is zero exactly for equal texts |
| `EditDistance.Symmetric` | crates/maranode-cli/src/errors.rs:101-124 | The distance is the same in both directions |
| `EditDistance.Compose` | crates/maranode-cli/src/errors.rs:101-124 | Two scripts that meet in the middle compose into one that costs no more than both together |
| `EditDistance.Triangle` | crates/maranode-cli/src/errors.rs:101-124 | The triangle inequality |
| `EditDistance.FindExactIsFirst` | crates/maranode-cli/src/errors.rs:86-91 | The exact lookup finds the first option equal up to case, or nothing when there is none |
| `EditDistance.NearestIsFirst` | crates/maranode-cli/src/errors.rs:92-98 | Filter and `min_by_key` give the first option of least distance, within two edits, or nothing when all are farther |
| `EditDistance.DidYouMeanMeaning` | crates/maranode-cli/src/errors.rs:84-99 | The suggestion is the first case-insensitive match if there is one, otherwise the first nearest option within two edits, otherwise nothing |
| `AuditChain.LinkedConcat` | crates/maranode-audit/src/verify.rs:31-84 | A chain in two parts is correct exactly when the first part is and the second continues from its end |
| `AuditChain.AcceptedConcat` | crates/maranode-audit/src/verify.rs:31-84 | The same for files with blank and unparsable lines |
| `AuditChain.LinkedSuffix` | crates/maranode-audit/src/verify.rs:86-104 | A tail of a correct chain is a correct chain from its own first entry |
| `AuditChain.SameEndSameChainOrCollision` | crates/maranode-audit/src/verify.rs:31-84 | Two correct chains from one cursor that end at one cursor are equal, or contain two different bodies with the same MAC, whatever the MAC is |
| `AuditChain.SameEndSameChain` | crates/maranode-audit/src/chain.rs:8-16 | With an injective MAC two accepted files with the same start and end cursor record the same entries one by one |
| `AuditChain.WalkStep` | crates/maranode-audit/src/verify.rs:31-84 | One line is accepted exactly when number, previous MAC and own MAC are right, and a file is accepted only if each of its prefixes is |
| `AuditChain.Walk` | crates/maranode-audit/src/verify.rs:31-84 | No violation is reported exactly for accepted files; otherwise the report names the first line that breaks the chain, with the right reason and number, and the cursor stands right before it |
| `AuditStore.Summarize` | crates/maranode-audit/src/rotate.rs:100-135 | The summary holds the first and last entry's numbers, MACs and times and the number of entries; none for a file without entries |
| `AuditStore.OldestTs` | crates/maranode-audit/src/rotate.rs:137-147 | The time of the first entry that can be parsed |
| `AuditStore.ScanTail` | crates/maranode-audit/src/log.rs:250-275 | The end of the active file, or of the segment with the greatest end when the active file has no entry |
| `AuditStore.PruneLog` | crates/maranode-audit/src/retention.rs:10-63 | Refuses a zero period and changes nothing then; otherwise counts the stale entries and, only if there are any, rewrites the file without them and without blank lines, keeping lines that cannot be parsed |
| `AuditStore.AuditLog.constructor` | crates/maranode-audit/src/log.rs:37-59 | Opening scans the tail and starts with rotation off |
| `AuditStore.AuditLog.Append` | crates/maranode-audit/src/log.rs:96-140 | The file in the handle gets one more line: an entry with the time, actor and event given, the next number, the running MAC as the one before and the MAC of all this; number and running MAC move to it, and a rotation by size only may follow |
| `AuditStore.AuditLog.MaybeRotate` | crates/maranode-audit/src/log.rs:149-159 | Rotation happens exactly when it is due, and the sealed segment is returned |
| `AuditStore.AuditLog.RotateLocked` | crates/maranode-audit/src/log.rs:166-232 | Seals the file under the log's name, empties it and opens it again, exactly when the size of the file in the handle or the age of the first entry under the name triggers and there is an entry to seal; nothing changes otherwise |
| `AuditStore.AuditLog.EnforceSegmentRetention` | crates/maranode-audit/src/rotate.rs:225-253 | Exactly the segments that ended before the cutoff go, in whatever order they are, and their number is returned |
| `AuditStore.AuditLog.Prune` | crates/maranode-audit/src/retention.rs:10-63 | Pruning under the open handle, as the daemon, the prune request and the prune command do it: a new file is put under the log's name exactly when an entry is stale, and the handle keeps the old one |
| `AuditStore.AuditLog.SweepDir` | crates/maranode-daemon/src/main.rs:730-766 | Sets and applies rotation, drops expired segments, then prunes, in this order and under the open handle, each part with its own reading of the clock |
| `AuditStore.AuditLog.Reopen` | crates/maranode-audit/src/log.rs:37-59 | Opening again takes the file under the log's name and scans its tail, with rotation off |
| `AuditVerify.VerifyLog` | crates/maranode-audit/src/verify.rs:107-125 | A log without segments passes exactly when it is one correct chain from its anchor; the entries counted are those before the first line that breaks it, which is the one reported |
| `AuditVerify.WalkOn` | crates/maranode-audit/src/verify.rs:167-176 | Walking a further stretch extends what is accepted and counted so far, up to the first line that breaks the chain |
| `AuditVerify.VerifySegment` | crates/maranode-audit/src/verify.rs:146-165 | One segment: either its lines continue the chain and end in the MAC its manifest row claims, or the log is not sound and the report is about the first thing wrong, a line or this segment |
| `AuditVerify.VerifySegments` | crates/maranode-audit/src/verify.rs:146-165 | The same for all segments in order |
| `AuditVerify.VerifyAll` | crates/maranode-audit/src/verify.rs:127-183 | No violation exactly when segments, ordered by start, and active file form one correct chain with matching manifest rows, and then every entry is counted; otherwise the report is about the first line or segment that is wrong, and the entries before it are counted |
| `AuditRuns.SegmentEnds` | crates/maranode-audit/src/rotate.rs:100-135 | A manifest row's numbers, MACs and times are those of a stretch of the logical log |
| `AuditRuns.SegmentsOrdered` | crates/maranode-audit/src/rotate.rs:149-201 | In every reachable log the manifest rows are in order of their numbers |
| `AuditRuns.InvIsSound` | crates/maranode-audit/src/verify.rs:127-183 | A log with the invariant passes verification exactly when every line of it can be read, and sorting its segments changes nothing |
| `AuditRuns.WrittenKeepsInv` | crates/maranode-audit/src/log.rs:100-128 | Writing an entry keeps the invariant and adds exactly its line; an entry with a shredding event cannot be read back |
| `AuditRuns.RotationInvisible` | crates/maranode-audit/src/log.rs:166-232 | Rotation changes neither the logical log, nor number, nor running MAC, and keeps the invariant |
| `AuditRuns.AppendedKeepsInv` | crates/maranode-audit/src/log.rs:96-140 | Appending, inline rotation included, keeps the invariant and adds exactly one entry |
| `AuditRuns.UnexpiredIsSuffix` | crates/maranode-audit/src/rotate.rs:225-253 | When rows are in order of time, what survives retention is a suffix of them |
| `AuditRuns.ExpiredKeepsInv` | crates/maranode-audit/src/rotate.rs:225-253 | Segment retention removes a prefix of the entries, all of them overdue, and keeps the invariant |
| `AuditRuns.TailIsLast` | crates/maranode-audit/src/log.rs:250-275 | What opening the files finds is the last entry that can be read |
| `AuditRuns.ChainedDropped` | crates/maranode-audit/src/verify.rs:86-104 | Dropping lines from the front leaves a suffix of the chain behind the last unreadable line |
| `AuditRuns.ReopenRestores` | crates/maranode-audit/src/log.rs:250-275 | Reopening never changes the logical log and keeps the invariant; it restores number and MAC whenever an entry follows the last unreadable line; with no entry left numbering restarts from the genesis value |
| `AuditPruning.StaleIsPrefix` | crates/maranode-audit/src/retention.rs:24-35 | With ordered times the entries pruned are a prefix |
| `AuditPruning.PrunedActive` | crates/maranode-audit/src/retention.rs:10-63 | Pruning removes from the file exactly the entries older than the cutoff, a prefix of it, and keeps unreadable lines |
| `AuditPruning.PrunedKeepsInv` | crates/maranode-audit/src/retention.rs:10-63 | Pruning a closed log keeps the invariant when no segment precedes the active file or nothing is stale |
| `AuditPruning.ClosedSweptKeepsInv` | crates/maranode-daemon/src/main.rs:750-766 | Segment retention then pruning of a closed log at one cutoff, then opening it, removes a prefix of the logical log, all of it overdue, and keeps the invariant |
| `AuditPruning.SweptKeepsInvIff` | crates/maranode-daemon/src/main.rs:730-766 | The daemon's pass, whose parts read a nondecreasing clock, leaves the handle on the file that readers find, and keeps the invariant, exactly when nothing in the active file is stale for pruning after rotation; then it removes a prefix that was overdue for retention |
| `AuditPruning.AgeRotationSpares` | crates/maranode-daemon/src/main.rs:730-766 | Rotation by age leaves nothing for pruning when retention is longer by at least the time from the reading of rotation to that of pruning |
| `AuditPruning.AppendReachesDiskIff` | crates/maranode-audit/src/log.rs:123-128 | An appended entry reaches the files that readers find exactly when the handle is not left behind |
| `AuditPruning.SweptLeavesNothingStale` | crates/maranode-daemon/src/main.rs:750-766 | After a pass no entry older than the cutoff is left in the active file |
| `AuditTheorems.StepKeepsInvIff` | crates/maranode-audit/src/log.rs:92-232 | Every operation keeps the invariant, and the handle where readers look, exactly when it prunes nothing from under the handle; then what is retained is a suffix of what was there and what was added, and everything else was overdue at that operation |
| `AuditTheorems.RunKeepsInv` | crates/maranode-audit/src/log.rs:92-232 | The same over every run in which nothing is pruned from under the handle: a suffix is retained, and every other entry was overdue at some operation of the run |
| `AuditTheorems.AttachedIffQuiet` | crates/maranode-audit/src/retention.rs:37-60 | Over every run the handle is never left behind exactly when no operation prunes anything from under it |
| `AuditTheorems.EveryQuietRunVerifies` | crates/maranode-audit/src/verify.rs:127-183 | After every such run from an empty log under a nondecreasing clock, with appends, rotations, retention, sweeps, closed sweeps and reopens, the log is sound exactly when no unreadable line is retained, and of all readable entries ever appended it holds a suffix; each one missing was overdue at some operation of the run |
| `AuditTheorems.VerifyAfterRun` | crates/maranode-audit/src/verify.rs:127-183 | Verification after such a run reports no violation exactly when no unreadable line is retained, and then counts exactly the retained entries |
| `AuditTheorems.LegibleRunReadable` | crates/maranode-common/src/events.rs:86-90 | Without shredding events every line of such a run can be read |
| `AuditTheorems.ShreddingFails` | crates/maranode-cli/src/commands/workspace.rs:66-77 | A run that appends one shredding event leaves a log that fails verification |
| `AuditTheorems.SweptVerifiesIff` | crates/maranode-daemon/src/main.rs:750-766 | Right after a pass the files verify, whether or not the handle was left behind, exactly when every line can be read and, behind a kept segment, pruning removed nothing or the whole active file |
| `AuditTheorems.SweptStillVerifies` | crates/maranode-daemon/src/main.rs:750-766 | They do when every line could be read before and retention and pruning read the same clock |
| `AuditTheorems.PruneAloneVerifiesIff` | crates/maranode-api/src/routes/audit.rs:239-250 | Pruning without segment retention leaves files that verify exactly when every line can be read and there is no segment, or nothing was stale, or the whole active file was |
| `AuditSchedules.PruneAloneBreaksTheChain` | crates/maranode-cli/src/commands/audit.rs:305 | A run (append, rotate, append, append, prune) after which the files fail verification |
| `AuditSchedules.SlowPassBreaksTheChain` | crates/maranode-daemon/src/main.rs:750-766 | The same with one pass whose pruning reads the clock later than its retention |
| `AuditSchedules.ScheduleSafeIff` | crates/maranode-daemon/src/main.rs:730-766 | With one rotation and retention configured and a bound on how long a pass takes, every run of appends, passes and restarts keeps its log (sound when readable, nothing missing but what was overdue) exactly when retention is off, or age rotation is on and retention is longer by at least that bound; for every size limit that one short entry does not reach |
| `AuditSchedules.ShippedScheduleFails` | crates/maranode-daemon/src/config.rs:159-168 | The shipped configuration, 256 MiB without age rotation and 90 days, has runs that lose an entry and runs after which the files fail verification, however short its passes are |
| `AuditSchedules.LosingRunLoses` | crates/maranode-audit/src/retention.rs:54 | The run: one entry, a pass that prunes it, a second entry, which no reader finds |
| `AuditSchedules.SweepsBreakTheChain` | crates/maranode-audit/src/log.rs:174-217 | Under every other schedule with a size limit that two entries stay below, enough further entries make the files fail verification: when the unlinked file is large enough the second entry is sealed, and the next one does not follow it |
| `AuditMeaning.AppendWrites` | crates/maranode-audit/src/log.rs:96-140 | The same of the whole log: unless a rotation follows nothing else changes, and with the handle attached the logical log grows by that line in any case |
| `AuditMeaning.HistoryTells` | crates/maranode-audit/src/log.rs:96-128 | The times, actors and events of the entries a run adds are those of its readable appends, in order |
| `AuditMeaning.QuietRunTells` | crates/maranode-audit/src/verify.rs:127-183 | After a run that prunes nothing from under the open handle, the entries retained tell, in order, the last of what the run was asked to record; whatever it was asked before was overdue |
| `AuditMeaning.EndsMeaning` | crates/maranode-audit/src/retention.rs:18-35 | Overdue means more than that many days of 86400 seconds old at the operation's clock reading |
| `AuditMeaning.RotatesIff` | crates/maranode-audit/src/log.rs:166-232 | Rotation seals the active file, unchanged, exactly when it holds an entry and the file in the handle has reached the size or the first entry is older than the days given; otherwise nothing changes |
| `AuditMeaning.RetentionTakes` | crates/maranode-audit/src/rotate.rs:225-253 | Retention drops exactly the segments whose last entry is more than that many days old, keeps the order of the others and changes nothing else |
| `AuditMeaning.PruningTakes` | crates/maranode-audit/src/retention.rs:10-63 | Exactly if some entry is older than that many days, pruning puts a file of the other lines, in order and without blank ones, under the log's name; the handle keeps the file it had |
| `AuditMeaning.SoundWithSegmentsIff` | crates/maranode-audit/src/verify.rs:127-183 | A log with ordered segments is sound exactly when every line can be read, the entries are a chain from the number and MAC of the first manifest row, number one standing for 64 zeros, and each segment ends in the MAC its row claims |
| `AuditMeaning.SoundFileIff` | crates/maranode-audit/src/verify.rs:86-125 | A log without segments is sound exactly when every line can be read and the entries are a chain from the first on, which names 64 zeros as the MAC before it if its number is one |
| `Generation.DecodePrompt` | crates/maranode-inference/src/llama.rs:668-692 | The prompt is fed in pieces of at most 512 at positions 0, 1, 2, ...; it succeeds exactly when each piece decodes, and then the last prompt token can be sampled |
| `Generation.GenerateSync` | crates/maranode-inference/src/llama.rs:423-514 | The blocking loop returns the answer read off the transcript, or the failure that stops it; it counts all prompt tokens and at most max(max_tokens, 1) of its own, as many if it ends by length; it feeds a prefix of prompt and drawn tokens |
| `Generation.StreamTokens` | crates/maranode-inference/src/llama.rs:619-661 | The streaming loop sends the transcript's messages, cut where the reader goes away |
| `Generation.StreamSync` | crates/maranode-inference/src/llama.rs:566-662 | The same with refusals and prompt failures sent as the only message |
| `Generation.LastStep` | crates/maranode-inference/src/llama.rs:455-487 | Generation stops at the first step that ends it or fails to decode, and at none before; it terminates for every token limit |
| `Generation.StreamShape` | crates/maranode-inference/src/llama.rs:619-661 | Every message before the last step is a token not marked last; the last step's token is marked exactly when generation ended there, otherwise one failure follows |
| `Generation.StreamAgreesWithAnswer` | crates/maranode-inference/src/llama.rs:423-514 | For every model, prompt, limit and stop list the streamed texts joined are the blocking content, exactly the final token is marked last, and one fails exactly when the other does with the same failure |
| `Generation.FedHasNoGap` | crates/maranode-inference/src/llama.rs:566-662 | Both loops feed the model positions 0, 1, 2, ... without a gap, starting with the prompt |
| `Generation.AnswerMeaning` | crates/maranode-inference/src/llama.rs:423-514 | An answer is made of the tokens sampled one after the other, each fed back at the next position, up to the first that is end-of-generation, ends the text in a stop string or reaches the limit; these decide text, counts and finish reason; it fails exactly when the prompt is too long or a decode call fails before that |
| `Generation.AnswerBounds` | crates/maranode-inference/src/llama.rs:483-511 | An answer counts the prompt's tokens and at most as many of its own as allowed, exactly as many when it finishes by length |
| `Generation.StreamMeaning` | crates/maranode-inference/src/llama.rs:566-662 | The stream has one message for each of these tokens, empty for end-of-generation, and marks the last of them exactly when generation is complete; else a failure follows |
| `Generation.TextConcat` | crates/maranode-inference/src/llama.rs:463-470 | The text of tokens is that of each, joined |
| `Generation.PromptDecodesIff` | crates/maranode-inference/src/llama.rs:668-692 | The prompt goes in exactly when each of its prefixes of a multiple of 512 tokens, and the whole, decodes |
| `Whitespace.TrimSpanSkipsSpace` | crates/maranode-rag/src/chunk.rs:64-68 | Trimming a window drops only whitespace and leaves none at either end |
| `Whitespace.TrimKeepsInk` | crates/maranode-rag/src/chunk.rs:144-150 | Trimming loses no other character, and leaves nothing exactly for blank text |
| `Whitespace.IsSpaceIff` | crates/maranode-rag/src/chunk.rs:295-317 | The characters taken for whitespace are the 25 with the White_Space property |
| `ChunkText.LastBreak` | crates/maranode-rag/src/chunk.rs:299-315 | The backward search finds the last break of its kind, or there is none in the range |
| `ChunkText.FindBreak` | crates/maranode-rag/src/chunk.rs:295-317 | Paragraph, sentence and whitespace breaks are tried in this order in the last four tenths, else the window stays full |
| `ChunkText.BreakPointMeaning` | crates/maranode-rag/src/chunk.rs:295-317 | A full window is cut in its last four tenths behind the last blank line, else behind the last full stop, exclamation mark, question mark or ellipsis before whitespace, else behind the last whitespace, else not at all |
| `ChunkText.TextWindowsGoOn` | crates/maranode-rag/src/chunk.rs:37-77 | Each window is cut where it is full, or ends with the text and is the last; the next begins the clamped overlap before its end, or at its end when that would be no progress |
| `ChunkText.WindowsWellPlaced` | crates/maranode-rag/src/chunk.rs:54-77 | The windows start at the front, end at the end, strictly advance, leave no gap, overlap by at most the overlap, and fit the size |
| `ChunkText.WindowsCover` | crates/maranode-rag/src/chunk.rs:54-77 | Every position lies in some window |
| `ChunkText.TextWindowsPlaced` | crates/maranode-rag/src/chunk.rs:37-77 | For every size and overlap, clamped as the source does, the windows lie in the text, strictly advance, leave no gap, overlap by at most the overlap and fit the size |
| `ChunkText.TextWindowsSpan` | crates/maranode-rag/src/chunk.rs:37-77 | There is no window exactly for the empty text; otherwise they begin at its front and end at its end |
| `ChunkText.TextChunksFit` | crates/maranode-rag/src/chunk.rs:37-77 | No chunk is empty, longer than max(size, 1), or has whitespace at an end |
| `ChunkText.TextChunksCover` | crates/maranode-rag/src/chunk.rs:37-77 | Every character that is not whitespace lies in a stretch of the text that is one of the chunks |
| `ChunkText.TextChunksConserve` | crates/maranode-rag/src/chunk.rs:37-77 | Without overlap the chunks in order hold exactly the characters that are not whitespace |
| `ChunkText.TextChunksLoseNothing` | crates/maranode-rag/src/chunk.rs:37-77 | With any size and overlap these characters come in their order, some at most repeated |
| `ChunkText.ChunkWindows` | crates/maranode-rag/src/chunk.rs:54-77 | The loop terminates and yields the trimmed windows that are not blank |
| `ChunkText.Split` | crates/maranode-rag/src/chunk.rs:37-77 | The same with the shortcuts for empty and short texts |
| `ChunkCode.UnitsConserve` | crates/maranode-rag/src/chunk.rs:186-222 | Cutting into units, by braces or by Python definitions, loses only whitespace, and no unit is blank |
| `ChunkCode.BraceDeltaOf` | crates/maranode-rag/src/chunk.rs:160-184 | Counts the braces outside strings and line comments, a backslash in a string skipping the next character |
| `ChunkCode.BraceUnits` | crates/maranode-rag/src/chunk.rs:186-205 | The loop cuts behind lines that end in a brace or semicolon at depth zero |
| `ChunkCode.PythonUnits` | crates/maranode-rag/src/chunk.rs:207-222 | The loop cuts in front of top-level definitions, keeping decorators with what they decorate |
| `ChunkCode.EmitPieces` | crates/maranode-rag/src/chunk.rs:117-125 | A unit that is too long is windowed, each piece with the unit's label |
| `ChunkCode.Split` | crates/maranode-rag/src/chunk.rs:99-142 | The packing loop yields the specified chunks |
| `ChunkCode.CodeChunksFit` | crates/maranode-rag/src/chunk.rs:99-142 | No chunk of code is empty or longer than max(size, 1) |
| `ChunkCode.CodeChunksConserve` | crates/maranode-rag/src/chunk.rs:99-142 | When no unit is too long, or there is no overlap, the chunks in order hold exactly the source's characters that are not whitespace |
| `ChunkCode.CodeChunksLoseNothing` | crates/maranode-rag/src/chunk.rs:99-142 | For every source, size and overlap none of them is lost or out of order; the chunks at most repeat some |
| `CodeCuts.LinesMeaning` | crates/maranode-rag/src/chunk.rs:186-222 | Lines end in a line feed, with the carriage return before it if there is one; what is left at the end is a line unless it is empty |
| `CodeCuts.BraceDeltaMeaning` | crates/maranode-rag/src/chunk.rs:160-184 | The change of depth on a line is the number of its opening minus that of its closing braces, without those in strings, behind backslashes in strings, or in comments |
| `CodeCuts.DepthMeaning` | crates/maranode-rag/src/chunk.rs:186-197 | The depth behind a line is the most that any of the last lines up to there leave open together |
| `CodeCuts.UnitsPlaced` | crates/maranode-rag/src/chunk.rs:186-222 | The units are what lies between the cuts, without blank parts: behind lines that end in a brace or semicolon where no last lines leave a brace open, or in front of a Python definition that no decorator precedes and something not blank does |
| `CodeCuts.ChunksAreGroups` | crates/maranode-rag/src/chunk.rs:99-142 | The chunks are the units in order, each group as long as it can be and under the label of the first unit that has one; a unit that is too long is windowed on its own |
| `Sorting.StableSortIsStable` | crates/maranode-rag/src/store.rs:293-294 | The modelled sort orders, permutes, and keeps equals in their order |
| `Sorting.StableOrderIsUnique` | crates/maranode-rag/src/store.rs:293-294 | Nothing else does: two orderings that agree on all classes of equals are the same |
| `Sorting.StableSortOrder` | crates/maranode-rag/src/store.rs:293-294 | The sort puts the positions in order: each element ranks before those that follow or is their equal and came first |
| `Sorting.SortOfConcat` | crates/maranode-rag/src/engine.rs:262-267 | Sorting a concatenation is merging the sorted parts |
| `Sorting.TakeOfMerge` | crates/maranode-rag/src/engine.rs:262-267 | The first n of a merge need only the first n of each side |
| `Retrieval.Search` | crates/maranode-rag/src/store.rs:230-296 | Fails exactly when an embedding cannot be decoded; otherwise returns id, text and score of the best rows: of equal dimension and at least the minimum score, scores never increasing, equal scores in row order, none left out while there is room or by a lower one |
| `Retrieval.RankedIsBest` | crates/maranode-rag/src/store.rs:293-294 | A cut ranking holds as many as possible, best first, and leaves out nothing better than what it holds |
| `Retrieval.RankedAreBest` | crates/maranode-rag/src/engine.rs:254-267 | The first hits of ranking everything are the best rows, in terms of rows and scores only |
| `Retrieval.MergedTopIsGlobalTop` | crates/maranode-rag/src/engine.rs:254-267 | Ranking and cutting the per-collection bests gives what ranking every hit of every readable collection gives |
| `Retrieval.RetrieveAllCollections` | crates/maranode-rag/src/engine.rs:237-274 | The same over all collections that can be read, equal scores in the order of collections and rows, up to max(k, 1) of them; it is the stable ranking of all qualifying rows |
| `Gguf.WordReads` | crates/maranode-common/src/gguf.rs:44-48 | Reading four bytes gives back the number they were written for, the least significant first |
| `Gguf.LongWordReads` | crates/maranode-common/src/gguf.rs:50-54 | The same for eight bytes |
| `Gguf.Reader.ReadInt` | crates/maranode-common/src/gguf.rs:44-54 | Reads an integer and moves behind it, or fails on a short file |
| `Gguf.Reader.ReadString` | crates/maranode-common/src/gguf.rs:56-68 | Fails for more than 4096 bytes or a short file; otherwise returns the bytes and moves behind them |
| `Gguf.Reader.SkipValue` | crates/maranode-common/src/gguf.rs:71-83 | Stops where the specification says, or fails when it does; terminates on any bytes |
| `Gguf.Reader.SkipArray` | crates/maranode-common/src/gguf.rs:85-96 | The same for nested arrays |
| `Gguf.ReadPairs` | crates/maranode-common/src/gguf.rs:30-41 | The loop over the pairs computes the specified search |
| `Gguf.ReadContextLength` | crates/maranode-common/src/gguf.rs:9-42 | The whole reader on any bytes, wrong magic and versions included |
| `Gguf.SkipsEncoded` | crates/maranode-common/src/gguf.rs:71-96 | Against an encoder written from the format alone: skipping stops exactly at the end of every encoded value of each type, however deeply arrays are nested, and fails exactly when a string in it is over 4096 bytes |
| `Gguf.SearchFindsFirst` | crates/maranode-common/src/gguf.rs:30-41 | On an encoded list with strings of any length the search returns the first u32 under the key, or nothing, and fails exactly when a key or string over 4096 bytes comes before it, or anywhere if there is none |
| `Gguf.ReaderFindsContextLength` | crates/maranode-common/src/gguf.rs:9-42 | In every file that starts with the magic, a version from 1 to 3, the tensor count and a metadata list, as the format lays them out, the reader finds the first context length of type u32, or none, unless a key or string over 4096 bytes comes before it; then, and only then, it fails |
| `Gguf.LongTextHidesContextLength` | crates/maranode-common/src/gguf.rs:62-64 | Files of each version in which a longer text hides a context length |
| `Gguf.OtherFilesHaveNone` | crates/maranode-common/src/gguf.rs:9-20 | A file that does not begin with the four letters or is of version 0 or above 3 has no length to find |
| `Queue.InferenceQueue.constructor` | crates/maranode-inference/src/queue.rs:22-31 | At least one permit, nobody counted |
| `Queue.InferenceQueue.CheckCapacity` | crates/maranode-inference/src/queue.rs:50-63 | Refuses exactly when there is a limit and the counter has reached it, and never at limit zero; counts nothing yet |
| `Queue.InferenceQueue.FetchAdd` | crates/maranode-inference/src/queue.rs:78-79 | The task that passed the check is counted and holds its guard |
| `Queue.InferenceQueue.TryAcquire` | crates/maranode-inference/src/queue.rs:80 | A waiting task gets a permit exactly when one is free |
| `Queue.InferenceQueue.DropPermit` | crates/maranode-inference/src/queue.rs:80-81 | The permit goes back |
| `Queue.InferenceQueue.DropWaitGuard` | crates/maranode-inference/src/queue.rs:66-72 | The guard's drop uncounts the task, after completion or on cancellation |
| `Queue.StepKeepsInv` | crates/maranode-inference/src/queue.rs:50-99 | Each atomic step keeps the counter equal to the live guards and permits plus holders equal to the parallel limit |
| `Queue.RunKeepsInv` | crates/maranode-inference/src/queue.rs:50-99 | The same over every interleaving, cancellations and limit changes included |
| `Queue.QueueCounters` | crates/maranode-inference/src/queue.rs:50-99 | From the start: the counter is exact and never negative, and at most `max_parallel` tasks hold a permit |
| `Queue.WaitingIsBounded` | crates/maranode-inference/src/queue.rs:50-63 | With a fixed nonzero limit and at most T tasks between check and increment the counter never exceeds the limit plus T - 1 |
| `Queue.BoundIsReached` | crates/maranode-inference/src/queue.rs:50-63 | The bound is exact: for every limit and T some run reaches it |
| `Usage.WorkspaceUsage.MemoryBytes` | crates/maranode-api/src/state.rs:115-117 | The sum over all models in use |
| `Usage.WorkspaceUsage.Acquire` | crates/maranode-api/src/state.rs:123-127 | One more request; a known model keeps its recorded size |
| `Usage.WorkspaceUsage.Release` | crates/maranode-api/src/state.rs:129-137 | One less, the model removed with its last request |
| `Usage.WorkspaceUsage.Admit` | crates/maranode-api/src/routes/chat.rs:155-189 | Refuses by the first limit the request would break and changes nothing then; otherwise acquires |
| `Usage.AdmittedIff` | crates/maranode-api/src/routes/chat.rs:155-189 | A request is admitted exactly when the ledger with it is within the request limit and, for a model not in use, within the limits on models and bytes |
| `Usage.AcquireKeeps` | crates/maranode-api/src/routes/chat.rs:155-189 | Admission keeps the ledger exact and the quotas |
| `Usage.ReleaseKeeps` | crates/maranode-api/src/state.rs:129-137 | Dropping a live guard never subtracts from zero and keeps both |
| `Usage.RunKeeps` | crates/maranode-api/src/routes/chat.rs:43-55 | Over every run of admissions and delayed releases of any outstanding guard |
| `Usage.QuotasHold` | crates/maranode-api/src/routes/chat.rs:155-195 | From the start the ledger counts the guards model by model, knows no other model, and the request, model and (by the sizes on record) memory quotas hold |
| `Usage.RecordedIff` | crates/maranode-api/src/state.rs:123-127 | The models and sizes on record are those in use exactly when every outstanding guard has its model's recorded size; then the totals agree |
| `Usage.RecordedKeepsQuota` | crates/maranode-api/src/routes/chat.rs:178-186 | After every run whose outstanding guards have the recorded sizes, the bytes in use are within a quota below the largest 64-bit number |
| `Usage.MemoryQuotaHoldsIff` | crates/maranode-api/src/routes/chat.rs:178-186 | The bytes in use stay within the memory quota in every run in which each model has one size exactly when the quota is below the largest 64-bit number, where the saturating sum cannot exceed it any more |
| `Usage.ThreeModelsPass` | crates/maranode-api/src/routes/chat.rs:178-186 | Three models of the largest file size pass the largest quota |
| `Usage.ReimportedModelPasses` | crates/maranode-api/src/state.rs:123-127 | A model imported again under its name while in use passes every quota: its new size is neither checked nor recorded |
| `RateLimit.RateLimiter.CheckRate` | crates/maranode-api/src/state.rs:281-310 | One request: stale windows pruned over the cap, the key's window opened, counted or replaced, the decision returned |
| `RateLimit.PruningInvisible` | crates/maranode-api/src/state.rs:293-296 | For limits of at least one the limiter with pruning decides every request like one that never prunes |
| `RateLimit.PruningInvisibleIff` | crates/maranode-api/src/state.rs:281-310 | That holds for all runs exactly when the limit is not zero |
| `RateLimit.FewerThanTwiceTheLimit` | crates/maranode-api/src/routes/chat.rs:122-143 | Any key gets at most 2 * limit - 1 requests through in any 60 seconds [t, t + 60), however long the run |
| `RateLimit.BoundIsReached` | crates/maranode-api/src/state.rs:281-310 | For every such limit some run lets through exactly that many |
| `RateLimit.KeepsBoundIff` | crates/maranode-api/src/routes/chat.rs:122-143 | The numbers that bound every run are exactly those from 2 * limit - 1 on, and for the largest 32-bit limit, where the count saturates, there are none |
| `RateLimit.DocumentedLimitIff` | crates/maranode-api/src/state.rs:279-280 | The documented bound, `limit` requests in any 60 seconds, holds in every run exactly when the limit is one |
| `RateLimit.LetThroughIff` | crates/maranode-api/src/state.rs:297-308 | A request is let through exactly when it opens a minute of its key or is among the first `limit` of its minute |
| `RateLimit.LargeTablesAreFresh` | crates/maranode-api/src/state.rs:293-296 | A table with more keys than the cap and one holds only windows opened less than two minutes ago |
| `Unseal.Sealed.CheckDosLimit` | crates/maranode-attestation/src/seal.rs:384-399 | Refuses exactly within a minute of the last failure once five have been counted |
| `Unseal.Sealed.IncrementFailCounter` | crates/maranode-attestation/src/seal.rs:401-409 | One more failure, saturating, stamped with the clock |
| `Unseal.Sealed.Unseal` | crates/maranode-attestation/src/seal.rs:76-97 | A locked or unreadable attempt changes nothing; otherwise success resets the counter and failure counts |
| `Unseal.AttemptsArePaced` | crates/maranode-attestation/src/seal.rs:384-409 | Each backend attempt beyond the fifth costs another minute |
| `Unseal.LockoutBound` | crates/maranode-attestation/src/seal.rs:76-97 | Without a success at most 5 + floor(t / 60) attempts reach the backend in any t seconds |
| `Unseal.LockoutBoundIsReached` | crates/maranode-attestation/src/seal.rs:384-409 | For every t some run reaches that number |
| `Unseal.CounterTells` | crates/maranode-attestation/src/seal.rs:401-409 | The counter is the number of failures since the last success, stamped with the last of them |
| `Unseal.LockedOutIff` | crates/maranode-attestation/src/seal.rs:76-97 | An attempt is locked out exactly when at least five have failed since the last success and it comes less than a minute after the last of these; otherwise metadata and backend decide |
| `Models.ModelStore.ImportBlob` | crates/maranode-store/src/blob.rs:25-59 | Fails, leaving the blobs as they were, exactly when a read fails before the first empty one; otherwise the bytes of all reads before that, in order, are stored under their digest unless a blob is already there, and digest and length are returned |
| `Models.ModelStore.ImportFromFile` | crates/maranode-store/src/store.rs:41-87 | The same, and then a row with this digest and length and the context length found in the blob; a taken name fails but leaves the blob |
| `Models.ModelStore.PullFromUrl` | crates/maranode-store/src/store.rs:161-253 | The same for a download, whose size is that of the stored blob |
| `Models.ContentMeaning` | crates/maranode-store/src/blob.rs:35-43 | Reading fails exactly when a read fails before the first empty one; otherwise byte j of read i stands behind all bytes of the reads before it, and there are no others |
| `Models.DeliversOnce` | crates/maranode-store/src/blob.rs:35-43 | There is only one content of that kind |
| `Models.ModelStore.InsertRow` | crates/maranode-store/src/db.rs:37-61 | Names are unique: a taken one is refused and the table stays as it is |
| `Models.ModelStore.Remove` | crates/maranode-store/src/store.rs:129-157 | Deletes the row, and the blob when no other row names it and the deletion succeeds |
| `Models.ModelStore.BlobPathVerified` | crates/maranode-store/src/store.rs:93-105 | Succeeds exactly when the row exists, its blob is stored and hashes to the row's digest |
| `Models.StepKeepsInv` | crates/maranode-store/src/store.rs:41-157 | Each operation keeps: blobs lie under their digests, rows name stored blobs |
| `Models.RunKeepsInv` | crates/maranode-store/src/store.rs:41-157 | The same over every run |
| `Models.EveryModelVerifies` | crates/maranode-store/src/store.rs:93-105 | After every run of imports, failed imports, pulls and removals every model verifies, and without digest collisions its blob is what was imported under its name |
| `Models.RowDescribesContent` | crates/maranode-store/src/store.rs:52-78 | After every run a model's row names the content that an import or pull of the run delivered under its name, and, without digest collisions, its size is the length of it and its context length what the GGUF reader finds in it |
| `Models.SharedBlob` | crates/maranode-store/src/blob.rs:50-57 | Two models share a blob exactly when what was imported has one digest |
| `Models.RemoveBreaksNoOther` | crates/maranode-store/src/store.rs:129-157 | Removing a model leaves every other row, blob and verification; the blob goes exactly when no other row names it and the deletion succeeds |
| `Models.AddedOrphanIff` | crates/maranode-store/src/store.rs:52-78 | An import into a store without orphans leaves a blob without a row exactly when the name is taken and the blob is new |
| `Models.RemovedOrphanIff` | crates/maranode-store/src/store.rs:142-147 | A removal leaves one exactly when no other row names the blob and the deletion fails |
| `Models.RunTidyIff` | crates/maranode-store/src/store.rs:41-157 | All along a run every blob has a row exactly when no import of new content meets a taken name and no deletion of a blob that lost its last row fails |
| `Models.OrphanStays` | crates/maranode-store/src/store.rs:129-157 | A blob without a row is never deleted; it stays until its content is imported under a free name |
| `Models.TakenNameLeavesOrphan` | crates/maranode-store/src/db.rs:37-61 | A run that imports new content under a taken name leaves an orphan |
| `Models.FailedDeletionLeavesOrphan` | crates/maranode-store/src/store.rs:145-147 | A run whose deletion fails leaves one |
| `Csv.ReadsField` | crates/maranode-audit/src/export.rs:374-380 | An escaped value before a comma or line feed is read back as it was, commas, quotes and line feeds included; a reader that takes CRLF for the end of a line drops a carriage return at the end of a bare last field |
| `Csv.ReadsRow` | crates/maranode-audit/src/export.rs:374-380 | A printed record is read back field by field |
| `Csv.PrintedReadsBack` | crates/maranode-audit/src/export.rs:374-380 | A reader after section 2 of RFC 4180 with records ended by a line feed gives back all printed records |
| `Csv.PrintedReadsBackCrlfIff` | crates/maranode-audit/src/export.rs:374-380 | A reader that also takes CRLF for the end of a line does so exactly when no record's last field is printed bare and ends in a carriage return |
| `CsvExport.PrintedIsEscaped` | crates/maranode-audit/src/export.rs:59-66 | Columns printed without escaping (time, number, category, control, outcome, flag) never need it |
| `CsvExport.LoadEntries` | crates/maranode-audit/src/export.rs:16-39 | The entries of the workspace and time range, in order |
| `CsvExport.Export` | crates/maranode-audit/src/export.rs:42-194 | The four exports print their header and one record per entry |
| `CsvExport.ExportReadsBack` | crates/maranode-audit/src/export.rs:42-194 | Reading any of the four exports gives the header and one record per exported entry, in order, with the original values |
| `CsvExport.ExportReadsBackCrlf` | crates/maranode-audit/src/export.rs:42-194 | A reader that takes CRLF for the end of a line, too, gives back all four exports unchanged, since field values are rendered as JSON, which never ends in a carriage return |
| `CsvExport.ExportReadsBackCrlfIff` | crates/maranode-audit/src/export.rs:42-194 | For any rendering of values it does so exactly when no exported entry's detail is printed bare and ends in a carriage return; for a HIPAA export always |
| `ExportMeaning.FilteredMeaning` | crates/maranode-audit/src/export.rs:16-39 | An export is of exactly the entries of the workspace, if one is given, that are not before the first or after the last time given, in the order of the log |
| `ExportMeaning.DecimalMeaning` | crates/maranode-audit/src/export.rs:59-66 | Numbers are printed in decimal digits without leading zeros, which read back as the number |
| `ExportMeaning.DetailMeaning` | crates/maranode-audit/src/export.rs:49-58 | The detail is name=value for each field, joined by a semicolon and a blank |
| `ExportMeaning.AccessMeaning` | crates/maranode-audit/src/export.rs:83-97 | The access detail is the hash of the prompt or query, if there is one, or the two token counts, zero where there is none |
| `ExportMeaning.RecordMeaning` | crates/maranode-audit/src/export.rs:42-194 | A record holds under each name of its header what the name says; categories, controls, outcomes and the flag are those of the event's kind |
| `ExportMeaning.EscapeIff` | crates/maranode-audit/src/export.rs:374-380 | A value is quoted exactly when it holds a comma, a quote or a line feed |

## Left out

- A crash between sealing a segment and truncating the active file: rotation is one step.
- The zip container, digest and file name of a segment: a stored segment reads back as written.
- File system errors of the audit log, and the missing manifest of a directory that was never rotated (no segments).
- The JSON codec of log lines: a line is the record of one entry, the text of an entry whose event has a clashing key, blank, or cannot be parsed.
- The 64-bit overflow of sequence numbers.
- A clock that goes backwards; the two passes over a closed log (`ClosedSweep`) share one reading, and days are 24 hours.
- Interleaving within an operation: each is one step. Pruning takes no lock; an append while a prune rewrites the file is not modelled, nor is a second process appending to the same log.
- Failures of the tokenizer or of creating a context, their order, timing and the `i32` overflow of positions.
- AuditSchedules.ScheduleSafeIff: the unsafe side needs one entry that stays below the size limit; a limit that every line reaches would seal it before it becomes stale.
- Generation.GenerateSync: needs a prompt of at least one token, which the chat template and the begin token always give.
- Generation.StreamSync: the layer above drops the text of the last token (crates/maranode-api/src/routes/chat.rs:475-479); the result is about the engine.
- ChunkCode.Split: the label of a unit is any function of its text; document splitting by pages and heading detection are not modelled.
- ChunkCode.CodeChunksConserve: equality needs no overlap or no oversized unit, because overlapping windows repeat text; `CodeChunksLoseNothing` covers every case.
- Retrieval.RetrieveAllCollections: scores are real numbers, so not-a-number and the order of the two zeros, where the two sorts of the source differ, are not modelled; rows come in the order the database gives them.
- Gguf.ReadContextLength: positions are unbounded and recursion has no stack limit; keys are compared as bytes.
- Queue.InferenceQueue.TryAcquire: the semaphore's fairness and its closing are not modelled; a streaming call releases its permit when the inner call returns.
- Usage.WorkspaceUsage.Acquire: one workspace; that a model imported again while in use takes room next to the old one is an assumption of `LiveBytes`; the counters' 32-bit overflow without a request limit is not modelled.
- RateLimit.RateLimiter.CheckRate: the table's lock and a clock that goes backwards are not modelled.
- Unseal.Sealed.Unseal: failures to read or write the counter file, concurrent calls and the backends themselves are not modelled.
- Models.ModelStore.PullFromUrl: the HTTP request and the temporary file that a failed download leaves behind are not modelled.
- Models.ModelStore.ImportBlob: temporary files, digest syntax and other columns of a row are not modelled.
- CsvExport.Export: a time stamp is any text that needs no escaping, JSON rendering of strings and other values is any function (for a CRLF reader, one whose texts are not empty and do not end in a carriage return), and fields come in the order given; section 2 of RFC 4180 does not allow a carriage return in a bare field; the readers here do.
- The CEF and LEEF exports, whose lines are not records of RFC 4180.
- EditDistance.DidYouMeanMeaning: lower-casing is any function.
- Legal hold, incident phases, role tables, key rotation, configuration reload, routes and clients: simple checks, or decided by external services and signatures.
