# Verification of cvc-core

A Dafny model of the parts of `cvc-core` whose correctness rests on state, arithmetic or adversarial
text, with proofs of what they promise. `dafny verify dfyconfig.toml` checks all of it.

## What is modelled

**The stimulus encoding** (`Stimulus*.dfy`, from `stimulus.rs`). A writer prints a list of parts as one
text of at most 64 KiB; a strict reader finds the parts again in any text; a rewriter scrubs them one by
one. `StimulusFormat`, `StimulusNotes` and `StimulusGrammar` state the grammar, `StimulusReader` and
`StimulusVerify` the reader, `StimulusBudget` and `StimulusCuts` the two-tier water filling and the cuts,
`StimulusWriter` the writer and `StimulusScanning` what it scans. `StimulusText`, `StimulusStrict`,
`StimulusRoundTrip`, `StimulusExact`, `StimulusBounds`, `StimulusScrub` and `StimulusRedaction` hold the
results that join them.

**The store** (`Store*.dfy`, from `db.rs`). The tables are one value, each transaction a step from one
value to the next (`StoreTables`, `StoreTombstones`, `StoreSharing`, `StoreHarness`, `StoreSteps`). The
class `CvcStore` in `Store` has the transactions as methods that compute aside, statement by statement, and
commit at the end; each is proved to make exactly its step. `StoreEffects` and `StoreRefusals` say what
each step needs, leaves and answers, table by table and without the functions that compute it;
`StoreAuthority` and `StoreRuns` prove what every run of steps keeps.

**Squash recognition** (`Squash*.dfy`, from `squash.rs` and the queue in `db.rs`). The bounded queue of
candidates and its rotation over runs of scans, the walk that discovers candidates, one whole scan, what
each of them leaves exactly (`SquashEffects`), the plan that partitions a range's sources into events, and
the choice of a range.

**Marker-preserving scrubbing** (`MarkedText`, `PolicyStaging`, `PolicyRules`, `PolicyRedaction`,
`KeyBlocks`, `KeyCoverage`, `KeyStaging`, from `privacy.rs`). Redaction markers set aside as placeholders
while policy rules run, what each rule takes and leaves, and the lone private-key blocks that are found,
merged, redacted and looked for again, with what all rounds together leave of a text.

**Canonical encodings and the hook file** (`Order`, `Encoding`, `Identities`, `Changesets`, `Hooks`,
`HookLines`, from `models.rs`, `changeset.rs` and `hooks.rs`).

## Conventions

- A text is the sequence of its UTF-8 bytes, one `char` to a byte; in `MarkedText`, `PolicyStaging`,
  `PolicyRules` and `PolicyRedaction` it is the sequence of its characters, since a placeholder there is a
  character.
- Where a method is proved against a function, lemmas say what the function gives in terms of its inputs
  alone: what is kept, what goes, what changes, and exactly when it fails. These have rows of their own.
- SHA-256, the built-in detectors, compiled policy rules, the line patterns of private keys and the finder
  of redaction markers are function parameters, constrained only by shapes the code relies on: a boundary
  token is `~cvc-` and sixteen lower-case hex digits, a marker has its brackets at its two ends only and
  no NUL, matches come in order and do not overlap, a private-key line begins and ends with a dash, and
  the readers of key lines, from beside a placeholder, stop beside one.
- A step of the store that is refused leaves every table as it was. Captures arrive prepared: what
  preparation made of them is an argument.
- Where code and promise differ, the model follows the code, a lemma names an input, and another says
  exactly when the promise holds:
  - A note with a count of more than eighteen digits is not read back (`StimulusExact.OverlongNote`);
    `StimulusExact.ReadsBackExactlyWhen` is the exact condition.
  - Replacing or deleting the rows of an editor request leaves their share rows behind, so that a row
    stored under the same id later is shared although no grant of it stands
    (`StoreRuns.ReplacementCanShareAPull`: a pull brings back the id the watcher replaced). A step keeps
    the sharing rules if and only if it is clean (`StoreAuthority.StepIsAccounted`): whenever rows go by
    their request, each of their share rows is one a capture of the same replacement would get. Over runs
    the same holds (`StoreRuns.HonouredIffClean`), and the other sharing results are stated for clean runs.
  - The compare-and-set of an exact share accepts a repeated id and then leaves a row out
    (`StoreSharing.RepeatedIdLeavesARowOut`); it covers the conversation if and only if the ids are
    distinct.
  - A batch that lists a child before its tombstoned parent loses the grandparent
    (`StoreHarness.ChildListedFirst`). An inserted row gets the parent it should if and only if no such
    ancestor of it is listed after it, or that parent is not stored by then anyway
    (`StoreHarness.InsertedParent`); with parents first, as a transcript has them, none is
    (`StoreHarness.ParentsFirstAreNotLate`).

## Model

| member | source | states |
|---|---|---|
| StimulusFormat.MarkerExact | cvc-core/src/stimulus.rs:303-365 | the marker scanner accepts exactly the bytes the marker printer writes, with that kind, name, error flag and token, and nothing else |
| StimulusSpelling.MarkersAreSpelled | cvc-core/src/stimulus.rs:303-365 | each kind of marker as it stands in a text |
| StimulusSpelling.BoundaryInputIsExact | cvc-core/src/stimulus.rs:264-300 | what is hashed for a boundary is the same for two stimuli if and only if interaction, kinds of all parts and candidate are |
| StimulusNotes.NoteExact | cvc-core/src/stimulus.rs:387-438 | the note reader finds at a token exactly the notes the three note printers write with counts of at most eighteen digits |
| StimulusReader.CollectMarkers | cvc-core/src/stimulus.rs:509-526 | the left-to-right scan takes every marker of the boundary that does not overlap one taken before |
| StimulusReader.ScanTakesTheParts | cvc-core/src/stimulus.rs:509-526 | on a text of the grammar, whatever its contents hold, the scan takes exactly the markers of its parts |
| StimulusVerify.AcceptedTiles | cvc-core/src/stimulus.rs:528-600 | soundness: what passes the reader's checks tiles the text with markers, contents, separators and the closing note |
| StimulusVerify.LooseIsNote | cvc-core/src/stimulus.rs:528-588 | completeness: in a text of the grammar every boundary no marker explains is a note inside a part, or the closing note |
| StimulusVerify.ClosingReads | cvc-core/src/stimulus.rs:537-556 | completeness: the closing note of a text of the grammar is found, and none where there is none |
| StimulusVerify.Verify | cvc-core/src/stimulus.rs:509-600 | the strict reader succeeds exactly on the texts of the grammar, with the reading the grammar gives |
| StimulusVerify.GrammarIsUnambiguous | cvc-core/src/stimulus.rs:22-49 | a text has at most one reading |
| StimulusVerify.Read | cvc-core/src/stimulus.rs:492-507 | a text reads as verified, legacy or undivided exactly as its one possible reading says |
| StimulusVerify.ReadsExactly | cvc-core/src/stimulus.rs:492-507 | the three answers: a reading just of a text of the grammar, that reading; of any other text undivided just when `~cvc-` and sixteen hex digits occur in it; legacy otherwise |
| StimulusText.PrintedTiles | cvc-core/src/stimulus.rs:870-909 | what the writer prints of any readable parts is tiled by them |
| StimulusText.TiledIsPrinted | cvc-core/src/stimulus.rs:509-600 | a verified reading loses nothing: printing its parts gives back the text byte for byte |
| StimulusStrict.ReadsWhatIsPrinted | cvc-core/src/stimulus.rs:22-49 | a text reads as a reading if and only if it is printed from parts with valid names under one of the 64 boundaries of the interaction and their kinds, where that boundary stands in contents only in truncation notes or as the withheld note alone, and the reading is theirs |
| StimulusBudget.LargestLevel | cvc-core/src/stimulus.rs:992-1020 | the binary search finds the largest level whose total fits, for any monotone total |
| StimulusBudget.Allocate | cvc-core/src/stimulus.rs:1022-1109 | the allocator keeps the longest prefix and gives the allowances of the water levels |
| StimulusBudget.KeptIsLongest | cvc-core/src/stimulus.rs:1030-1046 | no longer prefix of the parts fits even with every part at its floor |
| StimulusBudget.AllocatedIsLongest | cvc-core/src/stimulus.rs:1030-1046 | the allocation keeps the longest prefix of parts that fits at its floors with the closing note it then needs, and one part in any case |
| StimulusBudget.FloorsAdd | cvc-core/src/stimulus.rs:1022-1046 | what one more part adds at its floor: marker, separator, the place of a note, and what it wants up to 256 bytes or all of a withheld note |
| StimulusBudget.WaterLevelsAreFairAndTight | cvc-core/src/stimulus.rs:1047-1109 | every allowance lies between floor and want, no other part shrinks while a tool result is above its floor, and the next level would not fit |
| StimulusBudget.AllocationIsFairAndTight | cvc-core/src/stimulus.rs:1022-1109 | overheads, notes and allowances together stay within the budget, shared fairly and tightly |
| StimulusBounds.SlotIsWhatIsPrinted | cvc-core/src/stimulus.rs:961-988 | a part asks for what it takes up under any boundary: its marker, and its withheld note, or its scrubbed text, a tool result for no more than 8 KiB |
| StimulusCuts.HeadEnd | cvc-core/src/stimulus.rs:1113-1128 | the end of a head: the last place within the limit that splits neither a character nor a marker |
| StimulusCuts.TailStart | cvc-core/src/stimulus.rs:1136-1151 | the start of a tail: the first place from there on that splits neither |
| StimulusCuts.FittedBounds | cvc-core/src/stimulus.rs:1153-1175 | a text within its allowance is whole; a cut keeps a prefix and a suffix, each the longest that fits its share (three quarters and the rest for a tool result, all for the head of anything else), and its count is exactly the bytes removed |
| StimulusWriter.Prepare | cvc-core/src/stimulus.rs:806-835 | a part is scrubbed within what is left to scan or withheld, and what it costs is charged; when exactly is in StimulusScanning.PreparedExactly |
| StimulusScanning.PreparedExactly | cvc-core/src/stimulus.rs:728-835 | a part keeps what the scrubber makes of its text if and only if that scrubs clean and is no longer than what the parts scanned before it, persons first, leave of 8 MiB; otherwise it is withheld |
| StimulusScanning.ScannedIsUnique | cvc-core/src/stimulus.rs:728-835 | which parts are scanned is determined by the texts, their kinds and the scrubber |
| StimulusWriter.PersonsComeFirst | cvc-core/src/stimulus.rs:728-741 | what a person wrote is prepared as if nothing else were there: with the same outcome as among the parts of persons alone |
| StimulusWriter.Assemble | cvc-core/src/stimulus.rs:870-909 | the marked text is the printed form of the shown items and the closing note |
| StimulusWriter.AssembleUndivided | cvc-core/src/stimulus.rs:911-939 | the text without markers, with its own notes; what it shows is in StimulusExact.UndividedShowsAll |
| StimulusWriter.ChooseBoundary | cvc-core/src/stimulus.rs:755-775 | the first of the 64 candidates that occurs in no shown content or name, or none |
| StimulusWriter.Render | cvc-core/src/stimulus.rs:719-792 | the whole writer computes the specified rendering, of which the round trip and the exact results below speak |
| StimulusRoundTrip.ContentTextReads | cvc-core/src/stimulus.rs:870-909 | a printed content, cut or whole, is one the reader accepts under the chosen boundary |
| StimulusRoundTrip.RoundTrip | cvc-core/src/stimulus.rs:719-792 | reading what was written under a free boundary gives back the kept parts in order, with kind, name, error flag, content, the bytes removed from each, and the number left out; each content is its scrubbed text, cut by its allowance of the budget, or the withheld note exactly when its text was not clean or not within what was left to scan |
| StimulusRoundTrip.WithheldExactlyWhen | cvc-core/src/stimulus.rs:728-835 | a kept part is the withheld note if and only if its text does not scrub clean or is longer than 8 MiB less the lengths of the parts scanned before it |
| StimulusRoundTrip.WithinTheLimitOnlyRefusedAreWithheld | cvc-core/src/stimulus.rs:806-835 | of texts of at most 8 MiB together exactly those that do not scrub clean are withheld |
| StimulusExact.UnmarkedReadsUndivided | cvc-core/src/stimulus.rs:911-939 | with no free candidate the text reads as undivided |
| StimulusExact.FirstFreeMarks | cvc-core/src/stimulus.rs:755-792 | the boundary is the first of the 64 candidates that occurs in no shown name, content, head or tail, and the parts go unmarked exactly when all of them do |
| StimulusExact.UndividedShowsAll | cvc-core/src/stimulus.rs:911-939 | unmarked, the text is its heading, each content in order, whole or cut with its note, and the number left out, and nothing else |
| StimulusExact.NoPartsAreSaid | cvc-core/src/stimulus.rs:719-728 | no parts are written as the text that says so |
| StimulusExact.OverlongNote | cvc-core/src/stimulus.rs:387-397 | a note whose count has more than eighteen digits is no note to the reader |
| StimulusExact.ReadsBackExactlyWhen | cvc-core/src/stimulus.rs:492-600 | a rendered stimulus reads back if and only if a candidate was free and no count is that long; otherwise it reads undivided, and no parts read as legacy |
| StimulusExact.FreeBoundaryIsEnough | cvc-core/src/stimulus.rs:492-792 | for fewer than 10^18 parts with scrubbed texts shorter than 10^18 bytes it reads back, as the kept parts, exactly when a candidate was free |
| StimulusExact.TooManyPartsReadUndivided | cvc-core/src/stimulus.rs:387-397 | with 10^18 parts or more left out it reads undivided, whatever they are |
| StimulusBounds.SizeBound | cvc-core/src/stimulus.rs:1022-1109 | every rendered stimulus, marked or undivided, is at most 65536 bytes |
| StimulusBounds.ScrubbedBelowFits | cvc-core/src/stimulus.rs:1022-1109 | so is every rendering of fewer than 10^14 parts with scrubbed texts shorter than 10^14 bytes |
| StimulusScrub.ScrubStimulus | cvc-core/src/stimulus.rs:617-690 | the part-by-part rewriter computes the specified scrubbed stimulus, of which StimulusRedaction says what it redacts, and scrubs anything else whole |
| StimulusRedaction.StimulusIsRedacted | cvc-core/src/stimulus.rs:617-690 | under a scrubber that never introduces the boundary the rewritten stimulus reads back part by part: each content redacted as below, and a tool name kept if and only if the scrubber leaves it alone |
| StimulusRedaction.ContentIsRedacted | cvc-core/src/stimulus.rs:663-690 | each non-empty stretch between the notes of a content becomes the text the scrubber gives for it, around the same notes; the content becomes the withheld note if and only if some such stretch does not scrub clean, or it was that note before |
| StimulusRedaction.PlainIsRedacted | cvc-core/src/stimulus.rs:663-690 | a content without boundary becomes what the scrubber makes of it, and the withheld note exactly when it is not empty and does not scrub clean |
| StimulusScrub.ScrubbedReads | cvc-core/src/stimulus.rs:663-690 | a scrubbed content is one the reader accepts, when scrubbing a text without the boundary brings none in |
| StimulusScrub.ScrubKeepsStructure | cvc-core/src/stimulus.rs:617-690 | scrubbed by anything that never introduces the boundary, such as a scrubber that changes nothing, a verified stimulus verifies again with the same boundary, kinds, error flags and number left out |
| StimulusScrub.GapHasNoToken | cvc-core/src/stimulus.rs:663-690 | between the notes the rewriter keeps, a content the reader accepts holds no boundary |
| StimulusScrub.ScrubbingNothingChangesNothing | cvc-core/src/stimulus.rs:628-690 | where nothing needs redacting the text comes back byte for byte |
| StoreTables.InsertAllStores | cvc-core/src/db.rs:1392-1444 | a batch that is stored is stored whole, under ids that were free, and nothing else is |
| StoreTables.InsertAllGrows | cvc-core/src/db.rs:1425-1432 | insertions keep stored rows and give share rows only to new rows, exactly those of a source that inherits while its conversation's future sharing is on |
| StoreTombstones.RemovedEvents | cvc-core/src/db.rs:1575-1609 | the in-place loop over rows in any order ends with the cascade |
| StoreTombstones.CascadeIsLeast | cvc-core/src/db.rs:1575-1609 | the cascade is the least set holding the target's events and those citing its legacy links, closed under citation |
| StoreTombstones.SeedIs | cvc-core/src/db.rs:1575-1590 | a tombstone removes outright the events of its target and those citing one of its legacy links |
| StoreTombstones.NoSurvivorCitesARemovedEvent | cvc-core/src/db.rs:1575-1623 | no surviving event cites a removed one, and an event survives exactly when some closed set leaves it out |
| StoreTombstones.TombstonesBury | cvc-core/src/db.rs:1535-1642 | what a batch of tombstones removes, and that every other row, share and publication stays; the events that go are the least set holding those of its targets and those citing their legacy links, closed under citation; children lose only that parent |
| StoreTombstones.CascadesJoin | cvc-core/src/db.rs:1541-1642 | the cascades of two batches in turn are the cascade of both together |
| StoreTombstones.TombstonesStay | cvc-core/src/db.rs:1541-1569 | afterwards each target has a tombstone of that scope, and no other tombstone came or went |
| StoreHarness.WalkUp | cvc-core/src/db.rs:1310-1316 | the bounded walk over skipped ancestors takes as many steps as there are skipped ids, and one |
| StoreHarness.WalkFindsTheNearest | cvc-core/src/db.rs:1310-1316 | the bounded walk ends at the nearest ancestor not skipped if and only if the chain is not circular |
| StoreHarness.BatchIsAccountedFor | cvc-core/src/db.rs:1266-1340 | inserted, suppressed and lost add up to the batch, and withheld are among the inserted |
| StoreHarness.RepeatInsertsNothing | cvc-core/src/db.rs:1254-1341 | the same batch again inserts and withholds nothing and changes no row, only the cursor |
| StoreHarness.InsertedParent | cvc-core/src/db.rs:1294-1323 | an inserted row is the capture with the nearest ancestor the batch does not skip as its parent, if that is stored by then, and none otherwise, if and only if no skipped ancestor is listed late, that is tombstoned, not lost and after the capture, or that parent is not stored by then anyway; with a late one it has no parent |
| StoreHarness.ParentsFirstAreNotLate | cvc-core/src/db.rs:1294-1323 | with parents before children no ancestor is late |
| StoreHarness.ChildListedFirst | cvc-core/src/db.rs:1294-1323 | a child listed before its tombstoned parent loses the grandparent it would have had |
| StoreSharing.ExactSnapshotCoversIffDistinct | cvc-core/src/db.rs:2770-2803 | a successful compare-and-set covers exactly the conversation's rows if and only if its ids are distinct |
| StoreSharing.AfterExactSnapshot | cvc-core/src/db.rs:2770-2934 | after it nothing is left to share exactly when every row it did not name was shared before |
| StoreSharing.SummaryCounts | cvc-core/src/db.rs:515-539 | the counts of a conversation: its rows shared there or anywhere, of these the ones published there, and the ones pending or unknown |
| StoreSharing.ProjectedExactly | cvc-core/src/db.rs:2937-2952 | a push may send a stored row shared with the destination or with all unless its publication there is unknown |
| StoreSharing.RepeatedIdLeavesARowOut | cvc-core/src/db.rs:2770-2803 | one id given twice for two rows passes and leaves one row unshared |
| StoreSharing.SummariesAddUp | cvc-core/src/db.rs:515-539 | over all conversations, the summaries' shared, published and unconfirmed counts add up to the destination's totals |
| StoreSharing.MarkOneMore | cvc-core/src/db.rs:2956-2981 | marking ids one after another, repeated or not, marks the set of them |
| StoreSteps.ReachableIsSound | cvc-core/src/db.rs:1392-1642 | in every reachable state a locally tombstoned interaction is absent and every parent and conversation named is stored |
| StoreEffects.StepIsExact | cvc-core/src/db.rs:969-3008 | each transaction is taken if and only if its stated condition holds, row by row, and then leaves every table exactly as stated; a refused one changes nothing |
| StoreEffects.BuriedExactlyWhen | cvc-core/src/db.rs:1541-1569 | a batch of tombstones is applied if and only if each is of the known format and agrees with the one stored for its target and with those before it; a stored one is confirmed, a new one is the first for its target |
| StoreEffects.PulledExactlyWhen | cvc-core/src/db.rs:969-1084 | the captures of a pull are stored, as imports, if and only if each that no tombstone stops has a free id and a stored parent, and then exactly these are |
| StoreEffects.RelatedExactlyWhen | cvc-core/src/db.rs:969-1084 | the events of a pull are stored if and only if each that no tombstone stops checks and has the payload of its key; a stored event stays, a new one is the first of its key |
| StoreEffects.IngestsExactly | cvc-core/src/db.rs:1254-1341 | an ingest is refused only for its cursor; it stores exactly the captures not lost, tombstoned or stored before, and its counts are theirs |
| StoreRefusals.RefusalIsExact | cvc-core/src/db.rs:969-3008 | a refused transaction answers what is wrong with the first tombstone, capture or event that cannot be taken |
| StoreAuthority.StepIsAccounted | cvc-core/src/db.rs:1425-1432 | a transaction leaves shared exactly what it grants and what was shared and is not revoked, and no stray share row, if and only if every share row of a row deleted by its request is one a capture of the same replacement would get |
| StoreRuns.FuturesExact | cvc-core/src/db.rs:2737-2820 | after a step future sharing is as asked where an accepted share or unshare names it, and as before everywhere else |
| StoreRuns.FutureIffAsked | cvc-core/src/db.rs:2737-2820 | over a run future sharing is on for a conversation and destination if and only if the last accepted share or unshare naming both was a share that asked for it |
| StoreRuns.SharedIffGranted | cvc-core/src/db.rs:2737-2820 | over any clean run a stored row is shared if and only if some step granted it and none since revoked it |
| StoreRuns.SharingAuthority | cvc-core/src/models.rs:649-658 | a share comes from an explicit share naming the row's conversation, or from a source that inherits, captured when the last decision naming conversation and destination was a share that asked for the future; MCP and unknown sources only from the first |
| StoreRuns.HonouredIffClean | cvc-core/src/db.rs:1151-1208 | over a run, stored rows are shared throughout exactly by the grants that stand, whatever is recorded next included, if and only if every such deletion is clean |
| StoreRuns.ReplacementCanShareAPull | cvc-core/src/db.rs:1151-1208 | a run in which a pulled row is shared though no grant of it stands: the watcher replaced the shared segment of that id |
| StoreRuns.McpStaysPrivateIff | cvc-core/src/db.rs:1425-1432 | there is no stray share row if and only if no thought that could be recorded through MCP would be shared by it |
| StoreRuns.UnshareHolds | cvc-core/src/db.rs:2805-2952 | after an unshare, until a later share, what is projected of the conversation is exactly what wildcard shares cover |
| StoreRuns.PublishedStays | cvc-core/src/db.rs:2956-3008 | until a tombstone names it, a published pair stays published with its first timestamp through every step, and stays shared |
| Store.CvcStore.Capture | cvc-core/src/db.rs:1095-1105 | the transaction makes exactly its step or is refused with its reason and changes nothing; what the step needs and leaves is in StoreEffects and StoreRefusals, what runs keep in StoreSteps, StoreAuthority and StoreRuns |
| Store.CvcStore.ReplaceBatch | cvc-core/src/db.rs:1151-1208 | replacing a request's rows makes exactly its step or nothing |
| Store.CvcStore.DeleteByRequest | cvc-core/src/db.rs:1736-1771 | deleting a request's rows makes exactly its step or nothing; what the step may leave behind is in StoreAuthority.StepIsAccounted |
| Store.CvcStore.ImportSyncBatch | cvc-core/src/db.rs:969-1084 | a pull is one step: tombstones, admitted captures, events and publications, or nothing |
| Store.CvcStore.CaptureClaudeCodeBatch | cvc-core/src/db.rs:1254-1341 | the ingest is one step with the counts of its outcome |
| Store.CvcStore.EntombAll | cvc-core/src/db.rs:1520-1642 | a batch of tombstones is one step, or is refused whole on a conflict |
| Store.CvcStore.ShareConversation | cvc-core/src/db.rs:2737-2750 | every row of the conversation is shared and the future decision recorded; what that grants is in StoreRuns.SharedIffGranted |
| Store.CvcStore.ShareExactSnapshot | cvc-core/src/db.rs:2770-2803 | shares exactly the given rows and records the future decision as asked, or refuses and changes nothing; what that leaves is in StoreEffects.StepIsExact and StoreRuns.FuturesExact |
| Store.CvcStore.UnshareConversation | cvc-core/src/db.rs:2805-2820 | refused exactly when a row has a publication there; what holds afterwards is in StoreRuns.UnshareHolds |
| Store.CvcStore.MarkPublication | cvc-core/src/db.rs:2956-2981 | marks every id, never moving a published one |
| Store.CvcStore.ClearUncertainPublications | cvc-core/src/db.rs:3001-3008 | removes the uncertain publications of the ids and no published one |
| SquashQueue.PruneKeepsTheNewest | cvc-core/src/db.rs:2245 | at most 512 resolved rows stay, the newest ones, and every pending one |
| SquashEffects.PruneIsExact | cvc-core/src/db.rs:2245 | every pending row stays, and of the others exactly the newest 512, or all when there are no more |
| SquashQueue.AddRecords | cvc-core/src/db.rs:2239-2243 | an unknown candidate is recorded at its first place in the list, pending or unsupported |
| SquashQueue.ListPending | cvc-core/src/db.rs:2250-2263 | the list of a scan: the pending targets least recently attempted, earlier ones first, at most 128 |
| SquashQueue.Branch.Discover | cvc-core/src/db.rs:2213-2248 | candidates and cursor are recorded together or not at all, within capacity |
| SquashEffects.DiscoverIsExact | cvc-core/src/db.rs:2213-2248 | recording is refused exactly when the cursor has moved or there is no room for all candidates not known; otherwise the cursor advances and each such candidate is there, numbered after the largest in the order of the list, and pruning follows |
| SquashQueue.Branch.Mark | cvc-core/src/db.rs:2265-2273 | an attempt puts a pending target behind all others |
| SquashEffects.MarkIsExact | cvc-core/src/db.rs:2265-2273 | an attempt of a pending target counts one more and comes one after the latest attempt of any; nothing else changes |
| SquashEffects.MatchIsExact | cvc-core/src/db.rs:2442-2443 | a match makes the target pending no more, and prunes |
| SquashRotation.ReachableIsBounded | cvc-core/src/db.rs:2213-2248 | in every reachable state at most 4096 rows are pending and 512 resolved |
| SquashRotation.Rotation | cvc-core/src/db.rs:2250-2273 | between two attempts of one target every other target pending throughout is attempted, however scans stop and whatever arrives |
| SquashRotation.RotationWithoutArrivals | cvc-core/src/squash.rs:630-677 | without arrivals it is enough that both are pending at the second attempt |
| SquashDiscovery.Candidates | cvc-core/src/squash.rs:562-614 | a missing commit on the way is an error; within 128 first-parent steps of the cursor exactly the path since, oldest first; otherwise at most HEAD |
| SquashDiscovery.PathsJoin | cvc-core/src/squash.rs:562-614 | discoveries that meet at a cursor record together what one over both would, nothing twice and nothing missed |
| SquashDiscovery.Scan | cvc-core/src/squash.rs:549-682 | a whole scan, wherever it stops, is a run of the scanner the rotation result speaks of, opens against the cursor it read, and fails before that exactly when a commit of the walk is missing |
| SquashDiscovery.DoneAttemptsAll | cvc-core/src/squash.rs:630-682 | a scan that ends as it should has attempted its whole list and counts the events of every relinked target; one cut short says where |
| SquashEffects.EachTargetInTurn | cvc-core/src/squash.rs:630-682 | the targets of the list are attempted in its order, each resolved right after its attempt if its verdict says so, and nothing after the last |
| SquashPlan.Build | cvc-core/src/squash.rs:172-205 | one event for each interaction, citing all of its sources |
| SquashPlan.PlanIsInOrder | cvc-core/src/squash.rs:172-205 | the events come in ascending order of their interactions |
| SquashPlan.Validate | cvc-core/src/squash.rs:220-267 | the check after building accepts exactly the partitions of the sources |
| SquashPlan.Accepts | cvc-core/src/db.rs:2339-2421 | the checks in the transaction accept exactly the events with matching sets and ownership |
| SquashPlan.AcceptedIff | cvc-core/src/db.rs:2339-2421 | for sources as the store lists them the checks in the transaction accept exactly events that cite every source and nothing else, each its sources in ascending order, with snapshots that say what they are filed as |
| SquashPlan.PlanIsAccepted | cvc-core/src/squash.rs:132-267 | for sources as the store lists them the built plan passes the check after building, passes the checks in the transaction if and only if every snapshot says what it is filed as, and cites each source by exactly one event |
| SquashPlan.SelectRelinkRange | cvc-core/src/squash.rs:505-520 | the chosen range, or none when claims differ |
| SquashPlan.ChosenIffAgreed | cvc-core/src/squash.rs:474-520 | a range is chosen exactly when there are some and no two differ in object format, base, tip, trees, algorithm, digest or commits; it has the most sources, and of those the lowest id |
| SquashPlan.BestIsBest | cvc-core/src/squash.rs:505-520 | no candidate beats the chosen one: most sources, then lowest id |
| SquashPlan.ChoiceIgnoresOrder | cvc-core/src/squash.rs:474-520 | the choice is the same for every order of ranges with distinct ids |
| MarkedText.ParseOfPrint | cvc-core/src/privacy.rs:1027-1058 | text with markers in place, read again, gives the same text between markers and the same markers |
| MarkedText.ParseIsClean | cvc-core/src/privacy.rs:1050-1058 | the text between the markers found holds no marker |
| PolicyStaging.Staged.constructor | cvc-core/src/privacy.rs:2080-2112 | staging holds exactly the markers found and the text between them, as many placeholders as markers |
| PolicyStaging.Staged.Replace | cvc-core/src/privacy.rs:2121-2153 | each range becomes one new marker; every other character and marker stays, in order |
| PolicyStaging.Staged.Finish | cvc-core/src/privacy.rs:2156-2171 | finishing never fails and puts every marker back in its place |
| PolicyStaging.ReplacedIsClean | cvc-core/src/privacy.rs:2121-2153 | a replacement makes no new marker out of the text around it |
| PolicyStaging.ReplacedOccursBefore | cvc-core/src/privacy.rs:2121-2153 | a replacement brings no word between markers that was not there before |
| PolicyRules.FindAll | cvc-core/src/privacy.rs:2031-2045 | all occurrences a replacement from left to right takes, each searched for after the one before; nothing exactly when they are over the limit |
| PolicyRules.LiteralIsGone | cvc-core/src/privacy.rs:2031-2045 | once its occurrences are replaced a literal does not occur between markers |
| PolicyRules.TextMatches | cvc-core/src/privacy.rs:2046-2059 | the matches of a compiled rule that hold something other than markers; nothing exactly when they are over the limit; what becomes of them is in PolicyRedaction.MatchedCharsGo |
| PolicyRules.RulesLeaveNoLiteral | cvc-core/src/privacy.rs:2019-2062 | after all rules no literal rule occurs between the markers of the finished text, and staging that text again gives the same gaps and markers |
| PolicyRules.NothingToRedact | cvc-core/src/privacy.rs:2019-2062 | without compiled rules a text free of literals is unchanged |
| PolicyRules.Policy.Scrub | cvc-core/src/privacy.rs:2019-2062 | the outcome is what the rules in turn make of the text, an error over 256 matches; it is refused for want of a placeholder exactly when every private-use character is taken; what the rules make of a text is in PolicyRedaction.RuledExactly |
| PolicyRedaction.RuledExactly | cvc-core/src/privacy.rs:2019-2062 | the rules in turn take what they find in one way only: a literal its occurrences, none starting between two taken, a compiled rule exactly its matches, in the text with placeholders for markers, that hold a character; each taken range becomes the next new marker; the result is the text so left, or an error exactly when more than 256 are taken in all |
| PolicyRedaction.MatchedCharsGo | cvc-core/src/privacy.rs:2046-2059 | after a compiled rule every character inside one of its matches is gone, and every other stays, in order |
| PolicyRedaction.PlaceholderExactly | cvc-core/src/privacy.rs:2080-2112 | the placeholder is the first private-use character in no rule and not in the text, and there is none exactly when each is in one of them |
| PolicyRules.Policy.LiteralsTwice | cvc-core/src/privacy.rs:2019-2062 | the literal rules are idempotent |
| KeyBlocks.LongTokens | cvc-core/src/privacy.rs:1609-1631 | exactly the qualifying maximal runs, ascending and apart |
| KeyCoverage.TokenExactly | cvc-core/src/privacy.rs:1609-1631 | a long token is a maximal run of letters, digits, plus, slash and equals signs of at least 40, three quarters of them letters and digits, and some not hexadecimal |
| KeyBlocks.LastTokenEndAfter | cvc-core/src/privacy.rs:1635-1640 | the binary searches give the last token in the window, as a search through all would |
| KeyBlocks.FirstTokenStartBefore | cvc-core/src/privacy.rs:1644-1649 | the binary searches give the first token in the window, as a search through all would |
| KeyBlocks.OrphanRegions | cvc-core/src/privacy.rs:1652-1686 | merged regions are in order, apart, and cover exactly what the regions found cover |
| KeyCoverage.RegionsCoverExactly | cvc-core/src/privacy.rs:1652-1686 | a byte is covered if and only if it stands from a header on within its key lines, or else up to a long token at most 4096 bytes after it, or likewise before a footer |
| KeyBlocks.OutsideIsKept | cvc-core/src/privacy.rs:1707-1728 | redaction keeps every byte outside the regions, moved only by what the redactions before it change |
| KeyBlocks.OrphanReplace | cvc-core/src/privacy.rs:1707-1728 | nothing is replaced exactly when no lone line has key material; otherwise the merged regions, of which there is one choice, become markers, or are refused when there are more than 256 |
| KeyBlocks.MergeIsUnique | cvc-core/src/privacy.rs:1677-1686 | what the regions cover determines how they are merged |
| KeyBlocks.SettleOrphanBlocks | cvc-core/src/privacy.rs:1747-1760 | the result is where at most eight rounds lead; a settled text is a fixpoint, and a fixpoint is left as it is |
| KeyCoverage.SettledIff | cvc-core/src/privacy.rs:1707-1760 | a text is settled if and only if it does not name a private key, with its markers or without, or no lone line of it has key lines or a long token in reach |
| KeyBlocks.SettlesToOne | cvc-core/src/privacy.rs:1747-1760 | the rounds lead to one result |
| KeyBlocks.SettleTwice | cvc-core/src/privacy.rs:1747-1760 | settling is idempotent |
| KeyStaging.RestoredRedaction | cvc-core/src/privacy.rs:1764-1790 | redacting regions of a staged text and restoring its markers replaces those characters and markers of the text by new markers, and nothing else |
| KeyStaging.RegionAroundHoles | cvc-core/src/privacy.rs:1652-1686 | no region found begins or ends inside a placeholder, long tokens included, among fewer than 10^36 characters and markers |
| KeyStaging.HoleHoldsATokenIff | cvc-core/src/privacy.rs:1609-1631 | a placeholder is itself taken for a long token if and only if its number is 10^36 or more |
| KeyStaging.SettledByRounds | cvc-core/src/privacy.rs:1747-1790 | settling is at most seven rounds over the text as characters and markers, each replacing exactly what the regions found take |
| KeyStaging.OutsideIsKept | cvc-core/src/privacy.rs:1707-1760 | over all rounds together every character and marker outside the regions is kept, and their order |
| KeyStaging.OnlyMarkersAreNew | cvc-core/src/privacy.rs:1707-1760 | the rounds bring in nothing but markers |
| Encoding.FieldComesOff | cvc-core/src/models.rs:61-65 | a tagged, length-prefixed field can be read back in one way only, whatever follows it |
| Order.CanonicalIffSameSet | cvc-core/src/models.rs:277-279 | sorted and deduplicated lists agree exactly when they hold the same texts |
| Identities.EventEncodingIsExact | cvc-core/src/models.rs:234-292 | two events are encoded alike if and only if all fields but the id agree, sources as sets |
| Identities.RangeEncodingIsExact | cvc-core/src/models.rs:58-86 | two ranges are encoded alike if and only if all fields but the id agree |
| Changesets.MaterialIsExact | cvc-core/src/changeset.rs:171-193 | two lists of records are encoded alike if and only if they hold the same records as often, in any order |
| Changesets.Identify | cvc-core/src/changeset.rs:86-193 | the length reported is the true length, and nothing comes out over 64 MiB |
| Hooks.ReplaceMarkedBlocks | cvc-core/src/hooks.rs:303-330 | the line loop computes the specified replacement, none without a begin marker, an error on an unclosed block |
| Hooks.ReplacementIsExact | cvc-core/src/hooks.rs:303-330 | every line outside blocks stays byte for byte and in order, and one block is left, the current one |
| Hooks.ReplacingAgain | cvc-core/src/hooks.rs:303-330 | replacing is idempotent |
| Hooks.Install | cvc-core/src/hooks.rs:334-427 | what installing `post-checkout` writes, by cases of the file found; what that leaves of the file is in HookLines |
| HookLines.InstallingIsExact | cvc-core/src/hooks.rs:303-427 | refused exactly when a begin marker has no end marker after it; otherwise the lines before the first block stay, the block follows, and of the rest exactly the lines outside blocks; a script without a marker is followed by the block if the shell test accepts it and it does not hold the block, and else unchanged, as a binary file is; an absent file becomes the shebang and the block |
| HookLines.OneBlockStands | cvc-core/src/hooks.rs:303-427 | wherever the block was written it is the one block found afterwards, and the lines outside are those that stood outside before, in order |
| HookLines.MarkerLines | cvc-core/src/hooks.rs:303-330 | a line begins a block if it starts with the begin marker, and ends one if it is the end marker and line ends alone |
| Hooks.InstallingTwice | cvc-core/src/hooks.rs:334-427 | a second installation leaves the file of the first unchanged |

## Left out

- SQLite itself: SQL text, migrations, the WAL, locks and retries. A transaction is one step.
- The visibility column, conversation titles, context items, tool executions, artifact links and stored
  ranges, and with them the pulls that are refused for a conflicting link or range. Derivation
  authorizations and observations go and come with their events.
- `adopt_destination_fingerprint`, a rename between two fingerprints, is not a step of the runs.
- A limit on how many summaries are listed: `SummariesAddUp` adds up all of them.
- Preparation of captures, beyond its outcome; `privacy::scrub` and its detectors, beyond their shapes.
- libgit2: a commit graph is a map from ids to parents; an abort that strikes before a scan's discovery
  is recorded, and changesets computed during an attempt, are not modelled.
- `apply_squash_plan` beyond its set and ownership checks and its effect on the queue: the cursor, HEAD and
  payload comparisons are equalities with nothing to prove, and events are stored as a pull stores them.
- The diff a changeset is made of, with its limits on deltas and paths; hashing.
- The run patterns of private-key lines (`key_run_end`, `key_run_start`): uninterpreted, as are the line
  patterns.
- The text of the managed hook block (only its marker lines matter), file permissions, and the upgrade of
  old one-line hooks of the other hook names.
- Concurrency of two scans on one branch: a run is one scan after another, each of which may stop anywhere.
- `rewrite.rs`, `linker.rs`, `git.rs`, `vscode.rs`, `repository.rs` and the front ends.
- StimulusRoundTrip.RoundTrip: for parts whose counts have at most eighteen digits, because the reader
  takes no longer ones: exactly then, by StimulusExact.ReadsBackExactlyWhen, and always for texts a
  computer holds, by StimulusExact.FreeBoundaryIsEnough.
- StimulusBounds.SizeBound: for cuts of fewer than 10^14 bytes and fewer than 10^19 parts, because the
  64-byte reserves hold no longer counts; StimulusBounds.ScrubbedBelowFits says it of the parts.
- StoreRuns.SharedIffGranted: for clean runs, because the code breaks the rule otherwise: exactly then, by
  StoreRuns.HonouredIffClean. SharingAuthority and UnshareHolds likewise.
- StoreEffects.StepIsExact: for tables in which no locally tombstoned row is stored and every parent is, as in
  every reachable state (StoreSteps.ReachableIsSound).
- StimulusRedaction.StimulusIsRedacted: for scrubbers that bring no boundary into a text without it, because the
  result does not verify otherwise; what the rewriter does under any other is ScrubStimulus itself.
- StoreHarness.InsertedParent: for batches in which captures of one id name the same parent, and chains of
  skipped ancestors that end, because a circular one has no nearest ancestor.
- KeyStaging.SettledByRounds: for texts without NUL, because a text may otherwise spell a placeholder, and
  of fewer than 10^36 characters and markers, because a higher placeholder is itself a long token.
- Identities.EventEncodingIsExact: for lengths and counts below 2^64, the width they are written with.
