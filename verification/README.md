# Verification model of the yach backend

Dafny proofs about six stateful or arithmetic parts of `yach-backend`:

* **Edit transactions** (`Hunks`, `Paths`, `Disks`, `EditTypes`, `EditResolve`, `EditStage`, `EditProtocol`,
  `EditErrors`, `EditApply`, `EditPreview`): preview and apply of hash-checked edits on an explicit disk of names and
  inodes, with the primitives create-new, hard link, rename and remove, and a fault plan that may fail any I/O step.
* **Session compaction** (`SessionLog`, `Compaction`, `CompactionRun`, `Masking`, `Context`, `MaskedCompaction`): cuts,
  checkpoints, masks and token estimates over an append-only log, and masking and compaction together.
* **Extension tools** (`Tools`, `Bundles`, `Manifest`, `Registration`): the tool registry and its replacement resolver,
  the loop that drops failed replacement bundles, the tool, bundle and reviewer part of manifests, and the registration
  handshake.
* **Calendar** (`Calendar`, `Decimals`, `HttpDate`): two independently written date conversions against plain day counting,
  IMF-fixdate (section 5.6.7 of RFC 9110) and Retry-After (section 10.2.3 of RFC 9110).
* **Provider stream buffer** (`StreamBuffer`).
* **Approvals** (`EditAccess`, `Permission`): pending previews, evidence written ahead, freshness, restrictions.

`dafny verify dfyconfig.toml` checks everything.

## How the model is set up

A text is the sequence of its UTF-8 bytes, one `char` per byte, so that the source's byte lengths and byte-offset
slices are lengths and slices here; a valid UTF-8 find text starts on a character boundary (`StartsOnBoundary`), and
such a text occurs only at character boundaries, where the source looks for it.

Code that updates state is written as classes and methods with loops (`FileSystem`, `BoundedBuffer`, `Access`,
`Registry`, and the loops of staging, publishing, rollback, cleanup, the budget walk, masking, bundle dropping), each
proved equal to a specification function or to an exact description of the new state; the theorems about whole runs
are lemmas over those functions. Each specification function is characterised in turn by a lemma that does not mention
it otherwise: over slices of strings, positions in the log, constructors and literal names.

The following are parameters, and the theorems hold for all of their values: SHA-256, UTF-8 validity, the
sensitive-path list, a granted target, the serialised size of a request and the permissions of a newly created file
(all in `Env`); which I/O steps fail (`Faults`, `SinkFault`); the reader of a tool call's JSON `path` argument; the
splitting of a command into words and the comparison of paths (`Matchers`); permission policy and provider routability
of a tool definition (`Advertising`); the clock; whether the edit engine succeeds behind `EditAccess`. Hash collision-freeness is never
needed: the checks compare hashes of the same content.

## What turned out not to hold

* All-or-nothing has one exception. When an operation is alone in its transaction, its target is resolved once more after
  the temp file is written; if that check fails, the error returns without removing the temp file
  (`crates/yach-backend/src/edit.rs:923`, `crates/yach-backend/src/edit.rs:1052`). `LeavesTemp` is the exact
  condition: `EditApply.Apply` proves that the temp file stays if and only if it holds, and
  `EditPreview.LastCheckLeavesTemp` that any applicable one-operation transaction can get there.
* A successful preview does not always apply. A request may create a file whose name is the temp or backup name of
  another of its operations; staging or revalidation then finds the name taken. `EditPreview.CollidingPreview` is such
  a family of requests, and `EditPreview.PreviewThenApply` proves that, with no fault, this is the only obstacle: apply
  succeeds if and only if no target is a scratch name. Neither policy that the source defines
  (`crates/yach-backend/src/edit.rs:129-149`) admits such a request: one allows a single operation, the other no
  creation, and `EditPreview.SmallPoliciesAlwaysApply` proves that under any such policy every preview is applicable
  while the disk is ready.
* `era * 400` in `unix_seconds_from_civil` leaves `i32` for adjusted years below -2147483600
  (`Calendar.CivilIntermediatesFit`, an if-and-only-if). No date that the parser hands over reaches them: its four
  characters name a year from -999 to 9999, and `HttpDate.ParsedDatesFit` proves that no intermediate overflows.
* A restriction takes precedence over a denial as well: a request that would be denied is put to the user when a
  restriction matches. `Permission.DeniedExactly` gives the guards for both kinds of decision, and
  `Permission.RestrictionReplacesDenial` a self-approving extension edit to which this happens.
* A restriction on the class of sensitive disclosures matches no request, because no command is inferred to be of that
  class (`Permission.DisclosureMatchesNothing`); only the review signals, which are not part of this model, apply it.
* Masking need not be exact when results share a key: one mask then hits several results. `Masking.SharedKeyIsInexact` is a
  log where the estimate falls by twice what was promised. `Masking.MaskingSaves` gives the fall for every log, and
  `Masking.MaskingIsExact` when it is the promised one: if and only if the surplus over the candidates' own savings is
  zero, which holds whenever no candidate's key is borne by another result. Idempotence needs no such condition.
* Replacement bundles of an extension installed in a project never resolve: they are activated with an untrusted source,
  which the resolver refuses (`Manifest.ProjectBundlesFail`).
* A rule that denies an extension tool hides it under its own name only; the tool still replaces a built-in when another
  rule says so (`Tools.CatalogExactly`, for rules of every mode).

## Model

| member | source | states |
|---|---|---|
| `Hunks.HunkStep` | crates/yach-backend/src/edit.rs:1301-1323 | one hunk succeeds if and only if its find text is non-empty and occurs once, overlaps counted, and then only that occurrence is replaced |
| `Hunks.HunksApplyExactly` | crates/yach-backend/src/edit.rs:1289-1325 | hunks succeed if and only if there is at least one and a derivation of single unique replacements leads to the result; lengths add up |
| `Hunks.SpliceExactly` | crates/yach-backend/src/edit.rs:1314-1316 | a replacement puts the new text where the found one was and moves nothing else |
| `Hunks.HunkFailure` | crates/yach-backend/src/edit.rs:1301-1322 | empty find text, no occurrence and several occurrences are told apart, each by its own condition |
| `Hunks.HunksFailExactly` | crates/yach-backend/src/edit.rs:1289-1325 | a list of hunks fails with an error if and only if the first hunk that does not apply, after the ones before it did, fails with it |
| `Hunks.MatchesAreOccurrences` | crates/yach-backend/src/edit.rs:1327-1331 | the match list holds every occurrence, overlapping ones too, and nothing else |
| `Hunks.ApplyHunks` | crates/yach-backend/src/edit.rs:1289-1325 | the in-place loop computes the specified text or the first error |
| `Paths.ValidateIsIdempotent` | crates/yach-backend/src/edit.rs:1100-1170 | a validated path has only plain components and, printed and validated again, is itself |
| `Paths.SplitExactly` | crates/yach-backend/src/edit.rs:1100-1134 | every string has one list of slash-free slices, and splitting finds it |
| `Paths.ValidatesExactly` | crates/yach-backend/src/edit.rs:1100-1170 | over the slices of the string: a path validates if and only if it does not start with a slash, no slice is "..", some slice is plain and the plain slices do not lead into metadata; the result is the plain slices in order; each refusal is told apart |
| `Paths.ScratchPathsDistinct` | crates/yach-backend/src/edit.rs:707-717 | temp and backup names of one transaction never coincide for different targets, nor with each other |
| `Paths.ScratchPathsByTag` | crates/yach-backend/src/edit.rs:707-717 | scratch names of one target differ from transaction to transaction |
| `Disks.FileSystem.WriteTemp` | crates/yach-backend/src/edit.rs:826-855 | create-new, permissions, contents; a failed write touches at most the temp name |
| `Disks.FileSystem.HardLink` | crates/yach-backend/src/edit.rs:676-683 | succeeds only on a free name; both names then share an inode |
| `Disks.FileSystem.Rename` | crates/yach-backend/src/edit.rs:534-550 | replaces the target's name atomically; onto the same inode it changes nothing |
| `EditResolve.CreateTargetExactly` | crates/yach-backend/src/edit.rs:1172-1209 | when a create target resolves, both directions, and to what |
| `EditResolve.ReadExactly` | crates/yach-backend/src/edit.rs:1211-1278 | when an existing file reads, both directions, and what is read |
| `EditResolve.NormalisedIsIdempotent` | crates/yach-backend/src/edit.rs:1100-1134 | the relative path stored by preview resolves at apply to the same target |
| `EditResolve.ResolutionWithAddedFiles` | crates/yach-backend/src/edit.rs:719-755 | scratch files can only take a create target's name; no other resolution changes |
| `EditErrors.CreateErrorIsTrue` | crates/yach-backend/src/edit.rs:1172-1209 | the error of a refused create target names a condition that holds of the path and the disk |
| `EditErrors.ReadErrorIsTrue` | crates/yach-backend/src/edit.rs:1211-1278 | the error of a refused read names a condition that holds of the path, the file and the policy |
| `EditProtocol.PublishStep` | crates/yach-backend/src/edit.rs:534-550 | publishing one operation is one update of the names outside the scratch names |
| `EditProtocol.UndoStep` | crates/yach-backend/src/edit.rs:757-768 | undoing an operation, by removal or by renaming its backup, restores the names before it |
| `EditProtocol.PublishOne` | crates/yach-backend/src/edit.rs:534-550 | one publish keeps the protocol invariant, or fails and changes nothing |
| `EditProtocol.UndoOne` | crates/yach-backend/src/edit.rs:758-767 | one turn of the rollback keeps what makes the earlier operations undoable |
| `EditProtocol.Rollback` | crates/yach-backend/src/edit.rs:757-768 | undoing newest first brings back the original names outside the scratch names |
| `EditProtocol.Cleanup` | crates/yach-backend/src/edit.rs:770-777 | removes exactly the temp and backup names |
| `EditProtocol.Publish` | crates/yach-backend/src/edit.rs:534-556 | after any pattern of publish failures the names are the original ones or all targets are published, with no scratch name left |
| `EditStage.StageOperation` | crates/yach-backend/src/edit.rs:568-705 | staging either leaves all names alone or adds exactly a new temp inode and a backup link; no existing inode is touched |
| `EditErrors.StageCheckExactly` | crates/yach-backend/src/edit.rs:568-660 | what passes the staging checks, both directions, told by the disk: place, policy, hash and size before, hash and size after |
| `EditErrors.RevalidateExactly` | crates/yach-backend/src/edit.rs:719-755 | what passes revalidation, both directions |
| `EditErrors.StageErrorIsTrue` | crates/yach-backend/src/edit.rs:568-660 | the error of a refused operation is true of it, with the expected and the found hash |
| `EditStage.PlanIsSeparate` | crates/yach-backend/src/edit.rs:707-717 | distinct targets give disjoint scratch names |
| `EditStage.StageStep` | crates/yach-backend/src/edit.rs:507-526 | one more staged operation keeps the staging invariant |
| `EditApply.StageAll` | crates/yach-backend/src/edit.rs:507-526 | after a failed staging step the names are the original ones; otherwise every check passed on the original disk |
| `EditApply.RevalidateAll` | crates/yach-backend/src/edit.rs:527-532 | with no fault, revalidation fails only when a scratch file took a create target |
| `EditApply.TreeAfterPublish` | crates/yach-backend/src/edit.rs:534-556 | published names, read as a tree, are the old tree updated operation by operation |
| `EditApply.UpdatedTreeExactly` | crates/yach-backend/src/edit.rs:404-470 | the updated tree holds each payload at its target, keeps the permissions of replaced files, and is the old tree elsewhere |
| `EditApply.ApplyStaged` | crates/yach-backend/src/edit.rs:489-566 | several operations: all targets at their payloads, or every name as it was |
| `EditApply.ApplyCreate` | crates/yach-backend/src/edit.rs:861-950 | the direct create path: done, nothing changed, or exactly the temp file left |
| `EditApply.ApplyModify` | crates/yach-backend/src/edit.rs:952-1085 | the direct modify path, likewise, permissions kept |
| `EditApply.Apply` | crates/yach-backend/src/edit.rs:404-470 | all or nothing on both paths with the same final tree; success with no fault if and only if the transaction is applicable; a temp file stays if and only if `LeavesTemp`; a failure names a true reason or an I/O step that failed |
| `EditApply.TransactionsApart` | crates/yach-backend/src/edit.rs:707-717 | transactions applied by one process use different scratch names for a common target |
| `EditPreview.Preview` | crates/yach-backend/src/edit.rs:246-402 | the preview loop computes the specified transaction or the first error, and changes nothing |
| `EditPreview.PreparesExactly` | crates/yach-backend/src/edit.rs:273-388 | an operation is prepared if and only if disk, hash and policy allow some content at some path, and then as that content |
| `EditPreview.PreparedFields` | crates/yach-backend/src/edit.rs:273-388 | what is prepared, field by field: target, hashes and sizes before and after, number of hunks |
| `EditPreview.PreviewExactly` | crates/yach-backend/src/edit.rs:246-402 | a preview succeeds if and only if the request is within the limits and every operation can be prepared at a target of its own, and then describes just those |
| `EditPreview.PreviewErrorIsTrue` | crates/yach-backend/src/edit.rs:246-402 | the error of a failed preview names a limit or a true reason of some operation, a duplicate target only when an earlier one has it |
| `EditPreview.PreparedPasses` | crates/yach-backend/src/edit.rs:568-705 | whatever preview prepared passes all apply-time checks on the same disk |
| `EditPreview.PreviewIsApplicable` | crates/yach-backend/src/edit.rs:246-402 | a previewed transaction is applicable if and only if no target is a scratch name |
| `EditPreview.SmallPoliciesAlwaysApply` | crates/yach-backend/src/edit.rs:129-149 | with one operation at most, or no creation, every successful preview is applicable while the disk is ready; both defined policies are of this kind |
| `EditPreview.PreviewThenApply` | crates/yach-backend/src/edit.rs:246-470 | preview then apply on an unchanged disk sets exactly the previewed targets to the requested contents |
| `EditPreview.CollidingPreview` | crates/yach-backend/src/edit.rs:813-824 | requests whose preview succeeds and whose apply cannot |
| `EditPreview.LastCheckLeavesTemp` | crates/yach-backend/src/edit.rs:914-929 | a failing last check makes any applicable one-operation transaction leave its temp file |
| `SessionLog.MaskedResultMap` | crates/yach-backend/src/compaction.rs:237-257 | the loop computes the first mask of each result |
| `SessionLog.EventTokensByText` | crates/yach-backend/src/compaction.rs:204-352 | an event costs a token for every four bytes of the text it carries, rounded up, and nothing else costs any |
| `SessionLog.MarkerNamesSize` | crates/yach-backend/src/compaction.rs:210-212 | the marker shows the size it stands for |
| `SessionLog.MasksOfExactly` | crates/yach-backend/src/compaction.rs:237-257 | a result is masked if and only if some event masks it, with the size of the first |
| `SessionLog.NewestCheckpointExactly` | crates/yach-backend/src/compaction.rs:500-532 | the newest checkpoint is the last one, its tail kept from the first entry it names, or from just after it when there is none |
| `SessionLog.CheckpointSurvivesAppend` | crates/yach-backend/src/compaction.rs:500-532 | appending other events leaves the newest checkpoint and its kept boundary alone |
| `SessionLog.NewCheckpointView` | crates/yach-backend/src/compaction.rs:500-532 | with distinct entry ids a new checkpoint keeps from exactly the entry it names |
| `Compaction.BudgetWalk` | crates/yach-backend/src/compaction.rs:556-568 | the saturating walk stops where the specified threshold is |
| `Compaction.SelectCompactionCut` | crates/yach-backend/src/compaction.rs:552-618 | computes the specified cut |
| `Compaction.CutIsBest` | crates/yach-backend/src/compaction.rs:552-618 | when a cut exists, both directions; the kept tail fits the budget unless it starts at the last entry; every folded user entry, and every folded entry when the tail starts at none, would have overflowed |
| `Compaction.CutExactly` | crates/yach-backend/src/compaction.rs:552-618 | these conditions determine the cut: it is the only one that meets them, and there is none when none does |
| `CompactionRun.MergeFileDetails` | crates/yach-backend/src/compaction.rs:723-763 | the loop collects exactly the previous lists and the files the folded events read and modified |
| `CompactionRun.MergeIsIncremental` | crates/yach-backend/src/compaction.rs:723-763 | merging over consecutive folds is merging once over both |
| `CompactionRun.FilesExactly` | crates/yach-backend/src/compaction.rs:723-763 | the files read are those of `read_text_file` calls, the files modified those of `edit_text_file` and `create_text_file` calls |
| `CompactionRun.RunInvariant` | crates/yach-backend/src/runner.rs:6955-7260 | over every run the newest checkpoint speaks for the last fold |
| `CompactionRun.FoldsTileTheLog` | crates/yach-backend/src/compaction.rs:500-618 | over every run of appends and compactions fold ranges tile the log, the boundary strictly advances inside the log, no tool pair is separated, and the file lists are those of the whole folded prefix |
| `Context.ComputeContextTurns` | crates/yach-backend/src/compaction.rs:432-452 | the loop finds the completed turns and the newest unfinished one |
| `Context.ContextTurnsExactly` | crates/yach-backend/src/compaction.rs:432-452 | a turn is in context if and only if it completed, or is the newest and has not ended |
| `Context.ContextExactly` | crates/yach-backend/src/compaction.rs:463-485 | the estimate is the newest summary and every event a request contains from the kept boundary on, no more and no less |
| `Context.EstimateAfterCompaction` | crates/yach-backend/src/compaction.rs:463-485 | after a compaction, with anything appended in between, the estimate is at most the summary plus the kept tail; with nothing in between at most the summary plus the budget, unless the tail starts at the last entry |
| `Context.EstimateAfterCompactionExactly` | crates/yach-backend/src/compaction.rs:463-485 | when a request contains the kept tail whole, the estimate after a compaction is the summary and that tail exactly |
| `Context.FailedTurnsDoNotCount` | crates/yach-backend/src/compaction.rs:417-485 | a whole failed or cancelled turn leaves the estimate unchanged, with or without a checkpoint |
| `Masking.SelectMaskCandidates` | crates/yach-backend/src/compaction.rs:263-318 | the backward walk and reversal give the specified candidates, oldest first |
| `Masking.CandidateExactly` | crates/yach-backend/src/compaction.rs:263-318 | a result is a candidate if and only if it is kept, of an earlier turn that finished since the last fold, not masked, behind enough newer results of this kind, and dearer than its marker |
| `Masking.SelectionExactly` | crates/yach-backend/src/compaction.rs:263-318 | a pass returns every candidate of the log, oldest first, with its size and savings |
| `Masking.MaskedExactly` | crates/yach-backend/src/compaction.rs:237-318 | when no candidate's key is borne by another result, exactly the candidates' results become masked, each with its own size |
| `Masking.MaskingSaves` | crates/yach-backend/src/compaction.rs:237-383 | for every log the estimate falls by what the newly masked results save, each its own tokens minus the marker of the first mask with its key |
| `Masking.MaskingIsExact` | crates/yach-backend/src/compaction.rs:237-383 | the fall is the sum of the candidates' savings plus the surplus; it is exact if and only if the surplus is zero, and whenever no candidate's key is borne by another result |
| `Masking.SharedKeyMasksBoth` | crates/yach-backend/src/compaction.rs:237-318 | two results under one key: the older is the only candidate, and the newer is masked with it |
| `Masking.SharedKeyIsInexact` | crates/yach-backend/src/compaction.rs:237-318 | a log where the estimate falls by twice the promised savings |
| `Masking.SecondPassIsEmpty` | crates/yach-backend/src/compaction.rs:263-318 | a pass that knows the new masks protects no sooner and finds nothing |
| `Masking.MaskingIsIdempotent` | crates/yach-backend/src/compaction.rs:263-318 | selecting again with the same arguments returns nothing, whatever the keys |
| `MaskedCompaction.ExtendedMapIsFinal` | crates/yach-backend/src/runner.rs:6962-6963 | the mask map extended by staged masks is the map of the log they are appended to |
| `MaskedCompaction.RecordedEstimateBounds` | crates/yach-backend/src/runner.rs:7202-7251 | after a compaction that also masks, the recorded estimate bounds the real one; both are within summary plus budget when no candidate's key is shared and the tail does not start at the last entry |
| `MaskedCompaction.MasksSpareTheTail` | crates/yach-backend/src/runner.rs:6889-6963 | masks protecting at least the kept budget, as the runner's do, name folded results alone when the kept tail fits |
| `Calendar.DayNumberFromMarch` | crates/yach-backend/src/error_dialect.rs:373-405 | counting in years that start in March agrees with counting months and leap years |
| `Calendar.UnixSecondsExactly` | crates/yach-backend/src/error_dialect.rs:373-424 | accepts exactly the valid dates and times from 1970 on and returns the plain count of seconds |
| `Calendar.CycleYearCorrect` | crates/yach-backend/src/extension_capability.rs:250-265 | the 1460/36524/146096 division formula finds the year within the 400-year cycle |
| `Calendar.CivilDateExactly` | crates/yach-backend/src/extension_capability.rs:250-265 | gives the valid date with that day number, or nothing only past the last year of `i32` |
| `Calendar.DayNumberInjective` | crates/yach-backend/src/error_dialect.rs:373-424 | no two valid dates share a day number |
| `Calendar.DaysToCivilToSeconds` | crates/yach-backend/src/extension_capability.rs:233-265 | days to a valid date and back to 86400 times the days |
| `Calendar.CivilToSecondsToDays` | crates/yach-backend/src/extension_capability.rs:233-265 | date and time to seconds and back, fields included |
| `Calendar.CivilIntermediatesFit` | crates/yach-backend/src/error_dialect.rs:373-405 | for every year of `i32` each intermediate fits its type; `era * 400` fits if and only if the adjusted year is at least -2147483600 |
| `HttpDate.ParsesExactly` | crates/yach-backend/src/error_dialect.rs:313-405 | a string parses to `t` if and only if its shape, its fields, its weekday and the count of seconds agree |
| `Decimals.DigitsExactly` | crates/yach-backend/src/error_dialect.rs:330-335 | a string of digits is read as the number it shows, leading zeros or not |
| `HttpDate.UnsignedExactly` | crates/yach-backend/src/error_dialect.rs:330-335 | an unsigned number is accepted if and only if it is shown by digits after an optional plus and fits |
| `HttpDate.SignedExactly` | crates/yach-backend/src/error_dialect.rs:330-335 | a signed number likewise, or by digits after a minus |
| `HttpDate.ShapeExactly` | crates/yach-backend/src/error_dialect.rs:313-328 | the shape is the literal text around the six fields |
| `HttpDate.NamesByOrder` | crates/yach-backend/src/error_dialect.rs:342-371 | weekday and month names in the order of the calendar |
| `HttpDate.FieldsExactly` | crates/yach-backend/src/error_dialect.rs:329-335 | the fields are what their slices show |
| `HttpDate.YearFieldBounds` | crates/yach-backend/src/error_dialect.rs:332 | a four-character year lies from -999 to 9999 |
| `HttpDate.ParsedDatesFit` | crates/yach-backend/src/error_dialect.rs:313-405 | for every string whose fields parse to a valid date and time no intermediate overflows, `era * 400` included |
| `HttpDate.FieldsRoundTrip` | crates/yach-backend/src/error_dialect.rs:313-371 | printed fields parse back to themselves |
| `HttpDate.ImfFixdateRoundTrip` | crates/yach-backend/src/error_dialect.rs:313-405 | printing any second of 1970 to 9999 and parsing it gives that second |
| `HttpDate.RetryAfterDate` | crates/yach-backend/src/error_dialect.rs:96-111 | for any clock, also one before the Unix epoch, a printed date with white space around it yields the whole milliseconds still to wait, and nothing once past or beyond u64 |
| `HttpDate.RetryAfterExactly` | crates/yach-backend/src/error_dialect.rs:96-111 | a value counts if and only if, white space apart, it is a number of seconds whose milliseconds fit u64 or a date that is not past |
| `HttpDate.DeltaSeconds` | crates/yach-backend/src/error_dialect.rs:96-103 | seconds in decimal become milliseconds, for any clock and with white space around them, or nothing when those exceed u64 |
| `HttpDate.NegativeSeconds` | crates/yach-backend/src/error_dialect.rs:96-106 | negative seconds are nothing |
| `StreamBuffer.BoundedBuffer.Push` | crates/yach-backend/src/provider.rs:423-439 | appends, merges, evicts one text delta or rejects; rejected if and only if nothing can make room, with a backpressure failure of the event's turn |
| `StreamBuffer.BoundedBuffer.PopFront` | crates/yach-backend/src/provider.rs:441-443 | takes the oldest event |
| `StreamBuffer.BoundedBuffer.CoalesceTextDelta` | crates/yach-backend/src/provider.rs:445-461 | merges into the last event exactly when both are text of one turn |
| `StreamBuffer.BoundedBuffer.DropOldestTextDelta` | crates/yach-backend/src/provider.rs:463-473 | removes the first text delta and nothing else |
| `StreamBuffer.StepIsFaithful` | crates/yach-backend/src/provider.rs:395-480 | each operation keeps the invariant; an eviction takes one text delta, only for a lifecycle event and a full buffer |
| `StreamBuffer.StepExactly` | crates/yach-backend/src/provider.rs:379-473 | what each operation does, case by case over the constructors: when a push is rejected, appended, merged, or admitted by giving up the oldest text delta |
| `StreamBuffer.RunsRejectExactly` | crates/yach-backend/src/provider.rs:379-473 | over every run a push is rejected if and only if nothing can make room for it, and is accepted otherwise |
| `StreamBuffer.RunsAreFaithful` | crates/yach-backend/src/provider.rs:395-480 | over every run: capacity, non-text events complete and in order, output equal to accepted input up to merging until the first eviction |
| `StreamBuffer.RunsAreTraced` | crates/yach-backend/src/provider.rs:395-480 | over every run, evictions included, each output event is one accepted event or a merge of consecutive deltas of one turn, in order, and only text is missing |
| `Tools.CatalogExactly` | crates/yach-backend/src/tools.rs:2252-2351 | for rules of every mode: the catalog holds exactly the advertised tools that no rule hides and the routed replacements |
| `Tools.CatalogRoutes` | crates/yach-backend/src/tools.rs:2252-2351 | with at most one replacement for each built-in, beside rules of any other mode, a built-in is implemented by its replacement's tool if and only if the rule routes |
| `Tools.RejectionExactly` | crates/yach-backend/src/tools.rs:2157-2183 | an extension tool is rejected if and only if its name is taken, the core owns it or its risk is a fixture's, and why |
| `Tools.ReplacementExactly` | crates/yach-backend/src/tools.rs:2381-2449 | a replacement is valid if and only if source, owners, risks and, when preserved, schemas agree; what the provider then sees |
| `Tools.RuleNeedsNames` | crates/yach-backend/src/tools.rs:2265-2289 | a replacement needs both definitions; rules of other modes need only a trusted source, and a built-in to disable |
| `Tools.RoutedExactly` | crates/yach-backend/src/tools.rs:2290-2300 | a replacement routes if and only if its tool is executable and what the provider sees may be advertised |
| `Bundles.CountClaims` | crates/yach-backend/src/extension.rs:818-823 | counts how many members claim each built-in |
| `Bundles.TryBundle` | crates/yach-backend/src/extension.rs:842-905 | resolving a bundle on top of the accepted ones succeeds if and only if the bundle is sound by itself |
| `Bundles.TryOne` | crates/yach-backend/src/extension.rs:825-905 | one bundle: no diagnostic if and only if it resolves; every conflicting member is diagnosed; each reason is true and no earlier check failed |
| `Bundles.MemberShows` | crates/yach-backend/src/extension.rs:856-868 | a preserved member shows the built-in's own definition, a replacing one the tool's schema and description, under the built-in's name |
| `Bundles.ResolveCatalog` | crates/yach-backend/src/extension.rs:803-909 | diagnoses exactly the failing bundles, each with a true reason, and resolves all others together |
| `Bundles.DropFailedBundles` | crates/yach-backend/src/extension.rs:911-959 | ends within one round more than there are bundles, with the least set that explains its own failures; no failed tool stays executable and every other member is routed |
| `Bundles.ClaimsOfPermutation` | crates/yach-backend/src/extension.rs:818-823 | claims do not depend on bundle order |
| `Bundles.FailedSetIgnoresOrder` | crates/yach-backend/src/extension.rs:911-959 | the failed set does not depend on bundle order |
| `Manifest.ParseTools` | crates/yach-backend/src/extension.rs:1872-1887 | the tools parse if and only if their names are valid, unreserved and distinct and their risks known, and are read as written |
| `Manifest.ParseMembers` | crates/yach-backend/src/extension.rs:1901-1926 | members parse if and only if built-ins and tools are distinct, the tools declared and the contracts known |
| `Manifest.ParseBundles` | crates/yach-backend/src/extension.rs:1888-1931 | bundles parse if and only if their ids are valid and distinct and each has two members or more that parse |
| `Manifest.ParseContributions` | crates/yach-backend/src/extension.rs:1872-1954 | tools, bundles and reviewer parse if and only if all of these hold and a reviewer declares no tools; an error names the first thing that is wrong |
| `Manifest.RisksByName` | crates/yach-backend/src/extension.rs:3067-3076 | the five risk names and the registry risks they become |
| `Manifest.ToolNameGrammar` | crates/yach-backend/src/extension.rs:3255-3261 | tool names, character by character |
| `Manifest.ReviewerIdGrammar` | crates/yach-backend/src/extension.rs:3210-3216 | reviewer ids, character by character |
| `Manifest.ReservedNames` | crates/yach-backend/src/extension.rs:3218-3220 | the two reserved names |
| `Manifest.ActivatedBundlesAreDistinct` | crates/yach-backend/src/extension.rs:1151-1171 | bundles of a parsed manifest are activated as declared, have distinct keys and never claim a built-in twice |
| `Manifest.ProjectBundlesFail` | crates/yach-backend/src/extension.rs:1151-1171 | bundles of an extension installed in a project never resolve, for want of a trusted source |
| `Registration.PreCheck` | crates/yach-backend/src/extension.rs:2240-2252 | accepts exactly the batches that can be registered whole |
| `Registration.RegisterAll` | crates/yach-backend/src/extension.rs:2254-2258 | after the pre-check no single registration fails |
| `Registration.StagedAreDeclared` | crates/yach-backend/src/extension.rs:2062-2078 | as many distinct bound names as declared tools are exactly the declared names |
| `Registration.BindExactly` | crates/yach-backend/src/extension.rs:2062-2078 | bound, mismatched and undeclared, each by its own condition |
| `Registration.DescribedFaithfully` | crates/yach-backend/src/extension.rs:2209-2238 | what is staged carries name, description, schema, visibility and risk of its message, under the extension's id |
| `Registration.GreetingExactly` | crates/yach-backend/src/extension.rs:2187-2207 | the one greeting that is accepted |
| `Registration.Stage` | crates/yach-backend/src/extension.rs:2209-2238 | the receive loop stages exactly what the messages describe, or fails |
| `Registration.InitializeAndRegister` | crates/yach-backend/src/extension.rs:2173-2274 | an error, a failed send included, leaves the registry unchanged and names what went wrong; success, characterised exactly, registers the declared tools with their declared risks |
| `Registration.Registry.Register` | crates/yach-backend/src/tools.rs:2157-2195 | appends or rejects, and keeps names unique |
| `EditAccess.Access.Prepare` | crates/yach-backend/src/edit_access.rs:195-314 | one transition: fresh ids, decision recorded, preview pending with what it captured |
| `EditAccess.Access.Take` | crates/yach-backend/src/edit_access.rs:322-329 | a missing preview or a wrong decision leaves the pending map as it was |
| `EditAccess.Access.Apply` | crates/yach-backend/src/edit_access.rs:316-370 | one transition: the preview leaves the map, override and outcome are recorded |
| `EditAccess.Access.SinkApply` | crates/yach-backend/src/edit_access.rs:385-466 | one transition: freshness, intent persisted ahead, engine, outcome; stale or unpersisted keeps the preview |
| `EditAccess.Access.Reject` | crates/yach-backend/src/edit_access.rs:480-515 | one transition without the engine |
| `EditAccess.Access.Rebind` | crates/yach-backend/src/edit_access.rs:164-174 | changes the reviewer generation alone |
| `EditAccess.EngineCalledAtMostOnce` | crates/yach-backend/src/edit_access.rs:195-515 | over every run no preview or transaction reaches the engine twice, and each sink-path call comes after its own `ApplyStarted` in the persisted evidence |
| `EditAccess.RefusalsKeepPending` | crates/yach-backend/src/edit_access.rs:316-515 | refused operations change no pending preview and call no engine; others take exactly their own preview out |
| `EditAccess.PrepareExactly` | crates/yach-backend/src/edit_access.rs:195-314 | a request becomes pending if and only if it is not denied and its preview succeeds, with what was live at that time; what is recorded in each case |
| `EditAccess.RepliesExactly` | crates/yach-backend/src/edit_access.rs:316-515 | every reply to apply, checked apply and reject, each by its own condition |
| `EditAccess.LogGains` | crates/yach-backend/src/edit_access.rs:331-370 | applying or rejecting records the user's word, when it was asked, and then the outcome |
| `EditAccess.SinkGains` | crates/yach-backend/src/edit_access.rs:409-466 | the sink gains the intent ahead of the engine, or a part of it, and the outcome after |
| `EditAccess.RebindExactly` | crates/yach-backend/src/edit_access.rs:164-174 | a rebind changes the reviewer generation of its preview and nothing else |
| `EditAccess.CapturedAuthorizationStays` | crates/yach-backend/src/edit_access.rs:164-174 | no operation changes the captured authorization of a pending preview |
| `EditAccess.StaleStaysStale` | crates/yach-backend/src/edit_access.rs:385-408 | the invariant behind the next row, along any run |
| `EditAccess.NoCheckedApplyOnceStale` | crates/yach-backend/src/edit_access.rs:290-408 | once the live revision has passed the captured one, no freshness-checked apply of that preview runs |
| `Permission.StrongestBy` | crates/yach-backend/src/permission.rs:618-641 | the loop selects the first human-performs match or, when there is none, the first match |
| `Permission.CommandsExactly` | crates/yach-backend/src/permission.rs:697-706 | the commands of a request |
| `Permission.PrefixMatchesExactly` | crates/yach-backend/src/permission.rs:680-718 | a command prefix matches word by word, an empty one never |
| `Permission.ClassByWords` | crates/yach-backend/src/permission.rs:736-750 | the words that put a command into each class |
| `Permission.SelfApprovalExactly` | crates/yach-backend/src/permission.rs:835-847 | self-approval is an extension asking to be reviewed by itself |
| `Permission.PrecedenceIsExact` | crates/yach-backend/src/permission.rs:596-616 | human-performs beats ask-first and, within a kind, global beats project |
| `Permission.ClassRestrictionIsEnforced` | crates/yach-backend/src/permission.rs:656-750 | a request with a command of an action class gets at least the restriction announced for the class, from both kinds of decision |
| `Permission.DisclosureMatchesNothing` | crates/yach-backend/src/permission.rs:680-750 | a restriction on sensitive disclosure is announced and matches no request |
| `Permission.CheckIsExact` | crates/yach-backend/src/permission.rs:574-616 | the outcome is human-performs if and only if some matching restriction is, ask-first if and only if only those match |
| `Permission.RestrictionsDecide` | crates/yach-backend/src/permission.rs:395-545 | any matching restriction decides alone, under every mode, allowlist and session grant |
| `Permission.RestrictionsNeverRelax` | crates/yach-backend/src/permission.rs:395-641 | adding, moving or reordering restrictions never demotes human-performs and never allows anything new |
| `Permission.DeniedExactly` | crates/yach-backend/src/permission.rs:395-545 | the exact guards of a denial, for edits and for shell commands: no restriction matches and the request's own kind is refused |
| `Permission.DecidedExactly` | crates/yach-backend/src/permission.rs:395-472 | every outcome of an ordinary decision with its reason: allowed if and only if nothing restricts, it is a workspace edit that does not approve itself, and the mode allows |
| `Permission.ShellDecidedExactly` | crates/yach-backend/src/permission.rs:477-546 | every outcome of a shell decision with its reason: allowed if and only if nothing restricts, it is a process execution, and it is allowlisted, granted or under full access; the review route of each other mode |
| `Permission.RestrictionReplacesDenial` | crates/yach-backend/src/permission.rs:400-413 | a self-approving extension edit is denied without restrictions and put to the user under an ask-first one |

## Left out

- Concurrent writers in the edit engine: the source narrows the window before each rename or link but does not close it, so the theorems are stated without interference.
- Failures of rollback renames and of cleanup removals, whose errors the source drops: all-or-nothing is claimed when those succeed.
- Files that already bear a temp or backup name: the failure path removes them, so unused scratch names are a precondition (`ReadyToApply`).
- Windows path prefixes and backslashes, which are not separators here; a case-insensitive file system.
- A failing permission change on the temp file is a failing write (`ModeFault`); directory handles and file syncing are not modelled.
- Diff summaries and edit traces of previews, and the counter that issues transaction ids: the id is an argument.
- Compaction checkpoints carry file lists as sets; the source keeps them as ascending lists inside a JSON object whose other keys are left out.
- Token sums that the source adds without saturation are unbounded here; those it saturates saturate.
- Native compaction, summary prompts and compaction configuration: network and text.
- Sorting of the tool catalog by provider name: it is stable and changes no lookup; wording of resolution errors and of diagnostics likewise.
- Extension processes, timeouts and the JSON form of host messages: a script of received results takes their place. The separate registration of already collected messages, and reload and stop, are not modelled.
- Manifest.ParseContributions: static context and themes, which lie between bundles and reviewer in the source and can fail on their own, and the schema, id, command and activation checks before the tools are not modelled.
- Trimming of Retry-After values removes ASCII white space only, and instants out of the range of the system clock are not modelled.
- Mapping of permission decisions to review states and prompts; shell word splitting and path comparison are parameters; review signals and thresholds.
- Panics of debug builds (the capability assertion on shell denials, and the arithmetic overflow named above).
- HttpDate.ImfFixdateRoundTrip: parsing then printing is not the identity, because Rust's integer parser also accepts a leading plus sign.
