# FireForge patch queue: a verified model

FireForge keeps a fork of Firefox as a queue of patches. This project models the parts of it that
decide, renumber, refresh and check that queue, and proves what they keep.

- **Hunks** (`text_lines`, `edits`, `edit_laws`, `edit_outcome`, `hunk_engine`, `hunk_laws`,
  `hunk_outcome`, `raw_sections`, `hunk_selection`): unified-diff hunks placed by context, forward or
  reversed, what any application comes to, and the body a re-export builds from selected hunks. A hunk header follows the unified format of the `diff`
  utility (POSIX.1-2017, STDOUT section, "Diff -u or -U Output Format"): an empty range counts from
  the line before it.
- **Check scheduling** (`schedule`, `check_run`, `check_report`, `check_outcome`): steps with `after` constraints on
  a bounded number of slots, and the verdict over their results.
- **Foreign drift** (`foreign_drift`, `drift_laws`, `drift_reports`): which payload lines a refreshed body gained or
  lost, and the hunks they are charged to.
- **Placement** (`patch_names`, `cascade`, `stable_sort`, `rename_map`, `placement_plan`, `plan_names`,
  `placement_fits`, `renumbering`, `placement_commit`, `placement_laws`, `commit_outcome`,
  `placement_queue`, `reserved_ranges`, `placement_conflicts`): where a new patch goes, which patches make room, and
  the transaction that writes it.
- **Re-export** (`ownership`, `ownership_laws`, `creation_gate`, `re_export_run`, `prepare_laws`,
  `run_laws`, `scan_owners`): what a refresh makes of a patch, what a run writes and reports, which
  patch owns which file while it refreshes patches one after the other or judges them all first, and
  what the queue projection of each commit adds to that.
- **Lint** (`lint_pool`, `lint_rows`, `lint_report`, `check_js`): the per-patch worker pool, its cache, and the
  rows put together from it.
- **Engine replacement** (`engine_replacement`), **orphan repair** (`orphan_repair`) and
  **configuration equality** (`json_equality`).

Code that changes things step by step is a method with loops or a class, proved equal to a
specification function; the laws are lemmas about those functions. Everything a run only asks for
(git, lint rules, prompts, locks, other processes) is a parameter, and every step that can fail has
a fault that says so. `prelude` holds the shared result types. Loops are generic in the type of
lines, paths or names where the code only compares them.

## Where the code and its own words differ

Each of these is proved: as an exact condition, by a concrete input where it fails, or both.

- Applying hunks forward and back restores a text only if the first application leaves the final
  newline as it was: exactly when the text ends in a newline or keeps a non-empty last line
  (`HunkLaws.TextInvertsExactly`, `HunkLaws.InvertsByItsLastLine`,
  `HunkLaws.EmptiedLastLineIsNotUndone`).
- `findBlock` says it finds the nearest match at or after `floor`; it stops at a radius of the
  buffer's length, so it misses none exactly when the expected line is at most that far past `floor`
  (`HunkEngine.SearchIsCompleteExactly`).
- A hunk with an empty old side skips the search and the floor, so one that runs backwards lands
  above a block already written (`HunkLaws.BackwardHunkBreaksTheFrame`); whenever edits land in
  order the lines around them are kept (`EditLaws.InOrderFrame`).
- The rollback of a placement says that the files match the original manifest by the time it writes
  that manifest back. They do not when the new file takes the name of a renamed one (the snapshot is
  put back first and then bars the inverse renumber), when two moved patches shared an order, or
  when the new row was already written; and a manifest that did not exist is not taken away again
  (`PlacementLaws.RestoresExactly`, with `PlacementQueue.ReusedNameIsNotRestored` and
  `PlacementQueue.SharedOrderIsNotRestored`). The last two need a write that reports failure after
  it landed, which the atomic writer of `src/utils/fs.ts` does not do today.
- The in-memory manifest of a re-export run is updated after the cache store, which can throw; the
  patch after that is scanned against the row from before and can adopt a file that already has an
  owner. A run in turn keeps one owner a file exactly when no commit that lands could adopt a file
  the in-memory manifest has lost sight of (`OwnershipLaws.TurnsStayOwnedExactly`,
  `CreationGate.FailureAfterWriteDoublesOwners`).
- Judging all patches first keeps one owner a file exactly when no row that is committed holds a file
  from the old row of a patch whose commit failed before its write. That can be told once all are
  judged; it always holds in a tree that stands still between the prepares
  (`OwnershipLaws.JudgedFirstStaysOwnedExactly`, `OwnershipLaws.JudgedFirstStaysOwned`). Nor is a
  retired upstream file safe from being adopted back in the same run, as
  `src/commands/re-export-options.ts:145-148` has it: it may change again between two prepares
  (`CreationGate.MovingTreeDoublesOwners`).
- In both loops the double owners are of files that HEAD has. The projection gate of the commit
  (`src/commands/re-export-lint.ts:329-382`) refuses a body that creates a file another body creates,
  and says nothing about two bodies that change one upstream file; so without `--force-unsafe` a file
  that only patches create keeps one owner (`CreationGate.GatedTurnsOwnCreations`,
  `CreationGate.GatedJudgedOwnsCreations`), and the two runs above pass it.
- Normalising a `--scan-file` value can change who it says owns the file: `engine/a:b` splits into a
  path, and without its `engine/` into an owner and a path. The owner is kept exactly when the value
  named one or the normalised path still reads as a path (`ScanOwners.NormalizingKeepsTheOwnerExactly`,
  `ScanOwners.StrippedPathBecomesAnOwner`).
- Removing the engine backup can fail in part; the run then gives up the complete new engine for
  what is left of the old one, after the state was stamped, and ends with neither whole exactly when
  it still gets at the new one, be it only to remove part of it. A failure between the stamp and that
  removal, or a removal that fails before it deleted anything, restores the old engine under a state
  that names the new one (`EngineReplacement.FailedDropLosesBoth`,
  `EngineReplacement.StampOutlivesTheRestore`).
- A name orphaned both as an override and as a custom component is reported restored and, because
  it has just been restored, reconciled (`OrphanRepair.InOneListExactly`,
  `OrphanRepair.TwiceOrphanedIsInTwoLists`).
- `deepEqual` takes an own field `__proto__` holding an empty object for a field any other object
  has, since `b[k]` then reads the inherited prototype (`JsonEquality.ComparesTreesExactly`).

## Model

| member | source | states |
|---|---|---|
| `TextLines.JoinAfterSplit` | src/commands/re-export-hunks.ts:132 | joining the lines a text splits into gives the text back |
| `TextLines.SplitAfterJoin` | src/commands/re-export-hunks.ts:152 | lines without newlines are the split of their join |
| `TextLines.CloseAfterOpen` | src/commands/re-export-hunks.ts:131-152 | a text opened into a buffer and closed again is the same text, empty or not, with or without final newline |
| `TextLines.OpenAfterClose` | src/commands/re-export-hunks.ts:131-152 | a buffer survives being closed and opened exactly when its newline flag can be read off the text |
| `Edits.FindBlock` | src/commands/re-export-hunks.ts:107-119 | the outward search returns the result that `Find` specifies |
| `Edits.FindIsNearest` | src/commands/re-export-hunks.ts:107-119 | a result is a match at or after the floor that no other one is preferred to: nearer first, the lower of two equally near; none means none within reach |
| `Edits.NearestIsFind` | src/commands/re-export-hunks.ts:107-119 | that meaning determines the result: anything nearest is what the search returns |
| `Edits.SearchIsComplete` | src/commands/re-export-hunks.ts:113 | no admissible match is missed when the expected line is within a buffer's length past the floor |
| `HunkEngine.SearchIsCompleteExactly` | src/commands/re-export-hunks.ts:113 | over all buffers of a size, no match is missed if and only if the expected line is at most that size past the floor or nothing lies after the floor |
| `Edits.SpliceEdit` | src/commands/re-export-hunks.ts:138-149 | one turn of the loop finds the block, splices it and moves offset and floor as the specification advances, whose outcome `EditOutcome.AppliesExactly` tells |
| `HunkEngine.HunkBlocks` | src/commands/re-export-hunks.ts:89-99 | the old side of a hunk is its context and removed lines, the new side its context and added lines, swapped when reversed |
| `HunkEngine.SpliceHunks` | src/commands/re-export-hunks.ts:133-150 | the loop over parsed hunks is the run of the edits their headers and lines stand for, or names the first hunk not found; `HunkOutcome.ContextDecides` says which that is |
| `HunkEngine.ApplyHunksByContext` | src/commands/re-export-hunks.ts:125-153 | the whole application on texts, with its refusal; `HunkOutcome.DiffApplies` and `HunkOutcome.ContextDecides` say what it comes to |
| `EditLaws.OrderedLandsInOrder` | src/commands/re-export-hunks.ts:137-149 | edits whose lines come in order land one after the other, insertions included |
| `EditLaws.SearchedLandsInOrder` | src/commands/re-export-hunks.ts:139-149 | edits with non-empty old blocks land one after the other whatever their headers say |
| `EditLaws.InOrderFrame` | src/commands/re-export-hunks.ts:107-153 | whenever the edits land in order, a successful application decomposes input and output into the same gaps around the old and the new blocks: no line outside a named block is changed, lost or reordered, however far it was displaced |
| `EditLaws.Frame` | src/commands/re-export-hunks.ts:107-153 | edits with non-empty old blocks, or with lines in order, always keep the gaps so |
| `EditLaws.BackwardInsertionBreaksTheFrame` | src/commands/re-export-hunks.ts:139 | an insertion that runs backwards is written before an edit already placed, and the gaps are not kept |
| `EditLaws.ExactIsPatch` | src/commands/re-export-hunks.ts:133-150 | on exact headers the splice loop computes the plain patch that copies gaps and emits new blocks |
| `EditLaws.PatchedIsExact` | src/commands/re-export-hunks.ts:89-150 | the inverse edits stand exactly at their lines in the patched buffer |
| `EditLaws.Inversion` | src/commands/re-export-hunks.ts:89-153 | on lines, forward and then reversed is the identity, pure insertions and deletions included |
| `EditLaws.FirstBelow` | src/commands/re-export-hunks.ts:113-117 | with foreign lines above, the first edit is found in the same line of the text if and only if no foreign place is preferred |
| `EditLaws.ShiftInvariance` | src/commands/re-export-hunks.ts:133-149 | then the whole run gives the foreign lines followed by the result without them: the offset carries the displacement |
| `EditOutcome.AppliesExactly` | src/commands/re-export-hunks.ts:107-153 | edits that replace something are applied, with this result, if and only if the buffer falls into gaps around their old blocks such that each block is the nearest of its kind, within reach, at or after the end of the one before it, and the result is the same gaps around the new blocks; and edit `n` is refused if and only if the first `n` land so and it then stands nowhere within reach |
| `EditOutcome.LandedDecide` | src/commands/re-export-hunks.ts:107-153 | insertions included, edits that land so give that result, or the refusal of the next one |
| `EditOutcome.InsertsExactly` | src/commands/re-export-hunks.ts:138-149 | an insertion is never refused and goes in at the line its header and the offset say, cut off at both ends of the buffer |
| `EditOutcome.LoneBlocksAreFound` | src/commands/re-export-hunks.ts:107-153 | blocks that stand within reach and nowhere else behind the one before are all found, whatever foreign lines stand between them |
| `HunkLaws.TextShiftsExactly` | src/commands/re-export-hunks.ts:125-153 | on texts, forward or reversed: below foreign lines the hunks give the foreign text followed by the result without it, if and only if the text has a final newline or the hunks leave a line of it |
| `HunkLaws.AgreeingHeadersUndo` | src/commands/re-export-hunks.ts:136-137 | headers that match the content make the reversed hunks the inverse edits |
| `HunkLaws.TextInvertsExactly` | src/commands/re-export-hunks.ts:125-153 | on texts, the reversed application restores the original if and only if the final newline was kept |
| `HunkLaws.InvertsByItsLastLine` | src/commands/re-export-hunks.ts:131-152 | told from the content and the patched lines alone: it is restored if and only if it ends in a newline or the last patched line is there and not empty |
| `HunkLaws.EmptiedLastLineIsNotUndone` | src/commands/re-export-hunks.ts:131-152 | a text whose only line becomes empty is not restored |
| `HunkLaws.BackwardHunkBreaksTheFrame` | src/commands/re-export-hunks.ts:125-153 | two parsed hunks applied to a text for which they are not |
| `HunkLaws.ApplicationGrows` | src/commands/re-export-hunks.ts:133-150 | a successful application lengthens the buffer by its `+` lines less its `-` lines, a reversed one shortens it by as many, however displaced |
| `HunkOutcome.SidesExactly` | src/commands/re-export-hunks.ts:89-99 | a hunk's old side is its ` ` and `-` lines in order without their markers, its new side its ` ` and `+` lines |
| `HunkOutcome.DiffApplies` | src/commands/re-export-hunks.ts:125-153 | the hunks of a unified diff of two texts turn the lines of the first into those of the second, and reversed the second into the first, pure insertions and deletions included |
| `HunkOutcome.ContextDecides` | src/commands/re-export-hunks.ts:125-153 | any hunks with something to look for land one after the other up to the end or up to the one that stands nowhere within reach; the result is the same gaps around the other side, or that hunk as the refusal |
| `RawSections.SplitRawSections` | src/commands/re-export-hunks.ts:66-86 | the splitting loop yields each path's section text, the last one of a path winning |
| `RawSections.SectionsHoldEveryLine` | src/commands/re-export-hunks.ts:72-83 | the sections laid end to end are the diff from its first header on |
| `RawSections.SectionsStartAtHeaders` | src/commands/re-export-hunks.ts:72-81 | every section starts at its own header and holds no other |
| `RawSections.LastOfItsPath` | src/commands/re-export-hunks.ts:69-71 | of several sections of one path the last is kept |
| `RawSections.TextsExactly` | src/commands/re-export-hunks.ts:66-86 | the map has exactly the paths of the headers, and under each the lines of its last section up to the final newlines, ended by one |
| `HunkSelection.BuildHunkSelectedDiff` | src/commands/re-export-hunks.ts:290-333 | the body is the files' pieces in order, or the refusal of the first hunk that does not apply |
| `HunkSelection.ExcludingExportsTheRest` | src/commands/re-export-hunks.ts:322-330 | excluding the hunks that were applied on top of a text exports that text alone, as its diff against HEAD or nothing when it is HEAD's, exactly when the final newline was kept |
| `HunkSelection.IncludeThenExclude` | src/commands/re-export-hunks.ts:319-326 | selecting hunks and then excluding them leaves the current body, exactly when the final newline was kept |
| `HunkSelection.UnnamedFilesKeepTheirSection` | src/commands/re-export-hunks.ts:311-316 | a file no hunk names contributes its own section unchanged |
| `HunkSelection.PieceExactly` | src/commands/re-export-hunks.ts:311-330 | a named file contributes the diff of the text that its hunks give, ended by a newline, and nothing when that is the text of HEAD or the diff is blank; or the refusal of its first hunk not found |
| `HunkSelection.BodyExactly` | src/commands/re-export-hunks.ts:310-333 | the body is the pieces of the files end to end, or the error of the first one that fails, and it fails only then |
| `Schedule.NextIsSafe` | src/commands/check-run.ts:158-176 | every transition keeps: pending, running and finished partition the plan, at most the slots run, nothing started before what it waits on finished |
| `Schedule.RunsAreSafe` | src/commands/check-run.ts:158-176 | so every state of every run does |
| `Schedule.RunsEnd` | src/commands/check-run.ts:158-176 | twice the pending plus the running steps falls with every transition |
| `Schedule.HaltedRunsFinishTheSameSteps` | src/commands/check-run.ts:144-182 | whatever the completion order and the slots, a halted run has finished exactly the least set closed under "all it waits on is in" |
| `Schedule.HaltsOrGoesOn` | src/commands/check-run.ts:159-175 | with a slot to use, a safe state is halted or some step can be taken |
| `Schedule.StuckStepsWaitOnStuckSteps` | src/commands/check-run.ts:174 | a step left out waits on another step left out |
| `Schedule.AllRunExactlyWhenAcyclic` | src/commands/check-run.ts:144-182 | every step can run if and only if no chain of steps, each waiting on the next, leads from a step back to itself |
| `CheckRun.Fill` | src/commands/check-run.ts:159-173 | the greedy pass over the pending list is a stretch of schedule transitions in plan order: up to some place every ready step was started and no other, and beyond it nothing was looked at; after it the slots are full or nothing pending is ready |
| `CheckRun.RunToTheEnd` | src/commands/check-run.ts:152-176 | the loop ends in the halted state of a run of the schedule |
| `CheckRun.RunCheckSteps` | src/commands/check-run.ts:144-182 | the results are those of exactly the runnable steps, in plan order |
| `CheckOutcome.WaitsExactly` | src/commands/check-run.ts:150-156 | a step waits on exactly the steps of the plan that its `after` list names |
| `CheckOutcome.AfterIsHonoured` | src/commands/check-run.ts:144-182 | in every state of every run at most the given number of jobs run, one at least, and no step has started before the steps of the plan in its `after` list finished |
| `CheckOutcome.ResultsAreThose` | src/commands/check-run.ts:178-181 | the results are those of the finished steps, in plan order |
| `CheckReport.JudgedByItsResults` | src/commands/check-report.ts:43-66 | the check passes exactly when no result counts against it, and each of its three reasons is given exactly under its condition: failures all for a locked directory, other failures, or gaps alone where gaps count |
| `CheckReport.VerdictOnAcyclicPlan` | src/commands/check-report.ts:47-57 | on an acyclic plan the verdict speaks of every step of the plan and passes exactly when none counts against it |
| `CheckOutcome.ListsExactly` | src/commands/check-report.ts:43-57 | the verdict lists the failed steps in order and, where gaps count, after them those skipped for want of anything to run; all skipped steps; and how many results there were |
| `ForeignDrift.CollectPayloadByFile` | src/commands/re-export-drift.ts:89-123 | per file, the multisets of added and removed texts of all its sections, as `DriftReports.PayloadHoldsAllSections` and `DriftReports.FileTextsCount` tell them |
| `ForeignDrift.MultisetExcess` | src/commands/re-export-drift.ts:126-136 | multiset difference |
| `ForeignDrift.SummarizeForeignHunks` | src/commands/re-export-drift.ts:143-182 | the hunks charged for the budgeted texts with their counts, in order |
| `ForeignDrift.ComputeForeignDrift` | src/commands/re-export-drift.ts:202-274 | the loop over both bodies yields the list that the drift laws are about |
| `DriftLaws.LooksAtEachFileOnce` | src/commands/re-export-drift.ts:211-216 | every file of either body is looked at, and none twice |
| `DriftLaws.ReportsExactly` | src/commands/re-export-drift.ts:211-270 | the reported list has an entry for a file if and only if the file is owned and drifted, one entry a file, and that entry is its own |
| `DriftReports.TextDriftIsReportedExactly` | src/commands/re-export-drift.ts:202-274 | of two bodies: a file whose sections are all text is reported if and only if it is owned and some `+` or `-` line occurs more often in its sections of one body than of the other; its one entry counts those occurrences, balances, and names the first three of the hunks that account for all of them |
| `DriftReports.BinaryDriftIsReportedExactly` | src/commands/re-export-drift.ts:218-229 | a file with a binary section in either body is reported if and only if it is owned and the last blobs are not both there with one a beginning of the other; its entry has no counts |
| `DriftLaws.DriftExactly` | src/commands/re-export-drift.ts:230-248 | a text file has an entry if and only if its added or its removed texts differ as multisets |
| `DriftLaws.DriftConserves` | src/commands/re-export-drift.ts:246-247 | added less removed lines is the change in added less removed texts |
| `DriftLaws.DriftSwaps` | src/commands/re-export-drift.ts:230-247 | swapping the bodies swaps the two counts |
| `DriftLaws.ArrangementNeverMatters` | src/commands/re-export-drift.ts:110-119 | hunk cuts, order, numbering and context never change a payload |
| `DriftLaws.TextPayloadHoldsItsHunks` | src/commands/re-export-drift.ts:89-123 | a collected text payload is exactly what its hunks hold |
| `DriftLaws.BudgetIsSpent` | src/commands/re-export-drift.ts:151-181 | a budget the hunks cover is charged in full, each occurrence to one hunk |
| `DriftLaws.AttributionIsExact` | src/commands/re-export-drift.ts:253-268 | before the cap, the hunks' counts add up to the file's counts |
| `DriftReports.PayloadHoldsAllSections` | src/commands/re-export-drift.ts:89-123 | a body has a payload for exactly the files its sections name; it is binary if and only if some section is, has the blob of the last one that is, and holds the hunks of all sections of the file in order |
| `DriftReports.FileTextsCount` | src/commands/re-export-drift.ts:110-119 | a text counts as often as a line of those hunks carries it with that sign |
| `DriftReports.ChargedExactly` | src/commands/re-export-drift.ts:143-182 | each hunk is charged for what the hunks before it left of the two budgets, and listed if and only if that is something |
| `DriftReports.EntriesFollowTheBodies` | src/commands/re-export-drift.ts:211-216 | the entries come in the order in which the new body, and after it the old one, first names their files |
| `DriftReports.DriftMeasuresTheEngineFile` | src/commands/re-export-drift.ts:54-71 | applied to one upstream file, the hunks of all its sections in two bodies leave files whose lengths differ by the added less the removed lines of the owned file's entry, and by none when it has no entry |
| `PatchNames.NamedParsesBack` | src/core/patch-parse.ts:30-81 | a formatted filename gives back its order and the rest of its name, whatever the padding |
| `Cascade.MakesRoom` | src/commands/export-flow.ts:112-132 | the requested order comes free and no unmoved patch stands in the renumbered stretch |
| `Cascade.KeepsTheirOrder` | src/commands/export-flow.ts:112-132 | relative order is kept, strictly where a patch moved |
| `Cascade.MovesWithinTheStretch` | src/commands/export-flow.ts:112-132 | a moved order rises, within the stretch; the first one moved was the requested order |
| `Cascade.PlanIsLeast` | src/commands/export-flow.ts:112-132 | the plan is pointwise at most any renumbering that frees the order, lowers nothing and keeps the tail apart |
| `Cascade.PlanFreesExactly` | src/commands/export-flow.ts:112-132 | it is such a renumbering itself if and only if the patches beyond the stretch already stand apart |
| `PlacementPlan.ComputePlacementPlan` | src/commands/export-flow.ts:96-146 | the positional plan: refusal of a non-positive order, else the cascade's renames and the new filename, whose names `PlanNames.PlanKeepsNames` tells |
| `PlacementPlan.ShiftUp` | src/commands/export-flow.ts:115-132 | the cursor loop yields the renames of the cascade from the first patch on |
| `PlacementPlan.ShiftsTheCascade` | src/commands/export-flow.ts:115-132 | those are the consecutive orders after the requested one, for exactly the patches the cursor meets |
| `PlacementPlan.ComputeExactPlacementPlan` | src/commands/export-flow.ts:154-186 | an exact order renames nothing and is refused, naming the first patch that holds it, if and only if it is taken |
| `PlanNames.PlanKeepsNames` | src/commands/export-flow.ts:96-146 | of the plan for any queue: the new name is category and name after a prefix that carries the requested order, at least three digits wide and at least as wide as every prefix in the queue, and no wider than one of these; each rename keeps everything after the old prefix, carries its order, and is as wide, or wider where its order needs it |
| `PlanNames.ExactPlanNames` | src/commands/export-flow.ts:154-186 | an exact plan renames nothing and names the new patch so |
| `PlacementFits.PositionalPlanFits` | src/commands/export-flow.ts:96-146 | a positional plan renames rows of the queue, out of the stretch from the requested order, to names that carry the consecutive orders after it, with every other row clear |
| `PlacementFits.ExactPlanFits` | src/commands/export-flow.ts:154-186 | so does, trivially, an exact plan |
| `PlacementFits.PlanIsLeast` | src/commands/export-flow.ts:96-146 | no such renumbering of the rows leaves any patch at a lower order than the plan |
| `PlacementLaws.PlannedOrdersAreDistinct` | src/commands/export-flow.ts:96-146 | a plan gives no order to two patches |
| `RenameMap.ComparesMapsExactly` | src/commands/patch-rename-map.ts:18-49 | comparing entries sorted by order decides map equality, whatever the insertion order, if and only if the map gives no order twice |
| `PlacementLaws.PreviewIsComparedExactly` | src/commands/export-flow.ts:84-90 | so the comparison with the confirmed preview succeeds if and only if order, filename and renames, in whatever map order, are the same |
| `StableSort.SortIsStable` | src/commands/patch-rename-map.ts:21 | the sort keeps elements with equal keys in their order |
| `Renumbering.FilesRoundTrip` | src/core/patch-manifest-io.ts:449-513 | moving files along the inverse map undoes moving them along the map, and is never refused |
| `Renumbering.RowReturns` | src/commands/export-flow.ts:488-495 | a row whose name carries its order comes back exactly through the inverse map |
| `PlacementLaws.ShapeIsKeptExactly` | src/core/patch-manifest-io.ts:318-345 | the renumber's own check passes if and only if the patches left in place have different orders |
| `PlacementLaws.CommittedRows` | src/commands/export-flow.ts:438-450 | a commit leaves the renamed rows and the one new row, sorted by order |
| `PlacementLaws.CommittedFiles` | src/commands/export-flow.ts:438-445 | and the renamed files and the one new file, every other file as it was |
| `PlacementLaws.GoesBack` | src/commands/export-flow.ts:483-502 | before the new row is in, the inverse renumber goes through if and only if the orders were unique, and then restores every file |
| `PlacementLaws.NeverGoesBackOnceAdded` | src/commands/export-flow.ts:446-450 | once the new row holds the requested order the inverse renumber refuses |
| `PlacementLaws.ReusedNameBarsTheWay` | src/commands/export-flow.ts:469-476 | a restored file under a given-up name makes the inverse renumber refuse |
| `PlacementLaws.RestoresExactly` | src/commands/export-flow.ts:432-519 | a failed commit restores files and manifest if and only if it never renumbered, or the new name is none of those given up, the orders were unique and the new row was not in |
| `CommitOutcome.RenumbersExactly` | src/core/patch-manifest-io.ts:318-345 | the renumber goes through if and only if there is a manifest, every file to rename is on disk, no new name is taken but by a file that is itself renamed, and the patches left in place have different orders |
| `CommitOutcome.CommitsExactly` | src/commands/export-flow.ts:432-519 | a commit goes through if and only if the renumber it needs can and does and nothing after it fails |
| `CommitOutcome.CommittedManifest` | src/commands/export-flow.ts:438-450 | it leaves a manifest, by rising order, of every row under its new name and order and the one new row |
| `CommitOutcome.FailsExactly` | src/commands/export-flow.ts:432-519 | every end of a failed commit: nothing changed before the renumber, but for a manifest that did not exist and was written; after it the old manifest, with the files back if and only if the new name is none of those given up, the orders were unique and the new row was not in, and otherwise at their new names with the new patch's name as before |
| `PlacementQueue.Queue.CommitPlacementExport` | src/commands/export-flow.ts:372-521 | under the lock: each refusal exactly under its condition and without a change (an unresolvable placement and why, a reserved range and which, a queue that no longer gives the confirmed plan, a closed gate); otherwise the state the transaction specifies, for a plan with the confirmed renames |
| `PlacementQueue.Queue.Apply` | src/commands/export-flow.ts:432-519 | renumber, write, add and the catch block, step by step, for every fault |
| `PlacementQueue.AllOrNothing` | src/commands/export-flow.ts:372-521 | over a queue named after its orders: exactly the planned renames plus one patch, in manifest order, with every file where that puts it and all others untouched, or the initial state exactly when the commit recovers |
| `PlacementQueue.ReusedNameIsNotRestored` | src/commands/export-flow.ts:469-476 | one patch re-exported before itself, with a failing write, is not restored |
| `PlacementQueue.SharedOrderIsNotRestored` | src/commands/export-flow.ts:488-502 | nor are two patches that shared an order and moved apart |
| `ReservedRanges.FirstFreeOrderBelowReservedRange` | src/commands/export-placement-policy.ts:31-40 | the greatest free positive order below the range, and nothing exactly when all are taken |
| `ReservedRanges.AssertPlacementAvoidsReservedRanges` | src/commands/export-placement-policy.ts:51-83 | a plan passes if and only if no rename moves a patch into or out of a reserved range; a refusal names the range of the first that does and the greatest free order below it |
| `ReservedRanges.PassesExactly` | src/commands/export-placement-policy.ts:51-66 | for a non-empty plan, if and only if no order from the requested one to the last one given is reserved |
| `PlacementConflicts.GroupProjectedPlacementErrors` | src/commands/export-placement-conflicts.ts:46-74 | the loop files every error under its group, in order |
| `PlacementConflicts.NamesMapBack` | src/commands/export-placement-conflicts.ts:51-55 | mapping a projected name back gives the queue's own name, and never the new patch's |
| `PlacementConflicts.PreExistingIsNotBlamed` | src/commands/export-placement-conflicts.ts:56-73 | an error the queue had before, with a list of patches in any order or without one, is never filed as caused by renumbering; it is filed as pre-existing if and only if it has the list or its message does not name the new file |
| `PlacementConflicts.FiledExactly` | src/commands/export-placement-conflicts.ts:46-74 | where each error is filed: under the exported patch when its list or message names the new file, else as pre-existing when the queue had an error of the same check, file and patches under their old names, else as caused by renumbering |
| `PlacementConflicts.GroupsAreThose` | src/commands/export-placement-conflicts.ts:58-74 | each group holds the errors filed under it, in the order they were found |
| `PlacementConflicts.GroupsPartition` | src/commands/export-placement-conflicts.ts:58-74 | every error is in exactly one group, as often as it was reported |
| `Ownership.ScanPatchFiles` | src/commands/re-export-scan.ts:100-131 | the broad scan adopts exactly the unclaimed changed files right in the patch's directories |
| `Ownership.ScanPatchFilesTargeted` | src/commands/re-export-scan.ts:133-176 | the targeted scan adopts the named files, or refuses a claimed or missing one |
| `PrepareLaws.ScanExactly` | src/commands/re-export-scan.ts:100-176 | a scan refuses if and only if a named file is claimed by another patch or not on disk; otherwise the row keeps the retained files still there and gains the named ones, or the changed, unignored and unclaimed files beside a retained one |
| `PrepareLaws.PrepareExactly` | src/commands/re-export-single.ts:206-334 | a refresh is ready if and only if its gates say proceed and it has a diff: the scan does not refuse, some file of the new row is there, every named addition differs from HEAD and so does some file of the row; it is refused for drift if and only if the gate for that says so and it has a diff; when it throws; and which files the ready row holds |
| `OwnershipLaws.ReadyFiles` | src/commands/re-export-single.ts:206-334 | a refreshed row holds its old files and files with a diff that no other patch claims |
| `OwnershipLaws.ReleasedFiles` | src/commands/re-export-scan.ts:188-195 | what a refresh lets go of has nothing to diff |
| `OwnershipLaws.RefreshStaysOwned` | src/commands/re-export-scan.ts:107-130 | one refresh keeps one owner a file |
| `OwnershipLaws.TurnsStayOwnedExactly` | src/commands/re-export-each.ts:78-99 | a run in turn, with any tree at every step and commits failing anywhere, keeps one owner a file if and only if no step that lands has a scan candidate that another patch holds on disk and the in-memory manifest does not know of |
| `OwnershipLaws.TurnsStayOwned` | src/commands/re-export-each.ts:78-99 | so it always does when no commit fails between its write and the in-memory row, and the manifest in memory is the one on disk |
| `OwnershipLaws.StaleMirrorExactly` | src/commands/re-export-single.ts:481-513 | one refresh against a manifest that fell behind keeps one owner a file if and only if no candidate of its scan is a file lost sight of |
| `OwnershipLaws.JudgedMeetsTheSameRows` | src/commands/re-export-each.ts:102-136 | when all commits succeed, each judged prepare meets the ownership it would meet in turn, and the store ends the same |
| `OwnershipLaws.JudgedFirstStaysOwnedExactly` | src/commands/re-export-each.ts:113-160 | any trees and any commit failures: one owner a file is kept if and only if no committed row holds a file of the old row of a patch judged ready whose commit failed before its write |
| `OwnershipLaws.JudgedFirstStaysOwned` | src/commands/re-export-each.ts:113-160 | so it always is when the tree stands still between the prepares |
| `CreationGate.PassesExactly` | src/core/patch-lint-cross.ts:218-237 | from a queue in which no file is created twice, the projection has no new duplicate creation if and only if no file is created twice in it |
| `CreationGate.GatedTurnsStayOwnedExactly` | src/commands/re-export-lint.ts:329-382 | a gated run in turn keeps one owner a file if and only if no step that lands has a scan candidate in HEAD that was lost sight of |
| `CreationGate.GatedTurnsOwnCreations` | src/commands/re-export-lint.ts:329-382 | in a gated run in turn no file outside HEAD ever gets two owners, whatever the trees, the scans and the commits that fail |
| `CreationGate.GatedJudgedStaysOwnedExactly` | src/commands/re-export-lint.ts:329-382 | a gated judged-first run keeps one owner a file if and only if no committed row holds a file of the old row of a patch judged ready whose commit failed before its write, other than one outside HEAD that this patch's body creates |
| `CreationGate.GatedJudgedOwnsCreations` | src/commands/re-export-lint.ts:329-382 | so, when every file of a row outside HEAD is created by the patch's body, no file outside HEAD gets two owners in this loop either, moving trees included |
| `CreationGate.LostSightOfIsCreated` | src/commands/re-export-single.ts:496-513 | a file outside HEAD that the in-memory row of its owner lacks is created by the body the queue context holds of that owner |
| `CreationGate.FailureAfterWriteDoublesOwners` | src/commands/re-export-single.ts:498-513 | two patches and an upstream file for which a run in turn ends with two owners, past the gate |
| `CreationGate.MovingTreeDoublesOwners` | src/commands/re-export-each.ts:119-160 | a retired upstream file that changes again between two prepares gets two owners, past the gate |
| `ReExportRun.Store.ReExportEach` | src/commands/re-export-each.ts:78-99 | store and outcome lists of the loop in turn |
| `ReExportRun.Store.ReExportJudgedFirst` | src/commands/re-export-each.ts:113-160 | the two loops leave the store and the outcome lists that `RunLaws.CommitExactly` and `RunLaws.JudgedListsExactly` tell from the steps, the store as it was when any patch was refused for drift |
| `ReExportRun.Store.CommitPreparedPatch` | src/commands/re-export-single.ts:465-514 | body and row on disk first, then the in-memory row |
| `ReExportRun.JudgedOutcomeIsExclusive` | src/commands/re-export-each.ts:43-50 | no selected patch is in two of the lists, and a drift refusal leaves `written` empty |
| `ReExportRun.EntriesCommit` | src/commands/re-export-each.ts:146-158 | committing the prepared list is committing every patch that was judged ready, in queue order |
| `RunLaws.TurnExactly` | src/commands/re-export-each.ts:78-99 | in turn: a step that proceeds with a diff writes its row unless its commit fails before that, and the in-memory row unless it fails at all; everything else stays as it was |
| `RunLaws.TurnListsExactly` | src/commands/re-export-each.ts:78-99 | written are, in queue order, the patches refreshed without a fault; failed those that threw or were refreshed with one |
| `RunLaws.CommitExactly` | src/commands/re-export-each.ts:146-158 | judged first: a prepared patch is committed with the row it was judged with, under the same two faults |
| `RunLaws.JudgedListsExactly` | src/commands/re-export-each.ts:113-160 | if some step that has a diff is refused for drift, nothing is written and exactly the patches that were ready are held back; otherwise those are written or fail with their fault |
| `RunLaws.TurnsKeepHeldBack` | src/commands/re-export-each.ts:78-99 | a patch whose gates refuse, skip or throw keeps its row on disk and in memory throughout a run in turn |
| `RunLaws.CommitsKeepHeldBack` | src/commands/re-export-each.ts:113-160 | and throughout a judged-first run |
| `ScanOwners.RejoinedSplitsExactly` | src/commands/re-export-scan-owner.ts:31-44 | a rejoined value splits into the same halves if and only if its owner can stand before that path or, without an owner, the path has no colon that an owner could stand before |
| `ScanOwners.NormalizingKeepsTheOwnerExactly` | src/commands/re-export-scan.ts:51-83 | a normalised value splits into the owner of the raw value and the rewritten path if and only if the raw value names an owner or that path reads as a path |
| `ScanOwners.StrippedPathBecomesAnOwner` | src/commands/re-export-scan.ts:51-64 | a path with a colon at the top of the engine tree, given with its `engine/`, is split as a path, normalised without it, and then splits into an owner and another path |
| `ScanOwners.DeeperPathsStayPaths` | src/commands/re-export-scan-owner.ts:31-39 | text before the colon that holds a separator is part of the path |
| `ScanOwners.SplitsExactly` | src/commands/re-export-scan-owner.ts:31-39 | a value with a colon names an owner if and only if the trimmed text before the first one is not empty, holds no separator and is no drive letter of an absolute path; otherwise it is all path |
| `ScanOwners.NormalizesExactly` | src/commands/re-export-scan.ts:68-83 | a normalised path is not empty, stays within the engine and has forward slashes only, and a path that is so already is left alone |
| `ScanOwners.StripsExactly` | src/utils/paths.ts:41-47 | the `engine` prefix is dropped in any case, with either slash and after any white space, and nothing behind it |
| `ScanOwners.UnstrippedExactly` | src/utils/paths.ts:41-47 | a path without it is left alone |
| `ScanOwners.AssignScanFileOwners` | src/commands/re-export-scan-owner.ts:77-110 | succeeds if and only if every file resolves to a selected patch and none to two, and then gives each patch exactly its files; otherwise the error is that of a value that does not resolve, or is assigned to a second patch |
| `LintPool.StepIsSafe` | src/commands/lint-per-patch.ts:369-388 | every step keeps: a taken slot is filled with its own outcome or held by exactly one worker, and at most one program was built |
| `LintPool.SlotsAreKept` | src/commands/lint-per-patch.ts:378-380 | a filled slot is never filled again |
| `LintPool.RunsFillEverySlot` | src/commands/lint-per-patch.ts:369-388 | under every interleaving of at most eight workers the finished pool holds what a serial run computes |
| `LintPool.SomeWorkerSteps` | src/commands/lint-per-patch.ts:375-381 | until all have finished some worker can step |
| `LintPool.RunsEnd` | src/commands/lint-per-patch.ts:375-386 | every step uses up some of the work left, so every run ends |
| `LintRows.CachedIsFresh` | src/commands/lint-per-patch.ts:133-165 | with keys that stand for their inputs, a cached outcome finds what a fresh lint finds |
| `LintRows.ApplyPerPatchResults` | src/commands/lint-per-patch.ts:257-350 | rows, cache writes and tallies of the ordered assembly, told by `LintReport` |
| `LintRows.CachedRunReportsTheSame` | src/commands/lint-per-patch.ts:257-388 | a concurrent run over a cache reports exactly the rows of a serial run without one |
| `LintRows.GlobalsComeOnce` | src/commands/lint-per-patch.ts:272-298 | run-level findings come once, before every row of a patch, and not at all when all were skipped |
| `LintReport.ReportExactly` | src/commands/lint-per-patch.ts:257-350 | the report is the run-level findings, once, if any patch was looked at, and then the rows of every patch that was, in order |
| `LintReport.PatchIsReported` | src/commands/lint-per-patch.ts:309-321 | every patch that was looked at has its own findings in the report, behind those of the patches before it and ahead of those behind it |
| `LintReport.FindingExactly` | src/commands/lint-per-patch.ts:115-205 | with keys that stand for their inputs, a patch comes to what its lint finds, looked up or not, and to nothing when none of its files is there |
| `LintReport.RunReportsEveryLint` | src/commands/lint-per-patch.ts:257-388 | whatever the interleaving of the workers and whichever patches the cache answers, a run reports exactly what the lints of the patches call for, in patch order |
| `LintReport.CountExactly` | src/commands/lint-per-patch.ts:257-350 | the tallies count the results looked at, skipped and answered from the cache, and the suppressed findings; the cache is dirty if and only if some result has an entry to write |
| `LintReport.LastWriteStands` | src/commands/lint-per-patch.ts:296-307 | a patch some result writes has the last entry written for it |
| `LintReport.UnwrittenStays` | src/commands/lint-per-patch.ts:296-307 | any other patch keeps its entry |
| `LintRows.WrittenIsSound` | src/commands/lint-per-patch.ts:296-307 | the entries a run writes serve the next run as well |
| `CheckJs.MergeGrouped` | src/commands/lint-per-run-checkjs.ts:120-142 | the merge loop over the second pass's map |
| `CheckJs.MergeKeepsBoth` | src/commands/lint-per-run-checkjs.ts:137-141 | a file's merged findings are those of the module pass followed by those of the test pass |
| `CheckJs.PerRunCheckJs.GetGrouped` | src/commands/lint-per-run-checkjs.ts:144-148 | the first call builds, every other one shares the build |
| `CheckJs.PerRunCheckJs.GetGlobal` | src/commands/lint-per-run-checkjs.ts:153-156 | run-level findings come from the build if there was one, else from a probe that builds nothing |
| `EngineReplacement.SurvivesExactly` | src/commands/download.ts:594-634 | for all faults, failed recoveries included: the previous tree is whole at engine/ or the backup path after every step if and only if the run takes nothing from the backup, that is, does not get to its removal or fails there before deleting anything |
| `EngineReplacement.RestoredExactly` | src/commands/download.ts:216-256 | a run that takes nothing from the backup has it back at engine/ in the end if and only if the recovery steps that ran went through |
| `EngineReplacement.AttemptsSurvive` | src/commands/download.ts:594-634 | failed attempts that recover, however many, never leave a step without the previous tree and leave it at engine/ |
| `EngineReplacement.SurvivesUntilTheDrop` | src/commands/download.ts:353-405 | the backup is removed only after activation, git initialisation and the stamp, with the previous tree whole until then |
| `EngineReplacement.SuccessIsComplete` | src/commands/download.ts:594-634 | a run that succeeds ends with the new engine in place, stamped, and nothing left beside it |
| `EngineReplacement.SweptExactly` | src/commands/download.ts:594-634 | nothing is left at the replacement path if and only if the new engine was moved in or the failed one could be removed there |
| `EngineReplacement.StampsAfterClearing` | src/commands/download.ts:353-395 | the state is stamped only once the stale state was cleared |
| `EngineReplacement.FailedDropLosesBoth` | src/commands/download.ts:403-416 | the exception: for all faults, neither path holds a whole tree in the end if and only if the backup removal fails in part and the restore then removes the new engine or part of it; the stamp is written by then |
| `EngineReplacement.StampOutlivesTheRestore` | src/commands/download.ts:395-416 | the previous engine comes back under the new stamp if and only if a step after the stamp fails, the report or a backup removal that deletes nothing, and the restore goes through |
| `EngineReplacement.Engine.ReplaceEngine` | src/commands/download.ts:594-634 | the run, step by step, leaves the history that the specification gives for its faults |
| `OrphanRepair.CollectOrphans` | src/commands/doctor-furnace-config-sync.ts:110-128 | exactly the directories the configuration does not list, with their sidecars |
| `OrphanRepair.RepairOverridesLocked` | src/commands/doctor-furnace-config-sync.ts:249-269 | the loop over the override orphans |
| `OrphanRepair.RepairKeepsEntries` | src/commands/doctor-furnace-config-sync.ts:249-269 | every freshly loaded entry is kept unchanged, and only restored names are added |
| `OrphanRepair.RepairKeepsMapsApart` | src/commands/doctor-furnace-config-sync.ts:254-260 | overrides and custom stay disjoint if they were |
| `OrphanRepair.EachOrphanHasOneFate` | src/commands/doctor-furnace-config-sync.ts:254-268 | each override orphan is reconciled if and only if its name is registered or inherited, restored if and only if it is not and its sidecar can be read, unrecoverable otherwise |
| `OrphanRepair.OverrideListsExactly` | src/commands/doctor-furnace-config-sync.ts:249-269 | so each of the three lists holds exactly those names, in the order of the orphans |
| `OrphanRepair.RestoredFromItsSidecar` | src/commands/doctor-furnace-config-sync.ts:262-264 | a restored entry is the one its sidecar gave back |
| `OrphanRepair.CleansExactly` | src/commands/doctor-furnace-config-sync.ts:272-318 | exactly the listed, empty, unregistered, readable and removable directories go |
| `OrphanRepair.RetainedExactly` | src/commands/doctor-furnace-config-sync.ts:272-318 | a directory is reported retained, or as an error, exactly for its reason |
| `OrphanRepair.StopsExactly` | src/commands/doctor-furnace-config-sync.ts:195-246 | the repair stops, with the store as it was, if and only if there is something to repair and the lock or the load fails, or something was restored and the write fails; and it names the phase |
| `OrphanRepair.RepairIsSafe` | src/commands/doctor-furnace-config-sync.ts:195-246 | whatever writers did before the lock and whatever fails, found entries are unchanged, the maps stay apart, and what is reported restored or deleted is so on disk |
| `OrphanRepair.OnlyEmptyOrphansGo` | src/commands/doctor-furnace-config-sync.ts:272-318 | a directory that is gone was listed, empty and in neither map, and every other one is as it was |
| `OrphanRepair.InOneListExactly` | src/commands/doctor-furnace-config-sync.ts:254-286 | in a repair that goes through, an override orphan is in exactly one list unless it was restored and orphaned as custom as well |
| `OrphanRepair.TwiceOrphanedIsInTwoLists` | src/commands/doctor-furnace-config-sync.ts:254-286 | a name for which it is not |
| `OrphanRepair.FurnaceStore.RepairOrphans` | src/commands/doctor-furnace-config-sync.ts:195-246 | the repair under the lock, with its phases and faults |
| `JsonEquality.DeepEqualTreesAreEqual` | src/commands/config.ts:236-251 | trees found equal are equal: as many keys and all of them are the same keys |
| `JsonEquality.ComparesTreesExactly` | src/commands/config.ts:236-251 | deep equality with a value is tree equality if and only if the value has no own empty `__proto__` object in it |
| `JsonEquality.EmptyProtoPassesForAnyField` | src/commands/config.ts:250 | a value for which it is neither equality nor symmetric |

## Left out

- Git, process spawning, real files, clocks, load averages, prompts, progress and message texts: parameters or actions that succeed or fail.
- Parsing of diffs, hunk headers and manifests (`parseDiffSections`, `parseDiffGitHeader`, `resolvePatchIdentifier`): the model starts from parsed hunks, sections, rows and resolved orders, and takes header recognition as a function.
- HunkEngine.ApplyHunksByContext: takes `"\n"` line ends as the code does; carriage returns and encodings are ordinary characters.
- EditOutcome.AppliesExactly: is about edits that replace something, since an insertion has nothing to look for; `EditOutcome.InsertsExactly` tells where one goes, and `EditOutcome.LandedDecide` and `HunkOutcome.DiffApplies` cover runs with insertions in them.
- EditLaws.Frame: is about edits with non-empty old blocks or lines in order, because an empty block skips search and floor; `EditLaws.InOrderFrame` covers every run whose edits land in order.
- HunkSelection.BuildHunkSelectedDiff: reading and checking the selection (renames, binary sections, files not owned) is left out, and git's diff of a text is a function.
- CheckRun.RunCheckSteps: needs plans without two steps of one name, as the plan builder makes them; what a step does is a function of the plan, and any subset of the running steps may complete first.
- ForeignDrift.ComputeForeignDrift: header numbers of a hunk are carried as they are; the cap on reported files is in the message, not in the result.
- Renumbering: the renumber is one atomic action with its refusals, its two staging phases and their own rollbacks are not modelled; nor are retired slots and the rewriting of staged-dependency owners, which touch no order and no filename.
- PlacementQueue.Queue.CommitPlacementExport: the lint projection and the patch policy are one yes or no, finding the anchor of `--before` and `--after` is part of the request, the history hook, which never fails the commit, is not modelled, and every step of the catch block that can succeed does.
- PlacementLaws.RestoresExactly: is about rows named after their orders, the shape the manifest code keeps; it allows shared orders.
- ReservedRanges.AssertPlacementAvoidsReservedRanges: the message text is reduced to the range and the suggested order.
- PlacementConflicts.GroupProjectedPlacementErrors: `localeCompare` sorting and `includes` are functions; the rendered detail lines are not modelled.
- PlacementConflicts.FiledExactly: is about patch names that are not empty and hold neither `,` nor `|`, and checks without `|`, the characters the compared keys are joined with; `PlacementConflicts.PreExistingIsNotBlamed` and `PlacementConflicts.GroupsPartition` hold for all names.
- CreationGate.GatedTurnsOwnCreations: is about runs without `--force-unsafe` and whole bodies, not ones built from selected hunks; the other rules of the queue lint can only refuse more, and count among the commits that fail before their write.
- Ownership: file lists are sets, so their order and the final `.sort()` are not captured; rows are looked up by filename; the gates that only read are one answer each step, the same in both loops.
- Ownership.ScanPatchFilesTargeted: the existence probes run one by one.
- `re-export --files`, dry runs, the index-lock retry and lint of refreshed patches: they leave ownership alone, or never reach these loops.
- ScanOwners.AssignScanFileOwners: resolving an identifier to a filename is part of the input.
- ScanOwners.NormalizingKeepsTheOwnerExactly: removing duplicates and sorting the normalised values is not modelled; whether a path stays within the engine, and which characters are white space, are functions, and both refusals are `None`.
- LintRows.CachedIsFresh: `lintIgnore` tokens are part of the key; that equal keys mean equal findings, and that the probe agrees with the built program, are assumptions the code makes too.
- LintPool.RunsFillEverySlot: a lint that throws ends the run and is not modelled.
- EngineReplacement.Engine.ReplaceEngine: retries of `rm` and the download itself are one step each; a download that fails leaves a partial tree at the replacement path, and a replacement path that cannot be cleaned is left as it was.
- OrphanRepair.FurnaceStore.RepairOrphans: error texts are reduced to names and phases; reading a sidecar is a function.
- JsonEquality.DeepEqualTreesAreEqual: numbers are reals without NaN, which JSON does not have; reading and changing nested keys is not modelled.
- Bootstrap, build, package, run, reset, import, most doctor checks and all help texts: sequential plumbing or easy members.
