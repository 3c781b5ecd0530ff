// `commitPlacementExport` of src/commands/export-flow.ts: renumber, write the new patch, add its
// row, and roll all of it back when one of them fails.
module PlacementCommit {
  import opened Prelude
  import opened PlacementPlan
  import opened RenameMap
  import opened Renumbering
  import StableSort

  // Which of the three steps fails, and whether its write had reached the disk by then.
  datatype Fault = NoFault | RenumberFails | WriteFails(landed: bool) | AddFails(landed: bool)

  // The new patch: its body and the manifest fields besides name and order.
  datatype NewPatch = NewPatch(diff: string, details: string)

  function PlansEqual(left: Plan, right: Plan): bool {
    && left.insertionOrder == right.insertionOrder
    && left.newFilename == right.newFilename
    && RenameMapsEqual(left.renames, right.renames)
  }

  function Without(rows: seq<Patch>, name: string): (kept: seq<Patch>)
    ensures (forall row | row in rows :: row.filename != name) ==> kept == rows
  {
    if rows == [] then []
    else if rows[|rows| - 1].filename == name then Without(rows[..|rows| - 1], name)
    else
      var last := rows[|rows| - 1];
      assert rows == rows[..|rows| - 1] + [last];
      Without(rows[..|rows| - 1], name) + [last]
  }

  // `addPatchToManifest`
  function AddRow(manifest: Option<seq<Patch>>, row: Patch): seq<Patch> {
    var rows := if manifest.Some? then manifest.value else [];
    StableSort.SortBy(Without(rows, row.filename) + [row], PatchOrder)
  }

  function NewRow(plan: Plan, patch: NewPatch): Patch {
    Patch(plan.newFilename, plan.insertionOrder, patch.details)
  }

  function WriteNew(state: State, plan: Plan, patch: NewPatch): State {
    state.(disk := state.disk[plan.newFilename := patch.diff])
  }

  function AddNew(state: State, plan: Plan, patch: NewPatch): State {
    state.(manifest := Some(AddRow(state.manifest, NewRow(plan, patch))))
  }

  // ----- Rolling back -----------------------------------------------------------------------

  // The file at the new patch's name as it was before the renumber, or no file.
  function RestoreFile(disk: map<string, string>, name: string, snapshot: Option<string>): map<string, string> {
    if snapshot.Some? then disk[name := snapshot.value] else disk - {name}
  }

  function Snapshot(disk: map<string, string>, name: string): Option<string> {
    if name in disk then Some(disk[name]) else None
  }

  // The renumber of the rollback. Only an old filename without an order makes this step throw; a
  // refused renumber is a warning.
  function RenumberBack(state: State, renames: seq<Rename>, lead: Lead): Result<State, State> {
    if exists i | 0 <= i < |renames| :: lead(renames[i].from).None? then Err(state)
    else
      var back := Renumber(state, Inverse(renames, lead), lead);
      Ok(if back.Some? then back.value else state)
  }

  function RollBack(start: State, now: State, plan: Plan, renumbered: bool, lead: Lead): State {
    var snapshot := Snapshot(start.disk, plan.newFilename);
    var cleaned := now.(disk := RestoreFile(now.disk, plan.newFilename, snapshot));
    var back := if renumbered then RenumberBack(cleaned, plan.renames, lead) else Ok(cleaned);
    if back.Err? then back.error
    else if start.manifest.Some? then back.value.(manifest := start.manifest)
    else back.value
  }

  // ----- The whole step ---------------------------------------------------------------------

  datatype Outcome = Outcome(state: State, committed: bool)

  function CommitFrom(start: State, renumbered: State, plan: Plan, patch: NewPatch, fault: Fault, lead: Lead): Outcome {
    var moved := plan.renames != [];
    var written := WriteNew(renumbered, plan, patch);
    var added := AddNew(written, plan, patch);
    if fault.WriteFails? then
      Outcome(RollBack(start, if fault.landed then written else renumbered, plan, moved, lead), false)
    else if fault.AddFails? then
      Outcome(RollBack(start, if fault.landed then added else written, plan, moved, lead), false)
    else Outcome(added, true)
  }

  function Commit(start: State, plan: Plan, patch: NewPatch, fault: Fault, lead: Lead): Outcome {
    var renumbered := Renumber(start, plan.renames, lead);
    if renumbered.None? || (fault.RenumberFails? && plan.renames != []) then
      Outcome(RollBack(start, start, plan, false, lead), false)
    else CommitFrom(start, renumbered.value, plan, patch, fault, lead)
  }
}
