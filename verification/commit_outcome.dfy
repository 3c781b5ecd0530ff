// When a placement commit goes through, and what a failed one leaves, told from the queue and the
// plan.
module CommitOutcome {
  import opened Prelude
  import opened PlacementPlan
  import opened PlacementCommit
  import opened PlacementLaws
  import opened RenameMap
  import opened Renumbering
  import StableSort

  // A manifest, every file to rename on disk, no file in the way of a new name but one that is itself
  // renamed, and different orders for the patches left in place.
  ghost predicate CanRenumber(start: State, plan: Plan) {
    && start.manifest.Some?
    && (forall i | 0 <= i < |plan.renames| ::
          plan.renames[i].from in start.disk
          && (plan.renames[i].to in start.disk ==>
                exists j | 0 <= j < |plan.renames| :: plan.renames[j].from == plan.renames[i].to))
    && UnmovedAreApart(start.manifest.value, plan.renames)
  }

  lemma RenumbersExactly(start: State, plan: Plan, lead: Lead)
    requires Fits(RowsOf(start), plan, lead) && DistinctFilenames(RowsOf(start)) && plan.renames != []
    ensures Renumber(start, plan.renames, lead).Some? <==> CanRenumber(start, plan)
  {
    ShapeIsKeptExactly(RowsOf(start), plan, lead);
    forall i, j | 0 <= i < j < |plan.renames|
      ensures plan.renames[i].to != plan.renames[j].to
    {
      assert lead(plan.renames[i].to) != lead(plan.renames[j].to);
    }
  }

  // The queue was renumbered before the step that fails, if any does.
  ghost predicate WasRenumbered(start: State, plan: Plan, fault: Fault) {
    plan.renames != [] && CanRenumber(start, plan) && !fault.RenumberFails?
  }

  // A commit goes through exactly when the renumber it needs can and does, and nothing after it fails.
  lemma CommitsExactly(start: State, plan: Plan, patch: NewPatch, fault: Fault, lead: Lead)
    requires Fits(RowsOf(start), plan, lead) && DistinctFilenames(RowsOf(start))
    ensures Commit(start, plan, patch, fault, lead).committed
       <==> (plan.renames == [] || WasRenumbered(start, plan, fault)) && !fault.WriteFails? && !fault.AddFails?
  {
    if plan.renames != [] {
      RenumbersExactly(start, plan, lead);
    }
  }

  // ----- Rows -------------------------------------------------------------------------------

  // A renamed row gets the name and the order of its rename and keeps everything else; any other row
  // stays as it is.
  lemma RowsMoveExactly(row: Patch, renames: seq<Rename>)
    requires IsMap(renames)
    ensures forall i | 0 <= i < |renames| && renames[i].from == row.filename ::
              Relabel(row, renames) == Patch(renames[i].to, renames[i].order, row.details)
    ensures (forall i | 0 <= i < |renames| :: renames[i].from != row.filename) ==> Relabel(row, renames) == row
  {
    forall i | 0 <= i < |renames| && renames[i].from == row.filename
      ensures Relabel(row, renames) == Patch(renames[i].to, renames[i].order, row.details)
    {
      EntryOf(renames, i);
    }
  }

  lemma RelabelledExactly(rows: seq<Patch>, renames: seq<Rename>)
    ensures |Relabelled(rows, renames)| == |rows|
    ensures forall i | 0 <= i < |rows| :: Relabelled(rows, renames)[i] == Relabel(rows[i], renames)
  {
  }

  // What the manifest holds after a commit, in its order.
  lemma CommittedManifest(start: State, plan: Plan, patch: NewPatch, fault: Fault, lead: Lead)
    requires Fits(RowsOf(start), plan, lead) && Commit(start, plan, patch, fault, lead).committed
    ensures var after := Commit(start, plan, patch, fault, lead).state;
            && after.manifest.Some?
            && multiset(after.manifest.value)
               == multiset(Relabelled(RowsOf(start), plan.renames))
                  + multiset{Patch(plan.newFilename, plan.insertionOrder, patch.details)}
            && forall i, j | 0 <= i < j < |after.manifest.value| ::
                 after.manifest.value[i].order <= after.manifest.value[j].order
  {
    CommittedRows(start, plan, patch, fault, lead);
    InOrder(Commit(start, plan, patch, fault, lead).state.manifest.value);
  }

  lemma InOrder(rows: seq<Patch>)
    requires StableSort.SortedBy(rows, PatchOrder)
    ensures forall i, j | 0 <= i < j < |rows| :: rows[i].order <= rows[j].order
  {
    forall i, j | 0 <= i < j < |rows|
      ensures rows[i].order <= rows[j].order
    {
      assert PatchOrder(rows[i]) <= PatchOrder(rows[j]);
    }
  }

  // ----- A failed commit --------------------------------------------------------------------

  // The renamed files at their new names, the new patch's name as it was before, every other file
  // untouched.
  ghost predicate StaysMoved(before: map<string, string>, after: map<string, string>, plan: Plan) {
    && (forall i | 0 <= i < |plan.renames| ::
          plan.renames[i].from in before && plan.renames[i].to in after
          && after[plan.renames[i].to] == before[plan.renames[i].from])
    && (plan.newFilename in after <==> plan.newFilename in before)
    && (plan.newFilename in before ==> after[plan.newFilename] == before[plan.newFilename])
    && forall name | name != plan.newFilename && !IsTarget(plan.renames, name) ::
         && (name in after <==> name in before && !IsSource(plan.renames, name))
         && (name in after ==> after[name] == before[name])
  }

  lemma CleanedStaysMoved(start: State, plan: Plan, lead: Lead)
    requires Fits(RowsOf(start), plan, lead) && Movable(start.disk, plan.renames)
    ensures StaysMoved(start.disk,
                       RestoreFile(MovedFiles(start.disk, plan.renames), plan.newFilename,
                                   Snapshot(start.disk, plan.newFilename)), plan)
  {
    var moved := MovedFiles(start.disk, plan.renames);
    NewIsNoTarget(RowsOf(start), plan, lead);
    forall i | 0 <= i < |plan.renames|
      ensures plan.renames[i].to in moved && moved[plan.renames[i].to] == start.disk[plan.renames[i].from]
    {
      PlacedMoves(start.disk, plan.renames, |plan.renames|, i);
    }
    forall name | !IsTarget(plan.renames, name)
      ensures name in moved <==> name in start.disk && !IsSource(plan.renames, name)
      ensures name in moved ==> moved[name] == start.disk[name]
    {
      PlacedKeeps(start.disk, plan.renames, |plan.renames|, name);
    }
  }

  // The rollback of a renumbered queue: the manifest is the one from before, and the files are back
  // where they were when the inverse renumber goes through, at their new names when it does not.
  lemma MovedRollsBackTo(start: State, now: State, plan: Plan, patch: NewPatch, lead: Lead)
    requires Fits(RowsOf(start), plan, lead) && plan.renames != [] && Renumbers(start, plan.renames, lead)
    requires var moved := MovedFiles(start.disk, plan.renames);
             now.disk == moved || now.disk == moved[plan.newFilename := patch.diff]
    ensures var cleaned := RestoreFile(MovedFiles(start.disk, plan.renames), plan.newFilename,
                                       Snapshot(start.disk, plan.newFilename));
            var back := Renumber(State(cleaned, now.manifest), Inverse(plan.renames, lead), lead);
            RollBack(start, now, plan, true, lead)
            == State(if back.Some? then back.value.disk else cleaned, start.manifest)
  {
    CleaningForgetsTheNewFile(MovedFiles(start.disk, plan.renames), plan.newFilename, patch.diff,
        Snapshot(start.disk, plan.newFilename));
  }

  // Whether the files come back: the new name is none of those given up, no two patches shared an
  // order, and the new row was not in yet.
  ghost predicate FilesReturn(start: State, plan: Plan, fault: Fault) {
    && (forall i | 0 <= i < |plan.renames| :: plan.renames[i].from != plan.newFilename)
    && (forall i, j | 0 <= i < j < |RowsOf(start)| :: RowsOf(start)[i].order != RowsOf(start)[j].order)
    && fault != AddFails(true)
  }

  lemma UniqueOrders(rows: seq<Patch>)
    ensures OrdersAreUnique(rows) <==> forall i, j | 0 <= i < j < |rows| :: rows[i].order != rows[j].order
  {
    if OrdersAreUnique(rows) {
      forall i, j | 0 <= i < j < |rows|
        ensures rows[i].order != rows[j].order
      {
        assert PatchOrder(rows[i]) != PatchOrder(rows[j]);
      }
    }
  }

  lemma RolledBack(start: State, now: State, plan: Plan, patch: NewPatch, lead: Lead)
    requires Fits(RowsOf(start), plan, lead) && plan.renames != [] && Renumbers(start, plan.renames, lead)
    requires var moved := MovedFiles(start.disk, plan.renames);
             now.disk == moved || now.disk == moved[plan.newFilename := patch.diff]
    ensures var after := RollBack(start, now, plan, true, lead);
            var back := Renumber(State(MovedFiles(start.disk, plan.renames), now.manifest),
                                 Inverse(plan.renames, lead), lead);
            && after.manifest == start.manifest
            && (if !IsSource(plan.renames, plan.newFilename) && back.Some? then after.disk == back.value.disk
                else StaysMoved(start.disk, after.disk, plan))
  {
    MovedRollsBackTo(start, now, plan, patch, lead);
    CleanedStaysMoved(start, plan, lead);
    if IsSource(plan.renames, plan.newFilename) {
      ReusedNameBarsTheWay(RestoreFile(MovedFiles(start.disk, plan.renames), plan.newFilename,
                                       Snapshot(start.disk, plan.newFilename)),
                           now.manifest, RowsOf(start), plan, lead);
    } else {
      CleaningKeepsTheMoved(start.disk, plan.renames, plan.newFilename);
    }
  }

  lemma AddedFailsAs(start: State, plan: Plan, patch: NewPatch, lead: Lead)
    requires Fits(RowsOf(start), plan, lead) && plan.renames != [] && Renumbers(start, plan.renames, lead)
    ensures var after := Commit(start, plan, patch, AddFails(true), lead).state;
            after.manifest == start.manifest && StaysMoved(start.disk, after.disk, plan)
  {
    var added := AddNew(WriteNew(Renumber(start, plan.renames, lead).value, plan, patch), plan, patch);
    RefusesOnceAdded(start, plan, patch, lead, added);
    RolledBack(start, added, plan, patch, lead);
  }

  lemma UnaddedRollsBack(start: State, now: State, plan: Plan, patch: NewPatch, lead: Lead)
    requires Fits(RowsOf(start), plan, lead) && plan.renames != [] && Renumbers(start, plan.renames, lead)
    requires var moved := Renumber(start, plan.renames, lead).value;
             now == moved || now == WriteNew(moved, plan, patch)
    ensures var after := RollBack(start, now, plan, true, lead);
            && after.manifest == start.manifest
            && (if !IsSource(plan.renames, plan.newFilename) && OrdersAreUnique(RowsOf(start)) then
                  after.disk == start.disk
                else StaysMoved(start.disk, after.disk, plan))
  {
    GoesBack(start, plan, lead);
    RolledBack(start, now, plan, patch, lead);
  }

  lemma UnaddedFailsAs(start: State, plan: Plan, patch: NewPatch, fault: Fault, lead: Lead)
    requires Fits(RowsOf(start), plan, lead) && plan.renames != [] && Renumbers(start, plan.renames, lead)
    requires fault.WriteFails? || fault == AddFails(false)
    ensures var after := Commit(start, plan, patch, fault, lead).state;
            && after.manifest == start.manifest
            && (if FilesReturn(start, plan, fault) then after.disk == start.disk
                else StaysMoved(start.disk, after.disk, plan))
  {
    var moved := Renumber(start, plan.renames, lead).value;
    UniqueOrders(RowsOf(start));
    UnaddedRollsBack(start, if fault == WriteFails(false) then moved else WriteNew(moved, plan, patch), plan, patch,
        lead);
  }

  lemma RefusesOnceAdded(start: State, plan: Plan, patch: NewPatch, lead: Lead, added: State)
    requires Fits(RowsOf(start), plan, lead) && plan.renames != [] && Renumbers(start, plan.renames, lead)
    requires added == AddNew(WriteNew(Renumber(start, plan.renames, lead).value, plan, patch), plan, patch)
    ensures var back := State(MovedFiles(start.disk, plan.renames), added.manifest);
            Renumber(back, Inverse(plan.renames, lead), lead).None?
  {
    NeverGoesBackOnceAdded(start, plan, patch, lead);
    var moved := Renumber(start, plan.renames, lead).value;
    assert AddNew(moved, plan, patch) == State(MovedFiles(start.disk, plan.renames), added.manifest);
  }

  // Every end of a failed commit. Before the renumber, or without one, all is as it was, but for a
  // manifest that did not exist and was written before the failure. After it the manifest is as it
  // was, and the files are or, when something bars the way back, stay renamed.
  lemma FailsExactly(start: State, plan: Plan, patch: NewPatch, fault: Fault, lead: Lead)
    requires Fits(RowsOf(start), plan, lead) && DistinctFilenames(RowsOf(start))
    requires !Commit(start, plan, patch, fault, lead).committed
    ensures var after := Commit(start, plan, patch, fault, lead).state;
            if WasRenumbered(start, plan, fault) then
              && after.manifest == start.manifest
              && (if FilesReturn(start, plan, fault) then after.disk == start.disk
                  else StaysMoved(start.disk, after.disk, plan))
            else
              && after.disk == start.disk
              && after.manifest == if plan.renames == [] && fault == AddFails(true) && start.manifest.None? then
                                     Some([Patch(plan.newFilename, plan.insertionOrder, patch.details)])
                                   else start.manifest
  {
    if plan.renames != [] {
      RenumbersExactly(start, plan, lead);
      if WasRenumbered(start, plan, fault) {
        if fault == AddFails(true) {
          AddedFailsAs(start, plan, patch, lead);
        } else {
          UnaddedFailsAs(start, plan, patch, fault, lead);
        }
      } else {
        UnmovedRollBack(start, start, plan, None, lead);
      }
    } else {
      UnmovedFailsAs(start, plan, patch, fault, lead);
    }
  }

  lemma UnmovedFailsAs(start: State, plan: Plan, patch: NewPatch, fault: Fault, lead: Lead)
    requires plan.renames == [] && (fault.WriteFails? || fault.AddFails?)
    ensures Commit(start, plan, patch, fault, lead).state
         == State(start.disk, if fault == AddFails(true) && start.manifest.None? then
              Some([Patch(plan.newFilename, plan.insertionOrder, patch.details)]) else start.manifest)
  {
    var written := WriteNew(start, plan, patch);
    if fault == WriteFails(false) {
      UnmovedRollBack(start, start, plan, None, lead);
    } else {
      UnmovedRollBack(start, written, plan, Some(patch.diff), lead);
      UnmovedRollBack(start, AddNew(written, plan, patch), plan, Some(patch.diff), lead);
      assert Without([], plan.newFilename) == [];
      OneRowSorted(NewRow(plan, patch));
    }
  }

  lemma OneRowSorted(row: Patch)
    ensures StableSort.SortBy([row], PatchOrder) == [row]
  {
  }
}
