// All or nothing, and when: what a placement commit leaves on every path.
module PlacementLaws {
  import opened Prelude
  import opened PlacementPlan
  import opened RenameMap
  import opened Renumbering
  import opened PlacementCommit
  import opened StableSort

  // The new files take the orders after the requested one, each in its name.
  ghost predicate TargetsFollow(renames: seq<Rename>, requested: nat, lead: Lead) {
    forall i | 0 <= i < |renames| ::
        lead(renames[i].to) == Some(requested + 1 + i) && renames[i].order == requested + 1 + i
  }

  // The files given up held the stretch from the requested order on.
  ghost predicate SourcesHeld(renames: seq<Rename>, requested: nat, lead: Lead) {
    forall i | 0 <= i < |renames| ::
      lead(renames[i].from).Some? && requested <= lead(renames[i].from).value <= requested + i
  }

  predicate HasRow(rows: seq<Patch>, name: string) {
    exists j | 0 <= j < |rows| :: rows[j].filename == name
  }

  ghost predicate SourcesAreRows(rows: seq<Patch>, renames: seq<Rename>) {
    forall i | 0 <= i < |renames| :: HasRow(rows, renames[i].from)
  }

  // No row that keeps its name stands in the stretch.
  ghost predicate OthersAreClear(rows: seq<Patch>, renames: seq<Rename>, requested: nat) {
    forall j | 0 <= j < |rows| && !IsSource(renames, rows[j].filename) ::
      !(requested <= rows[j].order <= requested + |renames|)
  }

  // A plan drawn up for these rows.
  ghost predicate Fits(rows: seq<Patch>, plan: Plan, lead: Lead) {
    && NamesCarryOrders(rows, lead)
    && IsMap(plan.renames)
    && lead(plan.newFilename) == Some(plan.insertionOrder)
    && TargetsFollow(plan.renames, plan.insertionOrder, lead)
    && SourcesHeld(plan.renames, plan.insertionOrder, lead)
    && SourcesAreRows(rows, plan.renames)
    && OthersAreClear(rows, plan.renames, plan.insertionOrder)
  }

  function RowsOf(state: State): seq<Patch> {
    if state.manifest.Some? then state.manifest.value else []
  }

  // ----- The new file -----------------------------------------------------------------------

  lemma CleaningForgetsTheNewFile(base: map<string, string>, name: string, text: string, snapshot: Option<string>)
    ensures RestoreFile(base[name := text], name, snapshot) == RestoreFile(base, name, snapshot)
  {
  }

  lemma CleaningRestoresTheFile(disk: map<string, string>, name: string)
    ensures RestoreFile(disk, name, Snapshot(disk, name)) == disk
  {
  }

  lemma CleaningKeepsTheMoved(disk: map<string, string>, renames: seq<Rename>, name: string)
    requires Movable(disk, renames) && !IsSource(renames, name) && !IsTarget(renames, name)
    ensures RestoreFile(MovedFiles(disk, renames), name, Snapshot(disk, name)) == MovedFiles(disk, renames)
  {
    PlacedKeeps(disk, renames, |renames|, name);
  }

  lemma LastTargetIsNew(disk: map<string, string>, rows: seq<Patch>, plan: Plan, lead: Lead)
    requires Fits(rows, plan, lead) && Movable(disk, plan.renames) && plan.renames != []
    ensures var last := plan.renames[|plan.renames| - 1].to;
            && last !in disk
            && last in RestoreFile(MovedFiles(disk, plan.renames), plan.newFilename, Snapshot(disk, plan.newFilename))
  {
    var last := plan.renames[|plan.renames| - 1].to;
    PlacedMoves(disk, plan.renames, |plan.renames|, |plan.renames| - 1);
    assert !IsSource(plan.renames, last);
  }

  // ----- The way back -----------------------------------------------------------------------

  lemma RowsComeBack(rows: seq<Patch>, plan: Plan, lead: Lead)
    requires Fits(rows, plan, lead)
    requires forall i, j | 0 <= i < j < |plan.renames| :: plan.renames[i].to != plan.renames[j].to
    ensures Relabelled(Relabelled(rows, plan.renames), Inverse(plan.renames, lead)) == rows
  {
    forall j | 0 <= j < |rows|
      ensures Relabel(Relabel(rows[j], plan.renames), Inverse(plan.renames, lead)) == rows[j]
    {
      RowReturns(rows[j], plan.renames, lead);
    }
  }

  lemma SortedRowsComeBack(rows: seq<Patch>, plan: Plan, lead: Lead)
    requires Fits(rows, plan, lead)
    requires forall i, j | 0 <= i < j < |plan.renames| :: plan.renames[i].to != plan.renames[j].to
    ensures var moved := SortBy(Relabelled(rows, plan.renames), PatchOrder);
            multiset(SortBy(Relabelled(moved, Inverse(plan.renames, lead)), PatchOrder)) == multiset(rows)
  {
    var back := Inverse(plan.renames, lead);
    var moved := Relabelled(rows, plan.renames);
    RowsComeBack(rows, plan, lead);
    MappedSort(moved, PatchOrder, (row: Patch) => Relabel(row, back));
    SortKeeps(Relabelled(SortBy(moved, PatchOrder), back), PatchOrder);
  }

  lemma WellFormedInAnyOrder(rows: seq<Patch>, others: seq<Patch>, lead: Lead)
    requires multiset(rows) == multiset(others) && NamesCarryOrders(rows, lead)
    ensures IsWellFormed(others, lead) <==> OrdersAreUnique(rows)
  {
    forall i | 0 <= i < |others|
      ensures lead(others[i].filename) == Some(others[i].order)
    {
      assert others[i] in multiset(rows);
    }
    if OrdersAreUnique(rows) {
      DistinctInAnyOrder(rows, others, PatchOrder);
    } else if OrdersAreUnique(others) {
      DistinctInAnyOrder(others, rows, PatchOrder);
    }
  }

  lemma FilesComeBack(start: State, plan: Plan, lead: Lead)
    requires Fits(RowsOf(start), plan, lead) && Movable(start.disk, plan.renames)
    ensures Movable(MovedFiles(start.disk, plan.renames), Inverse(plan.renames, lead))
    ensures MovedFiles(MovedFiles(start.disk, plan.renames), Inverse(plan.renames, lead)) == start.disk
  {
    FilesRoundTrip(start.disk, plan.renames, Inverse(plan.renames, lead));
  }

  // Before the new row is written, the inverse renumber goes through for unique orders only.
  lemma GoesBack(start: State, plan: Plan, lead: Lead)
    requires Fits(RowsOf(start), plan, lead) && plan.renames != [] && Renumbers(start, plan.renames, lead)
    ensures var moved := Renumber(start, plan.renames, lead).value;
            var back := Renumber(moved, Inverse(plan.renames, lead), lead);
            && (back.Some? <==> OrdersAreUnique(RowsOf(start)))
            && (back.Some? ==> back.value.disk == start.disk)
  {
    var rows := RowsOf(start);
    FilesComeBack(start, plan, lead);
    SortedRowsComeBack(rows, plan, lead);
    WellFormedInAnyOrder(rows,
      SortBy(Relabelled(SortBy(Relabelled(rows, plan.renames), PatchOrder), Inverse(plan.renames, lead)),
             PatchOrder), lead);
  }

  lemma SharedKey<T>(xs: seq<T>, key: T -> int, i: nat, j: nat)
    requires i < |xs| && j < |xs| && i != j && key(xs[i]) == key(xs[j])
    ensures !DistinctBy(xs, key)
  {
  }

  // A row that holds the requested order keeps the first renamed patch from getting it back.
  lemma TakenOrderStaysTaken(rows: seq<Patch>, plan: Plan, lead: Lead, row: Patch, first: Patch)
    requires row in rows && first in rows && row.filename != first.filename
    requires plan.renames != [] && forall i | 0 <= i < |plan.renames| :: lead(plan.renames[i].from).Some?
    requires var back := Inverse(plan.renames, lead);
             Relabel(row, back).order == Relabel(first, back).order
    ensures !IsWellFormed(SortBy(Relabelled(rows, Inverse(plan.renames, lead)), PatchOrder), lead)
  {
    var back := Inverse(plan.renames, lead);
    var relabelled := Relabelled(rows, back);
    var i :| 0 <= i < |rows| && rows[i] == row;
    var j :| 0 <= j < |rows| && rows[j] == first;
    assert relabelled[i].order == relabelled[j].order;
    SortKeeps(relabelled, PatchOrder);
    SharedKey(relabelled, PatchOrder, i, j);
    if OrdersAreUnique(SortBy(relabelled, PatchOrder)) {
      DistinctInAnyOrder(SortBy(relabelled, PatchOrder), relabelled, PatchOrder);
    }
  }

  // The first renamed patch after the renumber.
  lemma FirstMoved(rows: seq<Patch>, plan: Plan, lead: Lead) returns (row: Patch)
    requires Fits(rows, plan, lead) && plan.renames != []
    requires forall i, j | 0 <= i < j < |plan.renames| :: plan.renames[i].to != plan.renames[j].to
    ensures row in SortBy(Relabelled(rows, plan.renames), PatchOrder)
    ensures row.filename == plan.renames[0].to
    ensures Relabel(row, Inverse(plan.renames, lead)).order == plan.insertionOrder
  {
    var first := plan.renames[0];
    assert HasRow(rows, first.from);
    var j :| 0 <= j < |rows| && rows[j].filename == first.from;
    row := Relabelled(rows, plan.renames)[j];
    EntryOf(plan.renames, 0);
    EntryOf(Inverse(plan.renames, lead), 0);
    SortKeeps(Relabelled(rows, plan.renames), PatchOrder);
    assert row in multiset(SortBy(Relabelled(rows, plan.renames), PatchOrder));
  }

  lemma NewIsNoTarget(rows: seq<Patch>, plan: Plan, lead: Lead)
    requires Fits(rows, plan, lead)
    ensures !IsTarget(plan.renames, plan.newFilename)
  {
  }

  lemma {:induction false} KeptRows(rows: seq<Patch>, name: string, row: Patch)
    requires row in rows && row.filename != name
    ensures row in Without(rows, name)
  {
    if rows[|rows| - 1] != row {
      KeptRows(rows[..|rows| - 1], name, row);
    }
  }

  lemma AddedRows(manifest: Option<seq<Patch>>, row: Patch)
    ensures multiset(AddRow(manifest, row))
         == multiset(Without(if manifest.Some? then manifest.value else [], row.filename)) + multiset{row}
  {
    SortKeeps(Without(if manifest.Some? then manifest.value else [], row.filename) + [row], PatchOrder);
  }

  // Once the new row is in the manifest the inverse renumber refuses.
  lemma NeverGoesBackOnceAdded(start: State, plan: Plan, patch: NewPatch, lead: Lead)
    requires Fits(RowsOf(start), plan, lead) && plan.renames != [] && Renumbers(start, plan.renames, lead)
    ensures var added := AddNew(Renumber(start, plan.renames, lead).value, plan, patch);
            Renumber(added, Inverse(plan.renames, lead), lead).None?
  {
    var moved := Renumber(start, plan.renames, lead).value;
    var row := NewRow(plan, patch);
    var first := FirstMoved(RowsOf(start), plan, lead);
    NewIsNoTarget(RowsOf(start), plan, lead);
    BothAdded(moved.manifest, row, first);
    assert Entry(Inverse(plan.renames, lead), row.filename).None?;
    TakenOrderStaysTaken(AddRow(moved.manifest, row), plan, lead, row, first);
  }

  lemma BothAdded(manifest: Option<seq<Patch>>, row: Patch, other: Patch)
    requires manifest.Some? && other in manifest.value && other.filename != row.filename
    ensures row in AddRow(manifest, row) && other in AddRow(manifest, row)
  {
    KeptRows(manifest.value, row.filename, other);
    AddedRows(manifest, row);
    assert row in multiset(AddRow(manifest, row)) && other in multiset(AddRow(manifest, row));
  }

  // A new file under a renamed patch's old name is put back by the rollback, and then bars the
  // inverse renumber.
  lemma ReusedNameBarsTheWay(disk: map<string, string>, manifest: Option<seq<Patch>>, rows: seq<Patch>, plan: Plan,
                             lead: Lead)
    requires Fits(rows, plan, lead) && IsSource(plan.renames, plan.newFilename) && plan.newFilename in disk
    ensures Renumber(State(disk, manifest), Inverse(plan.renames, lead), lead).None?
  {
    var back := Inverse(plan.renames, lead);
    var i :| 0 <= i < |plan.renames| && plan.renames[i].from == plan.newFilename;
    assert back[i].to == plan.newFilename;
    NewIsNoTarget(rows, plan, lead);
    assert !IsSource(back, plan.newFilename);
  }

  // ----- All or nothing ---------------------------------------------------------------------

  lemma NothingIsNamedNew(rows: seq<Patch>, plan: Plan, lead: Lead)
    requires Fits(rows, plan, lead)
    ensures forall row | row in Relabelled(rows, plan.renames) :: row.filename != plan.newFilename
  {
    forall j | 0 <= j < |rows|
      ensures Relabel(rows[j], plan.renames).filename != plan.newFilename
    {
      NewIsNoTarget(rows, plan, lead);
      var entry := Entry(plan.renames, rows[j].filename);
      if entry.Some? {
        var i :| 0 <= i < |plan.renames| && plan.renames[i] == entry.value;
      }
    }
  }

  // A commit leaves the previewed renames and the one new patch, and nothing else.
  lemma CommittedRows(start: State, plan: Plan, patch: NewPatch, fault: Fault, lead: Lead)
    requires Fits(RowsOf(start), plan, lead) && Commit(start, plan, patch, fault, lead).committed
    ensures var after := Commit(start, plan, patch, fault, lead).state;
            && after.manifest.Some?
            && SortedBy(after.manifest.value, PatchOrder)
            && multiset(after.manifest.value)
                == multiset(Relabelled(RowsOf(start), plan.renames)) + multiset{NewRow(plan, patch)}
  {
    var moved := Renumber(start, plan.renames, lead).value;
    MovedRows(start, plan, lead);
    NothingIsNamedNew(RowsOf(start), plan, lead);
    AddedToOthers(moved.manifest, Relabelled(RowsOf(start), plan.renames), NewRow(plan, patch));
  }

  lemma MovedRows(start: State, plan: Plan, lead: Lead)
    requires Renumber(start, plan.renames, lead).Some?
    ensures multiset(RowsOf(Renumber(start, plan.renames, lead).value))
        == multiset(Relabelled(RowsOf(start), plan.renames))
  {
    if plan.renames == [] {
      assert Relabelled(RowsOf(start), []) == RowsOf(start);
    } else {
      SortKeeps(Relabelled(RowsOf(start), plan.renames), PatchOrder);
    }
  }

  lemma AddedToOthers(manifest: Option<seq<Patch>>, others: seq<Patch>, row: Patch)
    requires forall other | other in others :: other.filename != row.filename
    requires multiset(if manifest.Some? then manifest.value else []) == multiset(others)
    ensures SortedBy(AddRow(manifest, row), PatchOrder)
    ensures multiset(AddRow(manifest, row)) == multiset(others) + multiset{row}
  {
    var rows := if manifest.Some? then manifest.value else [];
    OtherRowsStay(rows, others, row.filename);
    SortKeeps(rows + [row], PatchOrder);
  }

  lemma OtherRowsStay(rows: seq<Patch>, others: seq<Patch>, name: string)
    requires multiset(rows) == multiset(others) && forall row | row in others :: row.filename != name
    ensures Without(rows, name) == rows
  {
    forall row | row in rows
      ensures row.filename != name
    {
      assert row in multiset(others);
    }
  }

  lemma CommittedFiles(start: State, plan: Plan, patch: NewPatch, fault: Fault, lead: Lead, name: string)
    requires Fits(RowsOf(start), plan, lead) && Commit(start, plan, patch, fault, lead).committed
    ensures var disk := Commit(start, plan, patch, fault, lead).state.disk;
            && plan.newFilename in disk && disk[plan.newFilename] == patch.diff
            && (forall i | 0 <= i < |plan.renames| ::
                  plan.renames[i].from in start.disk && plan.renames[i].to in disk
                  && disk[plan.renames[i].to] == start.disk[plan.renames[i].from])
            && (name != plan.newFilename && !IsTarget(plan.renames, name) ==>
                  (name in disk <==> name in start.disk && !IsSource(plan.renames, name))
                  && (name in disk ==> disk[name] == start.disk[name]))
  {
    if plan.renames != [] {
      var moved := MovedFiles(start.disk, plan.renames);
      NewIsNoTarget(RowsOf(start), plan, lead);
      forall i | 0 <= i < |plan.renames|
        ensures plan.renames[i].to in moved && moved[plan.renames[i].to] == start.disk[plan.renames[i].from]
      {
        PlacedMoves(start.disk, plan.renames, |plan.renames|, i);
      }
      if !IsTarget(plan.renames, name) {
        PlacedKeeps(start.disk, plan.renames, |plan.renames|, name);
      }
    }
  }

  // The renamed and the new file in place, and every other file as it was.
  ghost predicate FilesFollow(before: map<string, string>, after: map<string, string>, plan: Plan, patch: NewPatch) {
    && plan.newFilename in after && after[plan.newFilename] == patch.diff
    && (forall i | 0 <= i < |plan.renames| ::
          plan.renames[i].from in before && plan.renames[i].to in after
          && after[plan.renames[i].to] == before[plan.renames[i].from])
    && forall name | name != plan.newFilename && !IsTarget(plan.renames, name) ::
         && (name in after <==> name in before && !IsSource(plan.renames, name))
         && (name in after ==> after[name] == before[name])
  }

  lemma CommittedFilesFollow(start: State, plan: Plan, patch: NewPatch, fault: Fault, lead: Lead)
    requires Fits(RowsOf(start), plan, lead) && Commit(start, plan, patch, fault, lead).committed
    ensures FilesFollow(start.disk, Commit(start, plan, patch, fault, lead).state.disk, plan, patch)
  {
    var after := Commit(start, plan, patch, fault, lead).state.disk;
    CommittedFiles(start, plan, patch, fault, lead, plan.newFilename);
    forall name | name != plan.newFilename && !IsTarget(plan.renames, name)
      ensures name in after <==> name in start.disk && !IsSource(plan.renames, name)
      ensures name in after ==> after[name] == start.disk[name]
    {
      CommittedFiles(start, plan, patch, fault, lead, name);
    }
  }

  // When a failed commit leaves the queue as it found it.
  predicate Recovers(start: State, plan: Plan, fault: Fault, lead: Lead) {
    if plan.renames == [] then !(fault == AddFails(true) && start.manifest.None?)
    else
      || fault.RenumberFails?
      || Renumber(start, plan.renames, lead).None?
      || (!IsSource(plan.renames, plan.newFilename) && OrdersAreUnique(RowsOf(start)) && fault != AddFails(true))
  }

  // `text` is what is at the new patch's name, if anything was written.
  function PossiblyWritten(disk: map<string, string>, name: string, text: Option<string>): map<string, string> {
    if text.Some? then disk[name := text.value] else disk
  }

  lemma UnmovedRollBack(start: State, now: State, plan: Plan, text: Option<string>, lead: Lead)
    requires now.disk == PossiblyWritten(start.disk, plan.newFilename, text)
    ensures RollBack(start, now, plan, false, lead)
         == State(start.disk, if start.manifest.Some? then start.manifest else now.manifest)
  {
    CleaningRestoresTheFile(start.disk, plan.newFilename);
    if text.Some? {
      CleaningForgetsTheNewFile(start.disk, plan.newFilename, text.value, Snapshot(start.disk, plan.newFilename));
    }
  }

  // The rollback of a renumbered queue hangs on the inverse renumber.
  lemma MovedRollBack(start: State, now: State, plan: Plan, text: Option<string>, lead: Lead)
    requires Fits(RowsOf(start), plan, lead) && plan.renames != [] && Renumbers(start, plan.renames, lead)
    requires now.disk == PossiblyWritten(MovedFiles(start.disk, plan.renames), plan.newFilename, text)
    ensures IsSource(plan.renames, plan.newFilename) ==> RollBack(start, now, plan, true, lead) != start
    ensures !IsSource(plan.renames, plan.newFilename) ==>
              var back := Renumber(State(MovedFiles(start.disk, plan.renames), now.manifest),
                  Inverse(plan.renames, lead), lead);
              && (back.None? ==> RollBack(start, now, plan, true, lead) != start)
              && (back.Some? && back.value.disk == start.disk ==> RollBack(start, now, plan, true, lead) == start)
  {
    var moved := MovedFiles(start.disk, plan.renames);
    var snapshot := Snapshot(start.disk, plan.newFilename);
    if text.Some? {
      CleaningForgetsTheNewFile(moved, plan.newFilename, text.value, snapshot);
    }
    LastTargetIsNew(start.disk, RowsOf(start), plan, lead);
    NewIsNoTarget(RowsOf(start), plan, lead);
    var cleaned := RestoreFile(moved, plan.newFilename, snapshot);
    if IsSource(plan.renames, plan.newFilename) {
      ReusedNameBarsTheWay(cleaned, now.manifest, RowsOf(start), plan, lead);
    } else {
      CleaningKeepsTheMoved(start.disk, plan.renames, plan.newFilename);
    }
  }

  lemma WithoutRenamesRestoresExactly(start: State, plan: Plan, patch: NewPatch, fault: Fault, lead: Lead)
    requires plan.renames == [] && !CommitFrom(start, start, plan, patch, fault, lead).committed
    ensures CommitFrom(start, start, plan, patch, fault, lead).state == start
        <==> !(fault == AddFails(true) && start.manifest.None?)
  {
    var written := WriteNew(start, plan, patch);
    if fault == WriteFails(false) {
      UnmovedRollBack(start, start, plan, None, lead);
    } else {
      UnmovedRollBack(start, written, plan, Some(patch.diff), lead);
      UnmovedRollBack(start, AddNew(written, plan, patch), plan, Some(patch.diff), lead);
    }
  }

  lemma RenumberedRestoresExactly(start: State, plan: Plan, patch: NewPatch, fault: Fault, lead: Lead)
    requires Fits(RowsOf(start), plan, lead) && plan.renames != [] && Renumbers(start, plan.renames, lead)
    requires fault.WriteFails? || fault.AddFails?
    ensures var moved := Renumber(start, plan.renames, lead).value;
            CommitFrom(start, moved, plan, patch, fault, lead).state == start <==>
              !IsSource(plan.renames, plan.newFilename) && OrdersAreUnique(RowsOf(start)) && fault != AddFails(true)
  {
    var moved := Renumber(start, plan.renames, lead).value;
    var written := WriteNew(moved, plan, patch);
    GoesBack(start, plan, lead);
    if fault == WriteFails(false) {
      MovedRollBack(start, moved, plan, None, lead);
    } else if fault == AddFails(true) {
      MovedRollBack(start, AddNew(written, plan, patch), plan, Some(patch.diff), lead);
      NeverGoesBackOnceAdded(start, plan, patch, lead);
    } else {
      MovedRollBack(start, written, plan, Some(patch.diff), lead);
    }
  }

  // A failed commit restores files and manifest exactly when it never renumbered, or when the new
  // filename is none of those given up, the orders were unique, and the new row was not yet in.
  lemma RestoresExactly(start: State, plan: Plan, patch: NewPatch, fault: Fault, lead: Lead)
    requires Fits(RowsOf(start), plan, lead) && !Commit(start, plan, patch, fault, lead).committed
    ensures Commit(start, plan, patch, fault, lead).state == start <==> Recovers(start, plan, fault, lead)
  {
    var renumbered := Renumber(start, plan.renames, lead);
    if renumbered.None? || (fault.RenumberFails? && plan.renames != []) {
      UnmovedRollBack(start, start, plan, None, lead);
    } else if plan.renames == [] {
      WithoutRenamesRestoresExactly(start, plan, patch, fault, lead);
    } else {
      RenumberedRestoresExactly(start, plan, patch, fault, lead);
    }
  }

  // ----- What a renumber needs --------------------------------------------------------------

  ghost predicate UnmovedAreApart(rows: seq<Patch>, renames: seq<Rename>) {
    forall i, j | 0 <= i < j < |rows| && !IsSource(renames, rows[i].filename) && !IsSource(renames, rows[j].filename) ::
      rows[i].order != rows[j].order
  }

  lemma RelabelledOrder(rows: seq<Patch>, plan: Plan, lead: Lead, j: nat) returns (i: nat)
    requires Fits(rows, plan, lead) && j < |rows| && IsSource(plan.renames, rows[j].filename)
    ensures i < |plan.renames| && plan.renames[i].from == rows[j].filename
    ensures Relabel(rows[j], plan.renames).order == plan.insertionOrder + 1 + i
    ensures lead(Relabel(rows[j], plan.renames).filename) == Some(plan.insertionOrder + 1 + i)
  {
    var entry := Entry(plan.renames, rows[j].filename);
    i :| 0 <= i < |plan.renames| && plan.renames[i] == entry.value;
  }

  lemma RelabelledOrdersDiffer(rows: seq<Patch>, plan: Plan, lead: Lead, i: nat, j: nat)
    requires Fits(rows, plan, lead) && DistinctFilenames(rows) && UnmovedAreApart(rows, plan.renames) && i < j < |rows|
    ensures Relabel(rows[i], plan.renames).order != Relabel(rows[j], plan.renames).order
  {
    if IsSource(plan.renames, rows[i].filename) {
      var m := RelabelledOrder(rows, plan, lead, i);
      if IsSource(plan.renames, rows[j].filename) {
        var n := RelabelledOrder(rows, plan, lead, j);
      }
    } else if IsSource(plan.renames, rows[j].filename) {
      var n := RelabelledOrder(rows, plan, lead, j);
    }
  }

  lemma RelabelledNames(rows: seq<Patch>, plan: Plan, lead: Lead)
    requires Fits(rows, plan, lead)
    ensures NamesCarryOrders(Relabelled(rows, plan.renames), lead)
  {
    forall j | 0 <= j < |rows|
      ensures lead(Relabel(rows[j], plan.renames).filename) == Some(Relabel(rows[j], plan.renames).order)
    {
      if IsSource(plan.renames, rows[j].filename) {
        var i := RelabelledOrder(rows, plan, lead, j);
      }
    }
  }

  lemma UniqueWhenApart(rows: seq<Patch>, plan: Plan, lead: Lead)
    requires Fits(rows, plan, lead) && DistinctFilenames(rows) && UnmovedAreApart(rows, plan.renames)
    ensures OrdersAreUnique(Relabelled(rows, plan.renames))
  {
    var relabelled := Relabelled(rows, plan.renames);
    forall i, j | 0 <= i < j < |rows|
      ensures PatchOrder(relabelled[i]) != PatchOrder(relabelled[j])
    {
      RelabelledOrdersDiffer(rows, plan, lead, i, j);
    }
  }

  lemma ApartWhenUnique(rows: seq<Patch>, renames: seq<Rename>, i: nat, j: nat)
    requires OrdersAreUnique(Relabelled(rows, renames)) && i < j < |rows|
    requires !IsSource(renames, rows[i].filename) && !IsSource(renames, rows[j].filename)
    ensures rows[i].order != rows[j].order
  {
    assert Relabelled(rows, renames)[i] == rows[i] && Relabelled(rows, renames)[j] == rows[j];
  }

  // The renumber's own check passes exactly when the patches left in place have different orders:
  // shared orders inside the renumbered stretch come out apart.
  lemma ShapeIsKeptExactly(rows: seq<Patch>, plan: Plan, lead: Lead)
    requires Fits(rows, plan, lead) && DistinctFilenames(rows)
    ensures IsWellFormed(SortBy(Relabelled(rows, plan.renames), PatchOrder), lead)
        <==> UnmovedAreApart(rows, plan.renames)
  {
    var relabelled := Relabelled(rows, plan.renames);
    RelabelledNames(rows, plan, lead);
    SortKeeps(relabelled, PatchOrder);
    WellFormedInAnyOrder(relabelled, SortBy(relabelled, PatchOrder), lead);
    if OrdersAreUnique(relabelled) {
      forall i, j | 0 <= i < j < |rows| && !IsSource(plan.renames, rows[i].filename)
          && !IsSource(plan.renames, rows[j].filename)
        ensures rows[i].order != rows[j].order
      {
        ApartWhenUnique(rows, plan.renames, i, j);
      }
    } else if UnmovedAreApart(rows, plan.renames) {
      UniqueWhenApart(rows, plan, lead);
    }
  }

  // A write that fails after the renumber is not undone when the new filename is one of those given
  // up or two rows shared an order.
  lemma FailedWriteIsNotUndone(start: State, plan: Plan, patch: NewPatch, lead: Lead)
    requires start.manifest.Some? && Fits(RowsOf(start), plan, lead) && DistinctFilenames(RowsOf(start))
    requires Movable(start.disk, plan.renames) && UnmovedAreApart(RowsOf(start), plan.renames) && plan.renames != []
    requires IsSource(plan.renames, plan.newFilename) || !OrdersAreUnique(RowsOf(start))
    ensures var outcome := Commit(start, plan, patch, WriteFails(false), lead);
            !outcome.committed && outcome.state != start
  {
    ShapeIsKeptExactly(RowsOf(start), plan, lead);
    assert Renumber(start, plan.renames, lead).Some?;
    RestoresExactly(start, plan, patch, WriteFails(false), lead);
  }

  lemma RequestedRowsMove(rows: seq<Patch>, plan: Plan, lead: Lead, j: nat)
    requires Fits(rows, plan, lead) && j < |rows| && rows[j].order == plan.insertionOrder
    ensures IsSource(plan.renames, rows[j].filename)
  {
  }

  // A queue with its files on disk, and no file there that carries an order past the requested one,
  // has room for the cascade.
  lemma StretchIsFree(start: State, plan: Plan, lead: Lead)
    requires Fits(RowsOf(start), plan, lead)
    requires forall j | 0 <= j < |RowsOf(start)| :: RowsOf(start)[j].filename in start.disk
    requires forall name | name in start.disk && lead(name).Some? :: lead(name).value <= plan.insertionOrder
    ensures Movable(start.disk, plan.renames)
  {
    forall i | 0 <= i < |plan.renames|
      ensures plan.renames[i].from in start.disk && plan.renames[i].to !in start.disk
    {
      assert HasRow(RowsOf(start), plan.renames[i].from);
    }
  }

  // ----- The preview ------------------------------------------------------------------------

  lemma PlannedOrdersAreDistinct(rows: seq<Patch>, plan: Plan, lead: Lead)
    requires Fits(rows, plan, lead)
    ensures DistinctOrders(plan.renames)
  {
  }

  // The comparison at commit time passes exactly when the plan drawn up under the lock is the
  // previewed one: same order, same filename, and the same renames in whatever order they were put
  // into the map.
  lemma PreviewIsComparedExactly(rows: seq<Patch>, plan: Plan, expected: Plan, lead: Lead)
    requires Fits(rows, plan, lead)
    ensures PlansEqual(plan, expected)
       <==> && plan.insertionOrder == expected.insertionOrder && plan.newFilename == expected.newFilename
            && SameMap(plan.renames, expected.renames)
  {
    PlannedOrdersAreDistinct(rows, plan, lead);
    if SameMap(plan.renames, expected.renames) {
      SameMapsAreEqual(plan.renames, expected.renames);
    }
    if PlansEqual(plan, expected) {
      EqualMapsAreTheSame(plan.renames, expected.renames);
    }
  }
}
