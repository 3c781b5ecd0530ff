// The patch queue a placement commit works on, and the commit itself, step by step.
module PlacementQueue {
  import opened Prelude
  import opened PatchNames
  import opened PlacementPlan
  import opened PlacementCommit
  import PlacementFits
  import opened PlacementLaws
  import opened RenameMap
  import opened Renumbering
  import opened ReservedRanges
  import StableSort

  // `--order N`, or the order that `--before` or `--after` resolves to.
  datatype Placement = Exact(order: int) | Positional(order: int)

  datatype CommitError = BadPlan(error: PlanError) | Reserved(refusal: Refusal) | QueueChanged | Refused | Failed

  function PlanOf(rows: seq<Patch>, stem: string, placement: Placement): Plan
    requires placement.order > 0
  {
    if placement.Exact? then ExactPlanFor(rows, stem, placement.order) else PlanFor(rows, stem, placement.order)
  }

  // A positive order, and a free one when it is given exactly.
  predicate IsResolvable(rows: seq<Patch>, placement: Placement) {
    placement.order > 0 && (placement.Exact? ==> forall i | 0 <= i < |rows| :: rows[i].order != placement.order)
  }

  // The order is not positive, or the first patch that holds it is named.
  predicate Explains(rows: seq<Patch>, placement: Placement, error: PlanError) {
    if placement.order <= 0 then error == NotAPositiveOrder
    else exists i | 0 <= i < |rows| ::
           && rows[i].order == placement.order && (forall k | 0 <= k < i :: rows[k].order != placement.order)
           && error == OrderOccupied(rows[i].filename)
  }

  // A positional plan that would renumber a reserved range.
  predicate TouchesReserved(rows: seq<Patch>, stem: string, placement: Placement, ranges: Option<seq<Range>>)
    requires placement.order > 0
  {
    && placement.Positional? && ranges.Some?
    && var renames := PlanOf(rows, stem, placement).renames;
       exists i | 0 <= i < |renames| :: Touches(renames[i], rows, ranges.value)
  }

  // What the user is asked to confirm, and what the commit is about.
  datatype Request = Request(stem: string, placement: Placement, expected: Plan, patch: NewPatch,
      ranges: Option<seq<Range>>)

  // Which of its ends a commit comes to: the first refusal that applies, each of which changes
  // nothing, or the transaction on the plan, which is then the expected one.
  ghost predicate Ends(start: State, request: Request, gatesPass: bool, fault: Fault, after: State,
                       result: Result<Plan, CommitError>) {
    var rows, placement := RowsOf(start), request.placement;
    if !IsResolvable(rows, placement) then
      after == start && result.Err? && result.error.BadPlan? && Explains(rows, placement, result.error.error)
    else
      var plan := PlanOf(rows, request.stem, placement);
      if TouchesReserved(rows, request.stem, placement, request.ranges) then
        && after == start && result.Err? && result.error.Reserved?
        && RefusesFirst(plan.renames, rows, request.ranges.value, result.error.refusal)
      else if !PlansEqual(plan, request.expected) then after == start && result == Err(QueueChanged)
      else if !gatesPass then after == start && result == Err(Refused)
      else
        var outcome := Commit(start, plan, request.patch, fault, RequirePatchOrder);
        && after == outcome.state && result == (if outcome.committed then Ok(plan) else Err(Failed))
        && SameMap(plan.renames, request.expected.renames)
  }

  // Patch files and manifest rows as the source expects them of a queue.
  ghost predicate IsQueue(rows: seq<Patch>) {
    NamesCarryOrders(rows, RequirePatchOrder) && DistinctFilenames(rows)
  }

  class Queue {
    var disk: map<string, string>
    var manifest: Option<seq<Patch>>

    function Now(): State
      reads this
    {
      State(disk, manifest)
    }

    method ResolvePlacementPlan(stem: string, placement: Placement, ranges: Option<seq<Range>>)
      returns (plan: Result<Plan, CommitError>)
      ensures var rows := RowsOf(Now());
              if !IsResolvable(rows, placement) then
                plan.Err? && plan.error.BadPlan? && Explains(rows, placement, plan.error.error)
              else if TouchesReserved(rows, stem, placement, ranges) then
                && plan.Err? && plan.error.Reserved?
                && RefusesFirst(PlanOf(rows, stem, placement).renames, rows, ranges.value, plan.error.refusal)
              else plan == Ok(PlanOf(rows, stem, placement))
    {
      var rows := if manifest.Some? then manifest.value else [];
      var resolved: Result<Plan, PlanError>;
      if placement.Exact? {
        resolved := ComputeExactPlacementPlan(rows, stem, placement.order);
      } else {
        resolved := ComputePlacementPlan(rows, stem, placement.order);
      }
      if resolved.Err? {
        return Err(BadPlan(resolved.error));
      }
      if placement.Positional? {
        var refusal := AssertPlacementAvoidsReservedRanges(resolved.value.renames, rows, ranges);
        if refusal.Some? {
          return Err(Reserved(refusal.value));
        }
      }
      return Ok(resolved.value);
    }

    // Moves files and rows together, or refuses and changes nothing.
    method RenumberPatches(renames: seq<Rename>) returns (done: bool)
      modifies this
      ensures done <==> Renumber(old(Now()), renames, RequirePatchOrder).Some?
      ensures Now() == if done then Renumber(old(Now()), renames, RequirePatchOrder).value else old(Now())
    {
      var next := Renumber(Now(), renames, RequirePatchOrder);
      done := next.Some?;
      if done {
        disk, manifest := next.value.disk, next.value.manifest;
      }
    }

    // The step under the directory lock. `gatesPass` stands for the lint projection and the patch
    // policy, which only read.
    method CommitPlacementExport(request: Request, gatesPass: bool,
                                 fault: Fault) returns (result: Result<Plan, CommitError>)
      modifies this
      ensures Ends(old(Now()), request, gatesPass, fault, Now(), result)
    {
      var resolved := ResolvePlacementPlan(request.stem, request.placement, request.ranges);
      if resolved.Err? {
        return resolved;
      }
      var plan := resolved.value;
      if !PlansEqual(plan, request.expected) {
        return Err(QueueChanged);
      }
      EqualMapsAreTheSame(plan.renames, request.expected.renames);
      if !gatesPass {
        return Err(Refused);
      }
      var committed := Apply(plan, request.patch, fault);
      return if committed then Ok(plan) else Err(Failed);
    }

    method Apply(plan: Plan, patch: NewPatch, fault: Fault) returns (committed: bool)
      modifies this
      ensures Outcome(Now(), committed) == Commit(old(Now()), plan, patch, fault, RequirePatchOrder)
    {
      var originalManifest := manifest;
      var snapshot := Snapshot(disk, plan.newFilename);
      var renumberApplied := false;
      if plan.renames != [] {
        if !fault.RenumberFails? {
          renumberApplied := RenumberPatches(plan.renames);
        }
        if !renumberApplied {
          Restore(plan, snapshot, originalManifest, false);
          return false;
        }
      }
      if !fault.WriteFails? || fault.landed {
        disk := disk[plan.newFilename := patch.diff];
      }
      if fault.WriteFails? {
        Restore(plan, snapshot, originalManifest, renumberApplied);
        return false;
      }
      if !fault.AddFails? || fault.landed {
        manifest := Some(AddRow(manifest, NewRow(plan, patch)));
      }
      if fault.AddFails? {
        Restore(plan, snapshot, originalManifest, renumberApplied);
        return false;
      }
      return true;
    }

    // The catch block, with every step that can succeed succeeding.
    method Restore(plan: Plan, snapshot: Option<string>, originalManifest: Option<seq<Patch>>, renumberApplied: bool)
      modifies this
      ensures forall start: State |
                start.manifest == originalManifest && Snapshot(start.disk, plan.newFilename) == snapshot ::
                Now() == RollBack(start, old(Now()), plan, renumberApplied, RequirePatchOrder)
    {
      if snapshot.None? {
        disk := disk - {plan.newFilename};
      } else {
        disk := disk[plan.newFilename := snapshot.value];
      }
      if renumberApplied {
        if exists i | 0 <= i < |plan.renames| :: RequirePatchOrder(plan.renames[i].from).None? {
          return;
        }
        var _ := RenumberPatches(Inverse(plan.renames, RequirePatchOrder));
      }
      if originalManifest.Some? {
        manifest := originalManifest;
      }
    }
  }

  lemma PlanOfFits(rows: seq<Patch>, stem: string, placement: Placement)
    requires IsQueue(rows) && IsResolvable(rows, placement)
    ensures Fits(rows, PlanOf(rows, stem, placement), RequirePatchOrder)
  {
    if placement.Exact? {
      PlacementFits.ExactPlanFits(rows, stem, placement.order);
    } else {
      PlacementFits.PositionalPlanFits(rows, stem, placement.order);
    }
  }

  // A commit that ends is all or nothing, but for the failures that `Recovers` leaves out.
  lemma AllOrNothing(start: State, stem: string, placement: Placement, patch: NewPatch, fault: Fault)
    requires IsQueue(RowsOf(start)) && IsResolvable(RowsOf(start), placement)
    ensures var plan := PlanOf(RowsOf(start), stem, placement);
            var outcome := Commit(start, plan, patch, fault, RequirePatchOrder);
            if outcome.committed then
              && outcome.state.manifest.Some?
              && multiset(outcome.state.manifest.value)
                 == multiset(Relabelled(RowsOf(start), plan.renames)) + multiset{NewRow(plan, patch)}
              && StableSort.SortedBy(outcome.state.manifest.value, PatchOrder)
              && FilesFollow(start.disk, outcome.state.disk, plan, patch)
            else
              outcome.state == start <==> Recovers(start, plan, fault, RequirePatchOrder)
  {
    var plan := PlanOf(RowsOf(start), stem, placement);
    PlanOfFits(RowsOf(start), stem, placement);
    if Commit(start, plan, patch, fault, RequirePatchOrder).committed {
      CommittedRows(start, plan, patch, fault, RequirePatchOrder);
      CommittedFilesFollow(start, plan, patch, fault, RequirePatchOrder);
    } else {
      RestoresExactly(start, plan, patch, fault, RequirePatchOrder);
    }
  }

  // ----- Failures that are not undone -------------------------------------------------------

  // `005-ui-a.patch` for `ui-a` at 5.
  function PatchFile(stem: string, order: nat): string {
    Named(order, 3, stem + ".patch")
  }

  // One patch at order 5, and a new one of the same category and name to go before it.
  function OnePatch(): State {
    State(map[PatchFile("ui-a", 5) := "old"], Some([Patch(PatchFile("ui-a", 5), 5, "row")]))
  }

  lemma OnePatchIsAQueue()
    ensures IsQueue(RowsOf(OnePatch()))
  {
    NamedParsesBack(5, 3, "ui-a" + ".patch");
  }

  // The prefix is as wide as the one in use, so the new patch takes the old one's name.
  lemma OnePatchIsRenamedAway()
    ensures PlanFor(RowsOf(OnePatch()), "ui-a", 5).newFilename == PatchFile("ui-a", 5)
  {
    var digits, rest := FormatPatchOrder(5, 3), "-" + ("ui-a" + ".patch");
    assert |Decimal(5)| == 1;
    assert PatchFile("ui-a", 5) == digits + rest;
    DigitCountOf(digits, rest);
    assert RowsOf(OnePatch())[..0] == [];
  }

  lemma OneRow(start: State, plan: Plan, lead: Lead, name: string)
    requires start == State(map[name := "old"], Some([Patch(name, 5, "row")]))
    requires Fits(RowsOf(start), plan, lead) && plan.insertionOrder == 5 && plan.newFilename == name
    ensures DistinctFilenames(RowsOf(start)) && UnmovedAreApart(RowsOf(start), plan.renames)
    ensures Movable(start.disk, plan.renames) && IsSource(plan.renames, plan.newFilename) && plan.renames != []
  {
    RequestedRowsMove(RowsOf(start), plan, lead, 0);
    StretchIsFree(start, plan, lead);
  }

  // The write fails after the renumber, and the rollback does not bring the old patch back.
  lemma ReusedNameIsNotRestored(patch: NewPatch)
    ensures IsQueue(RowsOf(OnePatch()))
    ensures var plan := PlanFor(RowsOf(OnePatch()), "ui-a", 5);
            var outcome := Commit(OnePatch(), plan, patch, WriteFails(false), RequirePatchOrder);
            !outcome.committed && outcome.state != OnePatch()
  {
    var plan := PlanFor(RowsOf(OnePatch()), "ui-a", 5);
    OnePatchIsAQueue();
    OnePatchIsRenamedAway();
    PlacementFits.PositionalPlanFits(RowsOf(OnePatch()), "ui-a", 5);
    OneRow(OnePatch(), plan, RequirePatchOrder, PatchFile("ui-a", 5));
    FailedWriteIsNotUndone(OnePatch(), plan, patch, RequirePatchOrder);
  }

  // Two patches at order 5.
  function TwoPatches(): State {
    var a, b := PatchFile("ui-a", 5), PatchFile("ui-b", 5);
    State(map[a := "first", b := "second"], Some([Patch(a, 5, "row"), Patch(b, 5, "row")]))
  }

  lemma StemIsInTheName(stem: string, order: nat)
    ensures RequirePatchOrder(PatchFile(stem, order)) == Some(order)
    ensures Rest(PatchFile(stem, order)) == stem + ".patch"
  {
    NamedParsesBack(order, 3, stem + ".patch");
  }

  lemma TwoPatchesAreAQueue()
    ensures IsQueue(RowsOf(TwoPatches())) && PatchFile("ui-a", 5) != PatchFile("ui-b", 5)
  {
    var a, b := PatchFile("ui-a", 5), PatchFile("ui-b", 5);
    StemIsInTheName("ui-a", 5);
    StemIsInTheName("ui-b", 5);
    assert Rest(a)[3] != Rest(b)[3];
    TwoRowsAreAQueue(a, b);
  }

  lemma TwoRowsAreAQueue(a: string, b: string)
    requires a != b && RequirePatchOrder(a) == RequirePatchOrder(b) == Some(5)
    ensures IsQueue([Patch(a, 5, "row"), Patch(b, 5, "row")])
  {
  }

  lemma TwoRows(start: State, plan: Plan, lead: Lead, a: string, b: string)
    requires a != b && start == State(map[a := "first", b := "second"], Some([Patch(a, 5, "row"), Patch(b, 5, "row")]))
    requires Fits(RowsOf(start), plan, lead) && plan.insertionOrder == 5
    ensures DistinctFilenames(RowsOf(start)) && UnmovedAreApart(RowsOf(start), plan.renames)
    ensures Movable(start.disk, plan.renames) && plan.renames != [] && !OrdersAreUnique(RowsOf(start))
  {
    var rows := RowsOf(start);
    RequestedRowsMove(rows, plan, lead, 0);
    RequestedRowsMove(rows, plan, lead, 1);
    assert lead(rows[0].filename) == Some(5) && lead(rows[1].filename) == Some(5);
    StretchIsFree(start, plan, lead);
    SharedKey(rows, PatchOrder, 0, 1);
  }

  // Both move apart, and a failing write finds no way back to the order they shared.
  lemma SharedOrderIsNotRestored(stem: string, patch: NewPatch)
    ensures IsQueue(RowsOf(TwoPatches()))
    ensures var plan := PlanFor(RowsOf(TwoPatches()), stem, 5);
            var outcome := Commit(TwoPatches(), plan, patch, WriteFails(false), RequirePatchOrder);
            !outcome.committed && outcome.state != TwoPatches()
  {
    var plan := PlanFor(RowsOf(TwoPatches()), stem, 5);
    TwoPatchesAreAQueue();
    PlacementFits.PositionalPlanFits(RowsOf(TwoPatches()), stem, 5);
    TwoRows(TwoPatches(), plan, RequirePatchOrder, PatchFile("ui-a", 5), PatchFile("ui-b", 5));
    FailedWriteIsNotUndone(TwoPatches(), plan, patch, RequirePatchOrder);
  }
}
