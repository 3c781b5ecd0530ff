// Plans fit the queue they were drawn up for.
module PlacementFits {
  import opened Prelude
  import opened PatchNames
  import opened PlacementPlan
  import opened PlacementLaws
  import opened RenameMap
  import opened Renumbering
  import opened StableSort
  import Cascade

  // What the cascade needs of the names it hands out: they keep their origin and carry their order.
  ghost predicate CarriesOrders(renamed: (string, nat) -> Rename, lead: Lead) {
    forall name: string, order: nat ::
      var rename := renamed(name, order);
      rename.from == name && rename.order == order && lead(rename.to) == Some(order)
  }

  lemma RenamerCarriesOrders(width: nat)
    ensures CarriesOrders(Renamer(width), RequirePatchOrder)
  {
    forall name: string, order: nat
      ensures RequirePatchOrder(Renamer(width)(name, order).to) == Some(order)
    {
      NamedParsesBack(order, width, Rest(name));
    }
  }

  lemma SortedNames(rows: seq<Patch>, lead: Lead)
    requires NamesCarryOrders(rows, lead) && DistinctFilenames(rows)
    ensures var sorted := SortBy(rows, PatchOrder);
            NamesCarryOrders(sorted, lead) && DistinctFilenames(sorted) && Cascade.Sorted(Orders(sorted))
  {
    var sorted := SortBy(rows, PatchOrder);
    SortedOrders(rows);
    forall i | 0 <= i < |sorted|
      ensures lead(sorted[i].filename) == Some(sorted[i].order)
    {
      assert sorted[i] in multiset(rows);
    }
    forall i, j | 0 <= i < j < |sorted|
      ensures sorted[i].filename != sorted[j].filename
    {
      ApartInAnyOrder(rows, sorted, (row: Patch) => row.filename, i, j);
    }
  }

  ghost predicate Cascades(sorted: seq<Patch>, requested: nat, renames: seq<Rename>, renamed: (string, nat) -> Rename) {
    var orders := Orders(sorted);
    && Cascade.Sorted(orders)
    && renames == Renames(sorted, requested, renamed, Cascade.First(orders, requested),
        Cascade.Moved(orders, requested))
  }

  lemma RenameOf(sorted: seq<Patch>, requested: nat, renames: seq<Rename>, renamed: (string, nat) -> Rename,
                 lead: Lead, i: nat)
    requires Cascades(sorted, requested, renames, renamed) && CarriesOrders(renamed, lead) && i < |renames|
    ensures Cascade.First(Orders(sorted), requested) + i < |sorted|
    ensures renames[i].from == sorted[Cascade.First(Orders(sorted), requested) + i].filename
    ensures renames[i].order == requested + 1 + i && lead(renames[i].to) == Some(requested + 1 + i)
  {
    assert renames[i] == renamed(sorted[Cascade.First(Orders(sorted), requested) + i].filename, requested + i + 1);
  }

  lemma CascadeTargetsFollow(sorted: seq<Patch>, requested: nat, renames: seq<Rename>, renamed: (string, nat) -> Rename,
                             lead: Lead)
    requires Cascades(sorted, requested, renames, renamed) && CarriesOrders(renamed, lead)
    ensures TargetsFollow(renames, requested, lead)
  {
    forall i | 0 <= i < |renames|
      ensures lead(renames[i].to) == Some(requested + 1 + i) && renames[i].order == requested + 1 + i
    {
      RenameOf(sorted, requested, renames, renamed, lead, i);
    }
  }

  lemma MetInTheStretch(orders: seq<int>, requested: nat, i: nat)
    requires Cascade.Sorted(orders) && i < Cascade.Moved(orders, requested)
    ensures requested <= orders[Cascade.First(orders, requested) + i] <= requested + i
  {
    var first := Cascade.First(orders, requested);
    assert orders[first] <= orders[first + i];
  }

  // The renamed files hold the orders the cascade met.
  lemma CascadeSourcesHeld(sorted: seq<Patch>, requested: nat, renames: seq<Rename>,
                           renamed: (string, nat) -> Rename, lead: Lead)
    requires Cascades(sorted, requested, renames, renamed) && CarriesOrders(renamed, lead)
    requires NamesCarryOrders(sorted, lead)
    ensures SourcesHeld(renames, requested, lead)
  {
    forall i | 0 <= i < |renames|
      ensures lead(renames[i].from).Some? && requested <= lead(renames[i].from).value <= requested + i
    {
      RenameOf(sorted, requested, renames, renamed, lead, i);
      MetInTheStretch(Orders(sorted), requested, i);
    }
  }

  lemma MovedRowsAreSources(sorted: seq<Patch>, requested: nat, renames: seq<Rename>, renamed: (string, nat) -> Rename,
                            lead: Lead, i: nat)
    requires Cascades(sorted, requested, renames, renamed) && CarriesOrders(renamed, lead)
    requires i < |sorted| && Cascade.IsMoved(Orders(sorted), requested, i)
    ensures IsSource(renames, sorted[i].filename)
  {
    var rename := renames[i - Cascade.First(Orders(sorted), requested)];
    assert rename.from == sorted[i].filename;
  }

  // A row that is not renamed stays clear of the stretch.
  lemma OthersStandClear(sorted: seq<Patch>, requested: nat, renames: seq<Rename>, renamed: (string, nat) -> Rename,
                         lead: Lead, i: nat)
    requires Cascades(sorted, requested, renames, renamed) && CarriesOrders(renamed, lead)
    requires i < |sorted| && !IsSource(renames, sorted[i].filename)
    ensures !(requested <= sorted[i].order <= requested + |renames|)
  {
    if Cascade.IsMoved(Orders(sorted), requested, i) {
      MovedRowsAreSources(sorted, requested, renames, renamed, lead, i);
    } else {
      Cascade.MakesRoom(Orders(sorted), requested, i);
      assert Orders(sorted)[i] == sorted[i].order;
    }
  }

  lemma SourcesAreApart(sorted: seq<Patch>, requested: nat, renames: seq<Rename>, renamed: (string, nat) -> Rename,
                        lead: Lead)
    requires Cascades(sorted, requested, renames, renamed) && CarriesOrders(renamed, lead)
    requires DistinctFilenames(sorted)
    ensures IsMap(renames)
  {
    forall i, j | 0 <= i < j < |renames|
      ensures renames[i].from != renames[j].from
    {
      RenameOf(sorted, requested, renames, renamed, lead, i);
      RenameOf(sorted, requested, renames, renamed, lead, j);
    }
  }

  lemma CascadeSourcesAreRows(rows: seq<Patch>, sorted: seq<Patch>, requested: nat, renames: seq<Rename>,
                              renamed: (string, nat) -> Rename, lead: Lead)
    requires Cascades(sorted, requested, renames, renamed) && CarriesOrders(renamed, lead)
    requires multiset(rows) == multiset(sorted)
    ensures SourcesAreRows(rows, renames)
  {
    forall i | 0 <= i < |renames|
      ensures HasRow(rows, renames[i].from)
    {
      RenameOf(sorted, requested, renames, renamed, lead, i);
      var row := sorted[Cascade.First(Orders(sorted), requested) + i];
      assert row in multiset(rows);
      var j :| 0 <= j < |rows| && rows[j] == row;
    }
  }

  lemma CascadeOthersAreClear(rows: seq<Patch>, sorted: seq<Patch>, requested: nat, renames: seq<Rename>,
                              renamed: (string, nat) -> Rename, lead: Lead)
    requires Cascades(sorted, requested, renames, renamed) && CarriesOrders(renamed, lead)
    requires multiset(rows) == multiset(sorted)
    ensures OthersAreClear(rows, renames, requested)
  {
    forall j | 0 <= j < |rows| && !IsSource(renames, rows[j].filename)
      ensures !(requested <= rows[j].order <= requested + |renames|)
    {
      assert rows[j] in multiset(sorted);
      var i :| 0 <= i < |sorted| && sorted[i] == rows[j];
      OthersStandClear(sorted, requested, renames, renamed, lead, i);
    }
  }

  lemma CascadeFits(rows: seq<Patch>, sorted: seq<Patch>, plan: Plan, renamed: (string, nat) -> Rename, lead: Lead)
    requires NamesCarryOrders(rows, lead) && NamesCarryOrders(sorted, lead) && DistinctFilenames(sorted)
    requires multiset(rows) == multiset(sorted) && CarriesOrders(renamed, lead)
    requires Cascades(sorted, plan.insertionOrder, plan.renames, renamed)
    requires lead(plan.newFilename) == Some(plan.insertionOrder)
    ensures Fits(rows, plan, lead)
  {
    SourcesAreApart(sorted, plan.insertionOrder, plan.renames, renamed, lead);
    CascadeTargetsFollow(sorted, plan.insertionOrder, plan.renames, renamed, lead);
    CascadeSourcesHeld(sorted, plan.insertionOrder, plan.renames, renamed, lead);
    CascadeSourcesAreRows(rows, sorted, plan.insertionOrder, plan.renames, renamed, lead);
    CascadeOthersAreClear(rows, sorted, plan.insertionOrder, plan.renames, renamed, lead);
  }

  // A positional plan over rows named after their orders fits them, whatever orders they share.
  lemma PositionalPlanFits(rows: seq<Patch>, stem: string, requested: nat)
    requires NamesCarryOrders(rows, RequirePatchOrder) && DistinctFilenames(rows)
    ensures Fits(rows, PlanFor(rows, stem, requested), RequirePatchOrder)
  {
    var width := PrefixWidth(SortBy(rows, PatchOrder), requested);
    RenamerCarriesOrders(width);
    SortedOrders(rows);
    SortedNames(rows, RequirePatchOrder);
    NamedParsesBack(requested, Max(3, width), stem + ".patch");
    CascadeFits(rows, SortBy(rows, PatchOrder), PlanFor(rows, stem, requested), Renamer(width), RequirePatchOrder);
  }

  lemma ExactPlanFits(rows: seq<Patch>, stem: string, requested: nat)
    requires NamesCarryOrders(rows, RequirePatchOrder)
    requires forall i | 0 <= i < |rows| :: rows[i].order != requested
    ensures Fits(rows, ExactPlanFor(rows, stem, requested), RequirePatchOrder)
  {
    NamedParsesBack(requested, Max(3, PrefixWidth(rows, requested)), stem + ".patch");
  }

  // The rows end up where the cascade's arithmetic puts them.
  lemma PlannedOrder(sorted: seq<Patch>, requested: nat, renames: seq<Rename>, renamed: (string, nat) -> Rename,
                     lead: Lead, i: nat)
    requires Cascades(sorted, requested, renames, renamed) && CarriesOrders(renamed, lead)
    requires DistinctFilenames(sorted) && i < |sorted|
    ensures Relabel(sorted[i], renames).order == Cascade.NewOrder(Orders(sorted), requested, i)
  {
    var first := Cascade.First(Orders(sorted), requested);
    SourcesAreApart(sorted, requested, renames, renamed, lead);
    if Cascade.IsMoved(Orders(sorted), requested, i) {
      RenameOf(sorted, requested, renames, renamed, lead, i - first);
      EntryOf(renames, i - first);
    } else {
      forall k | 0 <= k < |renames|
        ensures renames[k].from != sorted[i].filename
      {
        RenameOf(sorted, requested, renames, renamed, lead, k);
      }
    }
  }

  // No renumbering that frees the requested order, lowers nothing and keeps the patches from there
  // on apart leaves any patch at a lower order than the plan does.
  lemma PlanIsLeast(rows: seq<Patch>, stem: string, requested: nat, renumbered: seq<int>, i: nat)
    requires NamesCarryOrders(rows, RequirePatchOrder) && DistinctFilenames(rows) && i < |rows|
    requires Cascade.Frees(Orders(SortBy(rows, PatchOrder)), requested, renumbered)
    ensures |SortBy(rows, PatchOrder)| == |rows|
    ensures Relabel(SortBy(rows, PatchOrder)[i], PlanFor(rows, stem, requested).renames).order <= renumbered[i]
  {
    var sorted := SortBy(rows, PatchOrder);
    var renamer := Renamer(PrefixWidth(sorted, requested));
    RenamerCarriesOrders(PrefixWidth(sorted, requested));
    SortedOrders(rows);
    SortedNames(rows, RequirePatchOrder);
    SameLength(sorted, rows);
    PlannedOrder(sorted, requested, PlanFor(rows, stem, requested).renames, renamer, RequirePatchOrder, i);
    Cascade.LeastAt(Orders(sorted), requested, renumbered, i);
  }
}
