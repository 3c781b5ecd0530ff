// Placement plans of src/commands/export-flow.ts: which existing patches a new patch at a
// requested order renumbers, and what the queue looks like afterwards.
module PlacementPlan {
  import opened Prelude
  import opened PatchNames
  import opened StableSort
  import opened RenameMap
  import Cascade

  // A manifest row; `details` stands for its other fields.
  datatype Patch = Patch(filename: string, order: int, details: string)

  datatype Plan = Plan(insertionOrder: nat, newFilename: string, renames: seq<Rename>)

  datatype PlanError = NotAPositiveOrder | OrderOccupied(filename: string)

  function PatchOrder(patch: Patch): int { patch.order }

  ghost predicate DistinctFilenames(patches: seq<Patch>) {
    forall i, j | 0 <= i < j < |patches| :: patches[i].filename != patches[j].filename
  }

  function Max(a: nat, b: nat): nat { if a < b then b else a }

  // The widest numeric prefix in use, and wide enough for the requested order.
  function PrefixWidth(patches: seq<Patch>, requested: nat): nat {
    if patches == [] then 3
    else
      var filename := patches[|patches| - 1].filename;
      var digits := if HasPrefix(filename) then DigitCount(filename) else 3;
      Max(Max(PrefixWidth(patches[..|patches| - 1], requested), digits), |Decimal(requested)|)
  }

  // `stem` is the category and the slug of the new patch's name.
  function BuildFilename(stem: string, order: nat, width: nat): string {
    Named(order, Max(3, width), stem + ".patch")
  }

  function Orders(patches: seq<Patch>): (orders: seq<int>)
    ensures |orders| == |patches|
  {
    seq(|patches|, i requires 0 <= i < |patches| => patches[i].order)
  }

  // What a patch that moves to `newOrder` is renamed to.
  function Renamed(filename: string, newOrder: nat, width: nat): Rename {
    Rename(filename, Named(newOrder, width, Rest(filename)), newOrder)
  }

  function Renamer(width: nat): (string, nat) -> Rename {
    (filename: string, newOrder: nat) => Renamed(filename, newOrder, width)
  }

  // The first `count` renames of a cascade that starts at index `first`.
  function Renames(sorted: seq<Patch>, requested: nat, renamed: (string, nat) -> Rename, first: nat,
                   count: nat): (renames: seq<Rename>)
    requires first + count <= |sorted|
    ensures |renames| == count
  {
    seq(count, k requires 0 <= k < count => renamed(sorted[first + k].filename, requested + k + 1))
  }

  function PlanFor(patches: seq<Patch>, stem: string, requested: nat): Plan {
    var sorted := SortBy(patches, PatchOrder);
    var width := PrefixWidth(sorted, requested);
    var first := Cascade.First(Orders(sorted), requested);
    Plan(requested, BuildFilename(stem, requested, width),
         Renames(sorted, requested, Renamer(width), first, Cascade.Moved(Orders(sorted), requested)))
  }

  // The plan of an exact order, which renames nothing and so needs the order free.
  function ExactPlanFor(patches: seq<Patch>, stem: string, requested: nat): Plan {
    Plan(requested, BuildFilename(stem, requested, PrefixWidth(patches, requested)), [])
  }

  method ComputeExactPlacementPlan(patches: seq<Patch>, stem: string,
                                   requested: int) returns (plan: Result<Plan, PlanError>)
    ensures plan == Err(NotAPositiveOrder) <==> requested <= 0
    ensures requested > 0 && plan.Err? ==>
              exists i | 0 <= i < |patches| ::
                && patches[i].order == requested && (forall k | 0 <= k < i :: patches[k].order != requested)
                && plan.error == OrderOccupied(patches[i].filename)
    ensures plan.Ok? ==> plan.value == ExactPlanFor(patches, stem, requested)
    ensures plan.Ok? ==> forall i | 0 <= i < |patches| :: patches[i].order != requested
  {
    if requested <= 0 {
      return Err(NotAPositiveOrder);
    }
    for i := 0 to |patches|
      invariant forall k | 0 <= k < i :: patches[k].order != requested
    {
      if patches[i].order == requested {
        return Err(OrderOccupied(patches[i].filename));
      }
    }
    return Ok(ExactPlanFor(patches, stem, requested));
  }

  // Patches at the requested order or later shift up by one until the cascade meets a gap.
  method ComputePlacementPlan(patches: seq<Patch>, stem: string, requested: int) returns (plan: Result<Plan, PlanError>)
    ensures plan == if requested <= 0 then Err(NotAPositiveOrder) else Ok(PlanFor(patches, stem, requested))
  {
    if requested <= 0 {
      return Err(NotAPositiveOrder);
    }
    var sorted := SortBy(patches, PatchOrder);
    var width := PrefixWidth(sorted, requested);
    var renames := ShiftUp(sorted, requested, Renamer(width));
    SortedOrders(patches);
    ShiftsTheCascade(sorted, requested, Renamer(width));
    return Ok(Plan(requested, BuildFilename(stem, requested, width), renames));
  }

  // The renames a loop adds from index `i` on, with the cursor it has reached.
  function ShiftFrom(sorted: seq<Patch>, requested: nat, renamed: (string, nat) -> Rename, i: nat,
                     cursor: nat): seq<Rename>
    requires i <= |sorted|
    decreases |sorted| - i
  {
    if i == |sorted| then []
    else if sorted[i].order < requested then ShiftFrom(sorted, requested, renamed, i + 1, cursor)
    else if sorted[i].order > cursor then []
    else [renamed(sorted[i].filename, cursor + 1)] + ShiftFrom(sorted, requested, renamed, i + 1, cursor + 1)
  }

  method ShiftUp(sorted: seq<Patch>, requested: nat, renamed: (string, nat) -> Rename) returns (renames: seq<Rename>)
    ensures renames == ShiftFrom(sorted, requested, renamed, 0, requested)
  {
    renames := [];
    var cursor := requested;
    var i := 0;
    while i < |sorted|
      invariant i <= |sorted|
      invariant renames + ShiftFrom(sorted, requested, renamed, i, cursor)
          == ShiftFrom(sorted, requested, renamed, 0, requested)
    {
      var patch := sorted[i];
      if patch.order < requested {
        i := i + 1;
        continue;
      }
      if patch.order > cursor {
        break;
      }
      var newOrder := cursor + 1;
      var rename := renamed(patch.filename, newOrder);
      Regroup(renames, rename, ShiftFrom(sorted, requested, renamed, i + 1, newOrder));
      renames := renames + [rename];
      cursor := newOrder;
      i := i + 1;
    }
  }

  lemma Regroup<T>(xs: seq<T>, x: T, ys: seq<T>)
    ensures xs + ([x] + ys) == (xs + [x]) + ys
  {
  }

  lemma {:induction false} SkipsToFirst(sorted: seq<Patch>, requested: nat, renamed: (string, nat) -> Rename, i: nat)
    requires Cascade.Sorted(Orders(sorted)) && i <= Cascade.First(Orders(sorted), requested)
    ensures ShiftFrom(sorted, requested, renamed, i, requested)
         == ShiftFrom(sorted, requested, renamed, Cascade.First(Orders(sorted), requested), requested)
    decreases |sorted| - i
  {
    if i < Cascade.First(Orders(sorted), requested) {
      assert Orders(sorted)[i] < requested;
      SkipsToFirst(sorted, requested, renamed, i + 1);
    }
  }

  lemma {:induction false} ShiftsAsManyAsItMeets(sorted: seq<Patch>, requested: nat, renamed: (string, nat) -> Rename,
                                                 i: nat, cursor: nat)
    requires Cascade.Sorted(Orders(sorted)) && requested <= cursor && i <= |sorted|
    requires i < |sorted| ==> sorted[i].order >= requested
    ensures |ShiftFrom(sorted, requested, renamed, i, cursor)| == Cascade.Met(Orders(sorted), i, cursor)
    decreases |sorted| - i
  {
    var orders := Orders(sorted);
    if i < |sorted| && orders[i] <= cursor {
      assert i + 1 < |sorted| ==> orders[i] <= orders[i + 1];
      ShiftsAsManyAsItMeets(sorted, requested, renamed, i + 1, cursor + 1);
    }
  }

  lemma {:induction false} ShiftsInTurn(sorted: seq<Patch>, requested: nat, renamed: (string, nat) -> Rename, i: nat,
                                        cursor: nat, k: nat)
    requires Cascade.Sorted(Orders(sorted)) && requested <= cursor && i <= |sorted|
    requires i < |sorted| ==> sorted[i].order >= requested
    requires k < |ShiftFrom(sorted, requested, renamed, i, cursor)|
    ensures i + k < |sorted|
    ensures ShiftFrom(sorted, requested, renamed, i, cursor)[k] == renamed(sorted[i + k].filename, cursor + k + 1)
    decreases |sorted| - i
  {
    if k > 0 {
      assert i + 1 < |sorted| ==> Orders(sorted)[i] <= Orders(sorted)[i + 1];
      ShiftsInTurn(sorted, requested, renamed, i + 1, cursor + 1, k - 1);
    }
  }

  lemma ShiftsFromFirst(sorted: seq<Patch>, requested: nat, renamed: (string, nat) -> Rename, first: nat)
    requires Cascade.Sorted(Orders(sorted)) && first <= |sorted|
    requires first < |sorted| ==> sorted[first].order >= requested
    ensures ShiftFrom(sorted, requested, renamed, first, requested)
         == Renames(sorted, requested, renamed, first, Cascade.Met(Orders(sorted), first, requested))
  {
    var renames := ShiftFrom(sorted, requested, renamed, first, requested);
    ShiftsAsManyAsItMeets(sorted, requested, renamed, first, requested);
    forall k | 0 <= k < |renames|
      ensures renames[k] == renamed(sorted[first + k].filename, requested + k + 1)
    {
      ShiftsInTurn(sorted, requested, renamed, first, requested, k);
    }
  }

  lemma ShiftsTheCascade(sorted: seq<Patch>, requested: nat, renamed: (string, nat) -> Rename)
    requires Cascade.Sorted(Orders(sorted))
    ensures ShiftFrom(sorted, requested, renamed, 0, requested)
         == Renames(sorted, requested, renamed, Cascade.First(Orders(sorted), requested),
             Cascade.Moved(Orders(sorted), requested))
  {
    var first := Cascade.First(Orders(sorted), requested);
    assert first < |sorted| ==> Orders(sorted)[first] == sorted[first].order;
    SkipsToFirst(sorted, requested, renamed, 0);
    ShiftsFromFirst(sorted, requested, renamed, first);
  }

  lemma SortedOrders(patches: seq<Patch>)
    ensures Cascade.Sorted(Orders(SortBy(patches, PatchOrder)))
    ensures multiset(SortBy(patches, PatchOrder)) == multiset(patches)
  {
    SortKeeps(patches, PatchOrder);
  }
}
