// Reserved ranges and positional plans: src/commands/export-placement-policy.ts.
module ReservedRanges {
  import opened Prelude
  import opened PlacementPlan
  import opened PlacementLaws
  import opened RenameMap
  import opened Renumbering

  datatype Range = Range(from: int, to: int)

  // The range a plan is refused for, and the order suggested instead.
  datatype Refusal = Refusal(range: Range, suggestion: Option<int>)

  predicate Within(range: Range, order: int) {
    range.from <= order <= range.to
  }

  predicate IsReserved(ranges: seq<Range>, order: int) {
    exists i | 0 <= i < |ranges| :: Within(ranges[i], order)
  }

  function FindReservedRange(ranges: seq<Range>, order: int): (found: Option<Range>)
    ensures found.Some? <==> IsReserved(ranges, order)
    ensures found.Some? ==> exists i | 0 <= i < |ranges| ::
              found.value == ranges[i] && Within(ranges[i], order) && forall k | 0 <= k < i :: !Within(ranges[k], order)
  {
    if ranges == [] then None
    else if Within(ranges[0], order) then Some(ranges[0])
    else
      var found := FindReservedRange(ranges[1..], order);
      assert forall k | 0 <= k < |ranges| - 1 :: ranges[1..][k] == ranges[k + 1];
      assert found.Some? ==> forall k | 0 < k < |ranges| :: ranges[k] == ranges[1..][k - 1];
      found
  }

  // `byFilename.get(filename)?.order`: the last row of that name.
  function OldOrder(rows: seq<Patch>, name: string): (order: Option<int>)
    ensures order.Some? <==> HasRow(rows, name)
    ensures order.Some? ==> exists j | 0 <= j < |rows| :: rows[j].filename == name && rows[j].order == order.value
  {
    if rows == [] then None
    else if rows[|rows| - 1].filename == name then Some(rows[|rows| - 1].order)
    else
      var order := OldOrder(rows[..|rows| - 1], name);
      assert order.None? ==> !HasRow(rows, name);
      order
  }

  predicate IsOccupied(rows: seq<Patch>, order: int) {
    exists j | 0 <= j < |rows| :: rows[j].order == order
  }

  // The greatest free positive order below the range, or nothing when all are taken.
  predicate IsLastFreeBelow(rows: seq<Patch>, range: Range, free: Option<int>) {
    && (free.Some? ==> 1 <= free.value < range.from && !IsOccupied(rows, free.value))
    && forall order | (if free.Some? then free.value + 1 else 1) <= order < range.from :: IsOccupied(rows, order)
  }

  method FirstFreeOrderBelowReservedRange(rows: seq<Patch>, range: Range) returns (free: Option<int>)
    ensures IsLastFreeBelow(rows, range, free)
  {
    var order := range.from - 1;
    while order >= 1
      invariant order < range.from
      invariant forall taken | order < taken < range.from :: IsOccupied(rows, taken)
    {
      if !IsOccupied(rows, order) {
        return Some(order);
      }
      order := order - 1;
    }
    return None;
  }

  // A rename that moves a patch into a reserved range, or out of one.
  predicate Touches(rename: Rename, rows: seq<Patch>, ranges: seq<Range>) {
    || IsReserved(ranges, rename.order)
    || (OldOrder(rows, rename.from).Some? && IsReserved(ranges, OldOrder(rows, rename.from).value))
  }

  // The range a rename moves a patch into, or else the one it takes a patch out of.
  function TouchedRange(rename: Rename, rows: seq<Patch>, ranges: seq<Range>): (range: Option<Range>)
    ensures range.Some? <==> Touches(rename, rows, ranges)
  {
    var reserved := FindReservedRange(ranges, rename.order);
    var oldOrder := OldOrder(rows, rename.from);
    if reserved.None? && oldOrder.Some? then FindReservedRange(ranges, oldOrder.value) else reserved
  }

  // A refusal names the range that the first rename to touch one does, and the order below it.
  predicate RefusesFirst(renames: seq<Rename>, rows: seq<Patch>, ranges: seq<Range>, refusal: Refusal) {
    && (exists i | 0 <= i < |renames| ::
          && TouchedRange(renames[i], rows, ranges) == Some(refusal.range)
          && forall k | 0 <= k < i :: !Touches(renames[k], rows, ranges))
    && IsLastFreeBelow(rows, refusal.range, refusal.suggestion)
  }

  // `ranges` is nothing when no patch policy is set.
  method AssertPlacementAvoidsReservedRanges(renames: seq<Rename>, rows: seq<Patch>,
                                             ranges: Option<seq<Range>>) returns (refusal: Option<Refusal>)
    ensures refusal.None? <==> ranges.None? || forall i | 0 <= i < |renames| :: !Touches(renames[i], rows, ranges.value)
    ensures refusal.Some? ==> ranges.Some? && RefusesFirst(renames, rows, ranges.value, refusal.value)
  {
    if ranges.None? || renames == [] {
      return None;
    }
    for i := 0 to |renames|
      invariant forall k | 0 <= k < i :: !Touches(renames[k], rows, ranges.value)
    {
      var oldOrder := OldOrder(rows, renames[i].from);
      var reserved := FindReservedRange(ranges.value, renames[i].order);
      if reserved.None? && oldOrder.Some? {
        reserved := FindReservedRange(ranges.value, oldOrder.value);
      }
      if reserved.None? {
        continue;
      }
      assert TouchedRange(renames[i], rows, ranges.value) == reserved;
      var freeOrder := FirstFreeOrderBelowReservedRange(rows, reserved.value);
      return Some(Refusal(reserved.value, freeOrder));
    }
    return None;
  }

  lemma OldOrderIsCarried(rows: seq<Patch>, plan: Plan, lead: Lead, i: nat)
    requires Fits(rows, plan, lead) && i < |plan.renames|
    ensures OldOrder(rows, plan.renames[i].from).Some?
    ensures plan.insertionOrder <= OldOrder(rows, plan.renames[i].from).value <= plan.insertionOrder + i
  {
    assert HasRow(rows, plan.renames[i].from);
    var carried := OldOrder(rows, plan.renames[i].from);
    var j :| 0 <= j < |rows| && rows[j].filename == plan.renames[i].from && rows[j].order == carried.value;
  }

  // The orders a plan touches are exactly those from the requested one to the last one it gives.
  lemma PassesExactly(rows: seq<Patch>, plan: Plan, lead: Lead, ranges: seq<Range>)
    requires Fits(rows, plan, lead) && plan.renames != []
    ensures (forall i | 0 <= i < |plan.renames| :: !Touches(plan.renames[i], rows, ranges))
       <==> forall order | plan.insertionOrder <= order <= plan.insertionOrder + |plan.renames| ::
           !IsReserved(ranges, order)
  {
    forall i | 0 <= i < |plan.renames|
      ensures OldOrder(rows, plan.renames[i].from).Some?
      ensures plan.insertionOrder <= OldOrder(rows, plan.renames[i].from).value <= plan.insertionOrder + i
    {
      OldOrderIsCarried(rows, plan, lead, i);
    }
    if forall i | 0 <= i < |plan.renames| :: !Touches(plan.renames[i], rows, ranges) {
      forall order | plan.insertionOrder <= order <= plan.insertionOrder + |plan.renames|
        ensures !IsReserved(ranges, order)
      {
        var i := if order == plan.insertionOrder then 0 else order - plan.insertionOrder - 1;
        assert !Touches(plan.renames[i], rows, ranges);
      }
    }
  }
}
