// The arithmetic of a placement that renumbers: which orders `computePlacementPlan` of
// src/commands/export-flow.ts moves, to where, and in what sense it moves as little as it can.
module Cascade {

  ghost predicate Sorted(orders: seq<int>) {
    forall i, j | 0 <= i < j < |orders| :: orders[i] <= orders[j]
  }

  // The index of the first order at or above `requested`.
  function First(orders: seq<int>, requested: int): (first: nat)
    ensures first <= |orders|
    ensures forall i | 0 <= i < first :: orders[i] < requested
    ensures first < |orders| ==> orders[first] >= requested
  {
    if orders == [] || orders[0] >= requested then 0 else 1 + First(orders[1..], requested)
  }

  // How many orders from index `i` on are met by a cursor that starts at `cursor` and steps past
  // each one it meets.
  function Met(orders: seq<int>, i: nat, cursor: int): (count: nat)
    requires i <= |orders|
    ensures i + count <= |orders|
    ensures forall j | i <= j < i + count :: orders[j] <= cursor + (j - i)
    ensures i + count < |orders| ==> orders[i + count] > cursor + count
    decreases |orders| - i
  {
    if i < |orders| && orders[i] <= cursor then 1 + Met(orders, i + 1, cursor + 1) else 0
  }

  function Moved(orders: seq<int>, requested: int): (count: nat)
    ensures First(orders, requested) + count <= |orders|
  {
    Met(orders, First(orders, requested), requested)
  }

  predicate IsMoved(orders: seq<int>, requested: int, i: nat) {
    First(orders, requested) <= i < First(orders, requested) + Moved(orders, requested)
  }

  // Where the plan leaves the patch at index `i`.
  function NewOrder(orders: seq<int>, requested: int, i: nat): int
    requires i < |orders|
  {
    if IsMoved(orders, requested, i) then requested + 1 + (i - First(orders, requested)) else orders[i]
  }

  // The last order the cascade reaches: the source's cursor after the loop.
  function Reached(orders: seq<int>, requested: int): int {
    requested + Moved(orders, requested)
  }

  // The requested order comes free, and no patch left in place stands in the renumbered stretch.
  lemma MakesRoom(orders: seq<int>, requested: int, i: nat)
    requires Sorted(orders) && i < |orders|
    ensures NewOrder(orders, requested, i) != requested
    ensures !IsMoved(orders, requested, i) ==> !(requested <= orders[i] <= Reached(orders, requested))
  {
  }

  // The patches keep their order, strictly wherever they were apart or one of them moved.
  lemma KeepsTheirOrder(orders: seq<int>, requested: int, i: nat, j: nat)
    requires Sorted(orders) && i < j < |orders|
    ensures NewOrder(orders, requested, i) <= NewOrder(orders, requested, j)
    ensures orders[i] < orders[j] || IsMoved(orders, requested, i) || IsMoved(orders, requested, j) ==>
      NewOrder(orders, requested, i) < NewOrder(orders, requested, j)
  {
  }

  // A moved order is raised, and only within the stretch; the first moved one was the requested one.
  lemma MovesWithinTheStretch(orders: seq<int>, requested: int, i: nat)
    requires Sorted(orders) && IsMoved(orders, requested, i)
    ensures requested <= orders[i] < NewOrder(orders, requested, i) <= Reached(orders, requested)
    ensures i == First(orders, requested) ==> orders[i] == requested
  {
  }

  // A renumbering that lowers no order, frees the requested one and keeps the patches from the
  // requested order on apart.
  ghost predicate Frees(orders: seq<int>, requested: int, renumbered: seq<int>) {
    && |renumbered| == |orders|
    && (forall i | 0 <= i < |orders| :: orders[i] <= renumbered[i] && renumbered[i] != requested)
    && (forall i, j | First(orders, requested) <= i < j < |orders| :: renumbered[i] < renumbered[j])
  }

  lemma {:induction false} LeastAt(orders: seq<int>, requested: int, renumbered: seq<int>, i: nat)
    requires Sorted(orders) && Frees(orders, requested, renumbered) && i < |orders|
    ensures NewOrder(orders, requested, i) <= renumbered[i]
  {
    var first := First(orders, requested);
    if IsMoved(orders, requested, i) && first < i {
      LeastAt(orders, requested, renumbered, i - 1);
      assert renumbered[i - 1] < renumbered[i];
    }
  }

  ghost function Plan(orders: seq<int>, requested: int): seq<int> {
    seq(|orders|, i requires 0 <= i < |orders| => NewOrder(orders, requested, i))
  }

  ghost predicate TailApart(orders: seq<int>, requested: int) {
    forall i, j | First(orders, requested) + Moved(orders, requested) <= i < j < |orders| :: orders[i] < orders[j]
  }

  // The plan is pointwise at most any such renumbering.
  lemma PlanIsLeast(orders: seq<int>, requested: int, renumbered: seq<int>)
    requires Sorted(orders) && Frees(orders, requested, renumbered)
    ensures forall i | 0 <= i < |orders| :: Plan(orders, requested)[i] <= renumbered[i]
  {
    forall i | 0 <= i < |orders|
      ensures Plan(orders, requested)[i] <= renumbered[i]
    {
      LeastAt(orders, requested, renumbered, i);
    }
  }

  lemma PlanFrees(orders: seq<int>, requested: int)
    requires Sorted(orders) && TailApart(orders, requested)
    ensures Frees(orders, requested, Plan(orders, requested))
  {
    forall i | 0 <= i < |orders|
      ensures orders[i] <= NewOrder(orders, requested, i) != requested
    {
      MakesRoom(orders, requested, i);
      if IsMoved(orders, requested, i) {
        MovesWithinTheStretch(orders, requested, i);
      }
    }
    forall i, j | First(orders, requested) <= i < j < |orders|
      ensures NewOrder(orders, requested, i) < NewOrder(orders, requested, j)
    {
      KeepsTheirOrder(orders, requested, i, j);
    }
  }

  lemma OnlyApartTailsAreFreed(orders: seq<int>, requested: int, i: nat, j: nat)
    requires First(orders, requested) + Moved(orders, requested) <= i < j < |orders|
    requires Frees(orders, requested, Plan(orders, requested))
    ensures orders[i] < orders[j]
  {
    assert Plan(orders, requested)[i] < Plan(orders, requested)[j];
  }

  // It is one itself exactly when the patches beyond the renumbered stretch already stand apart;
  // within the stretch even equal orders come out apart.
  lemma PlanFreesExactly(orders: seq<int>, requested: int)
    requires Sorted(orders)
    ensures Frees(orders, requested, Plan(orders, requested)) <==> TailApart(orders, requested)
  {
    if TailApart(orders, requested) {
      PlanFrees(orders, requested);
    }
    if Frees(orders, requested, Plan(orders, requested)) {
      forall i, j | First(orders, requested) + Moved(orders, requested) <= i < j < |orders|
        ensures orders[i] < orders[j]
      {
        OnlyApartTailsAreFreed(orders, requested, i, j);
      }
    }
  }
}
