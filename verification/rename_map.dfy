// Rename maps and their comparison: src/commands/patch-rename-map.ts.
module RenameMap {
  import opened StableSort

  // One map entry: the file `from` becomes `to`, at `order`. A map is its entries in insertion
  // order, no two from the same file.
  datatype Rename = Rename(from: string, to: string, order: nat)

  ghost predicate IsMap(renames: seq<Rename>) {
    forall i, j | 0 <= i < j < |renames| :: renames[i].from != renames[j].from
  }

  function OrderOf(rename: Rename): int { rename.order }

  function GetSortedRenameEntries(renames: seq<Rename>): seq<Rename> {
    SortBy(renames, OrderOf)
  }

  predicate RenameMapsEqual(left: seq<Rename>, right: seq<Rename>) {
    var leftEntries, rightEntries := GetSortedRenameEntries(left), GetSortedRenameEntries(right);
    && |leftEntries| == |rightEntries|
    && forall i | 0 <= i < |leftEntries| ::
         leftEntries[i].from == rightEntries[i].from
         && leftEntries[i].to == rightEntries[i].to
         && leftEntries[i].order == rightEntries[i].order
  }

  // The same entries, inserted in any order.
  ghost predicate SameMap(left: seq<Rename>, right: seq<Rename>) {
    multiset(left) == multiset(right)
  }

  ghost predicate DistinctOrders(renames: seq<Rename>) {
    DistinctBy(renames, OrderOf)
  }

  lemma EqualMapsAreTheSame(left: seq<Rename>, right: seq<Rename>)
    requires RenameMapsEqual(left, right)
    ensures SameMap(left, right)
  {
    var leftEntries, rightEntries := GetSortedRenameEntries(left), GetSortedRenameEntries(right);
    SortKeeps(left, OrderOf);
    SortKeeps(right, OrderOf);
    forall i | 0 <= i < |leftEntries|
      ensures leftEntries[i] == rightEntries[i]
    {
    }
    assert leftEntries == rightEntries;
  }

  lemma SameMapsAreEqual(left: seq<Rename>, right: seq<Rename>)
    requires DistinctOrders(left) && SameMap(left, right)
    ensures RenameMapsEqual(left, right)
  {
    SortKeeps(left, OrderOf);
    SortKeeps(right, OrderOf);
    SortKeepsDistinct(left, OrderOf);
    SortedOnceOnly(GetSortedRenameEntries(left), GetSortedRenameEntries(right), OrderOf);
  }

  lemma {:induction false} FirstWithOrder(renames: seq<Rename>, i: nat) returns (first: nat)
    requires i < |renames|
    ensures first <= i && renames[first].order == renames[i].order
    ensures forall k | 0 <= k < first :: renames[k].order != renames[i].order
  {
    if exists k :: 0 <= k < i && renames[k].order == renames[i].order {
      var k :| 0 <= k < i && renames[k].order == renames[i].order;
      first := FirstWithOrder(renames, k);
    } else {
      first := i;
    }
  }

  lemma SwappedMapIsNotEqual(left: seq<Rename>, i: nat, j: nat) returns (right: seq<Rename>)
    requires IsMap(left) && i < j < |left| && left[i].order == left[j].order
    ensures SameMap(left, right) && !RenameMapsEqual(left, right)
  {
    var first := FirstWithOrder(left, i);
    right := left[first := left[j]][j := left[first]];
    HeadWithKey(left, OrderOf, first);
    HeadWithKey(right, OrderOf, first);
    SortIsStable(left, OrderOf, left[i].order);
    SortIsStable(right, OrderOf, left[i].order);
    assert RenameMapsEqual(left, right) ==> GetSortedRenameEntries(left) == GetSortedRenameEntries(right);
  }

  // Comparing the entries sorted by order decides whether two maps are the same, whatever order
  // they were filled in, exactly for the maps that give no order twice. Equal maps are the same in
  // any case.
  lemma ComparesMapsExactly(left: seq<Rename>)
    requires IsMap(left)
    ensures (forall right: seq<Rename> :: RenameMapsEqual(left, right) <==> SameMap(left, right))
       <==> DistinctOrders(left)
  {
    forall right: seq<Rename> | RenameMapsEqual(left, right)
      ensures SameMap(left, right)
    {
      EqualMapsAreTheSame(left, right);
    }
    if DistinctOrders(left) {
      forall right: seq<Rename> | SameMap(left, right)
        ensures RenameMapsEqual(left, right)
      {
        SameMapsAreEqual(left, right);
      }
    } else {
      var i, j :| 0 <= i < j < |left| && left[i].order == left[j].order;
      var right := SwappedMapIsNotEqual(left, i, j);
      assert SameMap(left, right) && !RenameMapsEqual(left, right);
    }
  }
}
