// The filenames a placement plan hands out: what they keep, and how wide their prefixes are.
module PlanNames {
  import opened Prelude
  import opened PatchNames
  import opened PlacementPlan
  import opened RenameMap
  import opened StableSort
  import Cascade

  lemma NamedIsAsWide(order: nat, width: nat, rest: string)
    ensures HasPrefix(Named(order, width, rest))
    ensures DigitCount(Named(order, width, rest)) == Max(width, |Decimal(order)|)
  {
    var digits := FormatPatchOrder(order, width);
    DigitCountOf(digits, "-" + rest);
    assert Named(order, width, rest) == digits + ("-" + rest);
  }

  // The digits some patch of the queue carries before its dash.
  ghost predicate IsInUse(rows: seq<Patch>, digits: nat) {
    exists i | 0 <= i < |rows| :: HasPrefix(rows[i].filename) && DigitCount(rows[i].filename) == digits
  }

  // Room for three digits, for the requested order and for every prefix in use, and no more.
  ghost predicate IsWideEnough(rows: seq<Patch>, requested: nat, digits: nat) {
    && 3 <= digits && |Decimal(requested)| <= digits
    && (forall i | 0 <= i < |rows| && HasPrefix(rows[i].filename) :: DigitCount(rows[i].filename) <= digits)
    && (digits == 3 || digits == |Decimal(requested)| || IsInUse(rows, digits))
  }

  lemma OneMoreRow(rows: seq<Patch>, row: Patch, requested: nat, digits: nat)
    requires IsWideEnough(rows, requested, digits)
    ensures IsWideEnough(rows + [row], requested,
                         Max(digits, if HasPrefix(row.filename) then DigitCount(row.filename) else 3))
  {
    var more := rows + [row];
    assert more[|rows|] == row;
    if IsInUse(rows, digits) {
      var i :| 0 <= i < |rows| && HasPrefix(rows[i].filename) && DigitCount(rows[i].filename) == digits;
      assert more[i] == rows[i];
    }
  }

  lemma {:induction false} WidestInUse(rows: seq<Patch>, requested: nat)
    ensures IsWideEnough(rows, requested, Max(PrefixWidth(rows, requested), |Decimal(requested)|))
  {
    if rows != [] {
      var n := |rows| - 1;
      WidestInUse(rows[..n], requested);
      OneMoreRow(rows[..n], rows[n], requested, Max(PrefixWidth(rows[..n], requested), |Decimal(requested)|));
      assert rows[..n] + [rows[n]] == rows;
    }
  }

  lemma AnyOrderIsAsWide(rows: seq<Patch>, others: seq<Patch>, requested: nat, digits: nat)
    requires multiset(rows) == multiset(others) && IsWideEnough(rows, requested, digits)
    ensures IsWideEnough(others, requested, digits)
  {
    forall i | 0 <= i < |others| && HasPrefix(others[i].filename)
      ensures DigitCount(others[i].filename) <= digits
    {
      assert others[i] in multiset(rows);
    }
    if IsInUse(rows, digits) {
      var i :| 0 <= i < |rows| && HasPrefix(rows[i].filename) && DigitCount(rows[i].filename) == digits;
      assert rows[i] in multiset(others);
      var k :| 0 <= k < |others| && others[k] == rows[i];
    }
  }

  // The new patch's filename: category and name after a prefix that carries its order.
  ghost predicate NamesTheNewPatch(rows: seq<Patch>, stem: string, requested: nat, filename: string) {
    && RequirePatchOrder(filename) == Some(requested) && Rest(filename) == stem + ".patch"
    && IsWideEnough(rows, requested, DigitCount(filename))
  }

  lemma BuiltName(rows: seq<Patch>, stem: string, requested: nat)
    ensures NamesTheNewPatch(rows, stem, requested, BuildFilename(stem, requested, PrefixWidth(rows, requested)))
  {
    WidestInUse(rows, requested);
    NamedParsesBack(requested, Max(3, PrefixWidth(rows, requested)), stem + ".patch");
    NamedIsAsWide(requested, Max(3, PrefixWidth(rows, requested)), stem + ".patch");
    AtLeastThree(rows, requested);
  }

  lemma AtLeastThree(rows: seq<Patch>, requested: nat)
    ensures PrefixWidth(rows, requested) >= 3
  {
  }

  // A renamed patch keeps everything after its prefix, and the new prefix is as wide as the new
  // patch's, or wider where its order needs it.
  ghost predicate KeepsItsName(rename: Rename, newFilename: string) {
    && HasPrefix(rename.to) && Rest(rename.to) == Rest(rename.from)
    && RequirePatchOrder(rename.to) == Some(rename.order)
    && DigitCount(rename.to) == Max(DigitCount(newFilename), |Decimal(rename.order)|)
  }

  lemma RenamedKeepsItsName(from: string, order: nat, width: nat, newFilename: string)
    requires width == DigitCount(newFilename)
    ensures KeepsItsName(Renamed(from, order, width), newFilename)
  {
    NamedParsesBack(order, width, Rest(from));
    NamedIsAsWide(order, width, Rest(from));
  }

  lemma WidthOfTheNewName(sorted: seq<Patch>, stem: string, requested: nat)
    requires sorted != []
    ensures var width := PrefixWidth(sorted, requested);
            DigitCount(BuildFilename(stem, requested, width)) == width
  {
    NamedIsAsWide(requested, Max(3, PrefixWidth(sorted, requested)), stem + ".patch");
  }

  lemma RenameIsOfAPatch(sorted: seq<Patch>, requested: nat, width: nat, first: nat, count: nat, i: nat)
    requires first + count <= |sorted| && i < count
    ensures Renames(sorted, requested, Renamer(width), first, count)[i]
         == Renamed(sorted[first + i].filename, requested + i + 1, width)
  {
  }

  lemma AnyRenameKeepsItsName(sorted: seq<Patch>, stem: string, requested: nat, from: string, order: nat)
    requires sorted != []
    ensures var width := PrefixWidth(sorted, requested);
            KeepsItsName(Renamed(from, order, width), BuildFilename(stem, requested, width))
  {
    var width := PrefixWidth(sorted, requested);
    WidthOfTheNewName(sorted, stem, requested);
    RenamedKeepsItsName(from, order, width, BuildFilename(stem, requested, width));
  }

  // The names a positional plan hands out.
  lemma PlanKeepsNames(rows: seq<Patch>, stem: string, requested: nat, i: nat)
    ensures var plan := PlanFor(rows, stem, requested);
            && plan.insertionOrder == requested
            && NamesTheNewPatch(rows, stem, requested, plan.newFilename)
            && (i < |plan.renames| ==> KeepsItsName(plan.renames[i], plan.newFilename))
  {
    var plan, sorted := PlanFor(rows, stem, requested), SortBy(rows, PatchOrder);
    SortedOrders(rows);
    BuiltName(sorted, stem, requested);
    AnyOrderIsAsWide(sorted, rows, requested, DigitCount(plan.newFilename));
    if i < |plan.renames| {
      var first := Cascade.First(Orders(sorted), requested);
      RenameIsOfAPatch(sorted, requested, PrefixWidth(sorted, requested), first,
          Cascade.Moved(Orders(sorted), requested), i);
      AnyRenameKeepsItsName(sorted, stem, requested, sorted[first + i].filename, requested + i + 1);
    }
  }

  // And the one an exact plan does.
  lemma ExactPlanNames(rows: seq<Patch>, stem: string, requested: nat)
    ensures var plan := ExactPlanFor(rows, stem, requested);
            && plan.insertionOrder == requested && plan.renames == []
            && NamesTheNewPatch(rows, stem, requested, plan.newFilename)
  {
    BuiltName(rows, stem, requested);
  }
}
