// Which projected errors a placement is to blame for: src/commands/export-placement-conflicts.ts.
module PlacementConflicts {
  import opened Prelude
  import opened PlacementPlan
  import opened PlacementLaws
  import opened RenameMap
  import opened Renumbering
  import opened StableSort

  // `patches` is missing for rules that do not name the patches they implicate.
  datatype Issue = Issue(check: string, file: string, patches: Option<seq<string>>, message: string)

  datatype Groups = Groups(exported: seq<Issue>, renumbering: seq<Issue>, preExisting: seq<Issue>)

  // `Array.prototype.sort` with `localeCompare`, and `String.prototype.includes`.
  type Arrange = seq<string> -> seq<string>
  type Includes = (string, string) -> bool

  // `oldNameByNew.get(name) ?? name`
  function MapBack(renames: seq<Rename>, name: string): string {
    if renames == [] then name
    else if renames[|renames| - 1].to == name then renames[|renames| - 1].from
    else MapBack(renames[..|renames| - 1], name)
  }

  // `renameMap.get(name)?.newFilename ?? name`
  function MapForward(renames: seq<Rename>, name: string): string {
    var entry := Entry(renames, name);
    if entry.Some? then entry.value.to else name
  }

  function Joined(parts: seq<string>, separator: string): string {
    if parts == [] then ""
    else if |parts| == 1 then parts[0]
    else Joined(parts[..|parts| - 1], separator) + separator + parts[|parts| - 1]
  }

  function IssueKey(issue: Issue, mapName: string -> string, arrange: Arrange): string {
    var patches := if issue.patches.Some? then issue.patches.value else [];
    issue.check + "|" + issue.file + "|" + Joined(arrange(Mapped(patches, mapName)), ",")
  }

  function BaselineKey(issue: Issue, arrange: Arrange): string {
    IssueKey(issue, (name: string) => name, arrange)
  }

  function ProjectedKey(issue: Issue, plan: Plan, arrange: Arrange): string {
    IssueKey(issue, (name: string) => MapBack(plan.renames, name), arrange)
  }

  predicate ImplicatesNew(issue: Issue, plan: Plan, includes: Includes) {
    if issue.patches.Some? then plan.newFilename in issue.patches.value else includes(issue.message, plan.newFilename)
  }

  datatype Group = Exported | Renumbering | PreExisting

  function GroupOf(issue: Issue, baseline: seq<Issue>, plan: Plan, arrange: Arrange, includes: Includes): Group {
    if ImplicatesNew(issue, plan, includes) then Exported
    else if exists i | 0 <= i < |baseline| ::
        BaselineKey(baseline[i], arrange) == ProjectedKey(issue, plan, arrange)
    then PreExisting
    else Renumbering
  }

  // The errors of one group, in the order they were found.
  function InGroup<T>(issues: seq<T>, n: nat, group: T -> Group, which: Group): seq<T>
    requires n <= |issues|
  {
    if n == 0 then []
    else if group(issues[n - 1]) == which then InGroup(issues, n - 1, group, which) + [issues[n - 1]]
    else InGroup(issues, n - 1, group, which)
  }

  function GroupsOf(issues: seq<Issue>, n: nat, group: Issue -> Group): Groups
    requires n <= |issues|
  {
    Groups(InGroup(issues, n, group, Exported), InGroup(issues, n, group, Renumbering),
        InGroup(issues, n, group, PreExisting))
  }

  method GroupProjectedPlacementErrors(projected: seq<Issue>, baseline: seq<Issue>, plan: Plan, arrange: Arrange,
                                       includes: Includes)
    returns (groups: Groups)
    ensures groups == GroupsOf(projected, |projected|, issue => GroupOf(issue, baseline, plan, arrange, includes))
  {
    ghost var group := issue => GroupOf(issue, baseline, plan, arrange, includes);
    var baselineKeys := set i | 0 <= i < |baseline| :: BaselineKey(baseline[i], arrange);
    var exported: seq<Issue>, renumbering: seq<Issue>, preExisting: seq<Issue> := [], [], [];
    for i := 0 to |projected|
      invariant Groups(exported, renumbering, preExisting) == GroupsOf(projected, i, group)
    {
      var issue := projected[i];
      if ImplicatesNew(issue, plan, includes) {
        exported := exported + [issue];
      } else if ProjectedKey(issue, plan, arrange) in baselineKeys {
        preExisting := preExisting + [issue];
      } else {
        renumbering := renumbering + [issue];
      }
    }
    return Groups(exported, renumbering, preExisting);
  }

  // ----- Identity through the rename map ----------------------------------------------------

  lemma {:induction false} MapBackOf(renames: seq<Rename>, i: nat)
    requires i < |renames| && forall j, k | 0 <= j < k < |renames| :: renames[j].to != renames[k].to
    ensures MapBack(renames, renames[i].to) == renames[i].from
  {
    if i < |renames| - 1 {
      MapBackOf(renames[..|renames| - 1], i);
    }
  }

  lemma {:induction false} MapBackKeeps(renames: seq<Rename>, name: string)
    requires !IsTarget(renames, name)
    ensures MapBack(renames, name) == name
  {
    if renames != [] {
      assert renames[|renames| - 1].to != name;
      MapBackKeeps(renames[..|renames| - 1], name);
    }
  }

  // Mapping the projected names back gives the queue's own names, each of them once.
  lemma NamesMapBack(rows: seq<Patch>, plan: Plan, lead: Lead, name: string)
    requires Fits(rows, plan, lead) && HasRow(rows, name)
    ensures MapBack(plan.renames, MapForward(plan.renames, name)) == name
    ensures MapForward(plan.renames, name) != plan.newFilename
  {
    var j :| 0 <= j < |rows| && rows[j].filename == name;
    var entry := Entry(plan.renames, name);
    NewIsNoTarget(rows, plan, lead);
    if entry.Some? {
      var i :| 0 <= i < |plan.renames| && plan.renames[i] == entry.value;
      MapBackOf(plan.renames, i);
    } else {
      assert lead(name) == Some(rows[j].order);
      MapBackKeeps(plan.renames, name);
    }
  }

  // Sorting the names leaves nothing of their arrangement.
  ghost predicate Arranges(arrange: Arrange) {
    forall xs: seq<string>, ys: seq<string> | multiset(xs) == multiset(ys) :: arrange(xs) == arrange(ys)
  }

  // An error of the queue before the placement, as the projection reports it: the implicated patches
  // under their projected names, in any arrangement, or no list where the rule gives none.
  ghost predicate Projects(issue: Issue, projected: Issue, plan: Plan) {
    && projected.check == issue.check
    && projected.file == issue.file
    && (projected.patches.Some? <==> issue.patches.Some?)
    && (issue.patches.Some? ==>
          multiset(projected.patches.value)
              == multiset(Mapped(issue.patches.value, (name: string) => MapForward(plan.renames, name))))
  }

  lemma NamesOfIssueMapBack(rows: seq<Patch>, plan: Plan, lead: Lead, names: seq<string>, projected: seq<string>,
                            arrange: Arrange)
    requires Fits(rows, plan, lead) && Arranges(arrange)
    requires forall i | 0 <= i < |names| :: HasRow(rows, names[i])
    requires multiset(projected) == multiset(Mapped(names, (name: string) => MapForward(plan.renames, name)))
    ensures plan.newFilename !in projected
    ensures arrange(Mapped(projected, (name: string) => MapBack(plan.renames, name)))
        == arrange(Mapped(names, (name: string) => name))
  {
    var forwards := Mapped(names, (name: string) => MapForward(plan.renames, name));
    forall i | 0 <= i < |names|
      ensures MapBack(plan.renames, forwards[i]) == names[i] && forwards[i] != plan.newFilename
    {
      NamesMapBack(rows, plan, lead, names[i]);
    }
    assert plan.newFilename !in multiset(forwards);
    MappedInAnyOrder(projected, forwards, (name: string) => MapBack(plan.renames, name));
    assert Mapped(forwards, (name: string) => MapBack(plan.renames, name)) == Mapped(names, (name: string) => name);
  }

  lemma SameKey(rows: seq<Patch>, plan: Plan, lead: Lead, issue: Issue, projected: Issue, arrange: Arrange)
    requires Fits(rows, plan, lead) && Arranges(arrange) && Projects(issue, projected, plan)
    requires issue.patches.Some? ==> forall k | 0 <= k < |issue.patches.value| :: HasRow(rows, issue.patches.value[k])
    ensures BaselineKey(issue, arrange) == ProjectedKey(projected, plan, arrange)
    ensures projected.patches.Some? ==> plan.newFilename !in projected.patches.value
  {
    if issue.patches.Some? {
      NamesOfIssueMapBack(rows, plan, lead, issue.patches.value, projected.patches.value, arrange);
    } else {
      assert Mapped([], (name: string) => name) == Mapped([], (name: string) => MapBack(plan.renames, name));
    }
  }

  // An error the queue already had is never filed as caused by renumbering. It is filed as
  // pre-existing exactly when it lists its patches or its message does not name the new one.
  lemma PreExistingIsNotBlamed(rows: seq<Patch>, plan: Plan, lead: Lead, baseline: seq<Issue>, i: nat, projected: Issue,
                               arrange: Arrange, includes: Includes)
    requires Fits(rows, plan, lead) && Arranges(arrange) && i < |baseline| && Projects(baseline[i], projected, plan)
    requires baseline[i].patches.Some? ==>
               forall k | 0 <= k < |baseline[i].patches.value| :: HasRow(rows, baseline[i].patches.value[k])
    ensures GroupOf(projected, baseline, plan, arrange, includes) != Renumbering
    ensures GroupOf(projected, baseline, plan, arrange, includes) == PreExisting
       <==> projected.patches.Some? || !includes(projected.message, plan.newFilename)
  {
    SameKey(rows, plan, lead, baseline[i], projected, arrange);
  }

  // ----- Which errors are the same ----------------------------------------------------------

  // The first mark of a text is not in front of the one that follows text without any.
  lemma MarkComesAfter(mark: char, a: string, x: string, b: string, y: string)
    requires mark !in b && a + [mark] + x == b + [mark] + y
    ensures |b| <= |a|
  {
    var left, right := a + [mark] + x, b + [mark] + y;
    assert left[|a|] == mark;
    assert forall k | 0 <= k < |b| :: right[k] == b[k] && b[k] in b;
  }

  lemma SplitsAtFirst(mark: char, a: string, x: string, b: string, y: string)
    requires mark !in a && mark !in b && a + [mark] + x == b + [mark] + y
    ensures a == b && x == y
  {
    var left, right := a + [mark] + x, b + [mark] + y;
    MarkComesAfter(mark, a, x, b, y);
    MarkComesAfter(mark, b, y, a, x);
    assert left[..|a|] == a && right[..|b|] == b && left[|a| + 1..] == x && right[|b| + 1..] == y;
  }

  lemma MarkComesBefore(mark: char, x: string, a: string, y: string, b: string)
    requires mark !in b && x + [mark] + a == y + [mark] + b
    ensures |x| <= |y|
  {
    var left, right := x + [mark] + a, y + [mark] + b;
    assert left[|x|] == mark;
    assert forall k | |y| < k < |right| :: right[k] == b[k - |y| - 1] && b[k - |y| - 1] in b;
  }

  lemma SplitsAtLast(mark: char, x: string, a: string, y: string, b: string)
    requires mark !in a && mark !in b && x + [mark] + a == y + [mark] + b
    ensures a == b && x == y
  {
    var left, right := x + [mark] + a, y + [mark] + b;
    MarkComesBefore(mark, x, a, y, b);
    MarkComesBefore(mark, y, b, x, a);
    assert left[..|x|] == x && right[..|y|] == y && left[|x| + 1..] == a && right[|y| + 1..] == b;
  }

  // Names that a key cannot confuse.
  ghost predicate AreNames(names: seq<string>) {
    forall i | 0 <= i < |names| :: names[i] != "" && ',' !in names[i] && '|' !in names[i]
  }

  lemma {:induction false} JoinedChars(names: seq<string>)
    requires AreNames(names)
    ensures '|' !in Joined(names, ",") && (Joined(names, ",") == "" <==> names == [])
    ensures ',' in Joined(names, ",") <==> |names| > 1
  {
    if |names| > 1 {
      JoinedChars(names[..|names| - 1]);
      assert Joined(names, ",")[|Joined(names[..|names| - 1], ",")|] == ',';
    }
  }

  lemma {:induction false} JoinedTellsApart(names: seq<string>, others: seq<string>)
    requires AreNames(names) && AreNames(others) && Joined(names, ",") == Joined(others, ",")
    ensures names == others
  {
    JoinedChars(names);
    JoinedChars(others);
    if |names| > 1 {
      var n, m := |names| - 1, |others| - 1;
      assert "," == [','];
      SplitsAtLast(',', Joined(names[..n], ","), names[n], Joined(others[..m], ","), others[m]);
      JoinedTellsApart(names[..n], others[..m]);
      assert names == names[..n] + [names[n]] && others == others[..m] + [others[m]];
    }
  }

  function NamesOf(issue: Issue): seq<string> {
    if issue.patches.Some? then issue.patches.value else []
  }

  // Sorting keeps the names.
  ghost predicate Sorts(arrange: Arrange) {
    Arranges(arrange) && forall xs: seq<string> :: multiset(arrange(xs)) == multiset(xs)
  }

  // The same rule on the same file, implicating the same patches by their names before the plan.
  ghost predicate IsSame(issue: Issue, projected: Issue, plan: Plan) {
    && issue.check == projected.check && issue.file == projected.file
    && multiset(NamesOf(issue))
       == multiset(Mapped(NamesOf(projected), (name: string) => MapBack(plan.renames, name)))
  }

  ghost predicate IsReadable(issue: Issue, plan: Plan) {
    && '|' !in issue.check && AreNames(NamesOf(issue))
    && AreNames(Mapped(NamesOf(issue), (name: string) => MapBack(plan.renames, name)))
  }

  lemma ArrangedNames(arrange: Arrange, names: seq<string>)
    requires Sorts(arrange) && AreNames(names)
    ensures AreNames(arrange(names))
  {
    forall i | 0 <= i < |arrange(names)|
      ensures arrange(names)[i] in names
    {
      assert arrange(names)[i] in multiset(arrange(names));
      assert arrange(names)[i] in multiset(names);
    }
  }

  lemma KeysTellApart(check: string, file: string, names: seq<string>, otherCheck: string, otherFile: string,
                      others: seq<string>)
    requires '|' !in check && '|' !in otherCheck && AreNames(names) && AreNames(others)
    ensures check + "|" + file + "|" + Joined(names, ",") == otherCheck + "|" + otherFile + "|" + Joined(others, ",")
       <==> check == otherCheck && file == otherFile && names == others
  {
    JoinedChars(names);
    JoinedChars(others);
    var left, right := file + "|" + Joined(names, ","), otherFile + "|" + Joined(others, ",");
    if check + "|" + file + "|" + Joined(names, ",") == otherCheck + "|" + otherFile + "|" + Joined(others, ",") {
      assert check + ['|'] + left == check + "|" + file + "|" + Joined(names, ",");
      assert otherCheck + ['|'] + right == otherCheck + "|" + otherFile + "|" + Joined(others, ",");
      SplitsAtFirst('|', check, left, otherCheck, right);
      SplitsAtLast('|', file, Joined(names, ","), otherFile, Joined(others, ","));
      JoinedTellsApart(names, others);
    }
  }

  lemma SameKeyExactly(issue: Issue, projected: Issue, plan: Plan, arrange: Arrange)
    requires Sorts(arrange) && IsReadable(issue, plan) && IsReadable(projected, plan)
    ensures BaselineKey(issue, arrange) == ProjectedKey(projected, plan, arrange) <==> IsSame(issue, projected, plan)
  {
    var names := NamesOf(issue);
    var others := Mapped(NamesOf(projected), (name: string) => MapBack(plan.renames, name));
    assert Mapped(names, (name: string) => name) == names;
    ArrangedNames(arrange, names);
    ArrangedNames(arrange, others);
    KeysTellApart(issue.check, issue.file, arrange(names), projected.check, projected.file, arrange(others));
    assert multiset(arrange(names)) == multiset(names) && multiset(arrange(others)) == multiset(others);
  }

  // Where an error is filed: under the exported patch when it implicates it, else as pre-existing
  // when the queue had the same error before, else as caused by renumbering.
  lemma FiledExactly(issue: Issue, baseline: seq<Issue>, plan: Plan, arrange: Arrange, includes: Includes)
    requires Sorts(arrange) && IsReadable(issue, plan)
    requires forall i | 0 <= i < |baseline| :: IsReadable(baseline[i], plan)
    ensures var namesNew := if issue.patches.Some? then plan.newFilename in issue.patches.value
                            else includes(issue.message, plan.newFilename);
            var hadBefore := exists i | 0 <= i < |baseline| :: IsSame(baseline[i], issue, plan);
            GroupOf(issue, baseline, plan, arrange, includes)
            == if namesNew then Exported else if hadBefore then PreExisting else Renumbering
  {
    forall i | 0 <= i < |baseline|
      ensures BaselineKey(baseline[i], arrange) == ProjectedKey(issue, plan, arrange)
          <==> IsSame(baseline[i], issue, plan)
    {
      SameKeyExactly(baseline[i], issue, plan, arrange);
    }
  }

  // The groups hold the errors filed under them, in the order they were found.
  lemma {:induction false} GroupsAreThose<T>(issues: seq<T>, n: nat, group: T -> Group, which: Group)
    requires n <= |issues|
    ensures InGroup(issues, n, group, which)
         == Somes(seq(n, i requires 0 <= i < n => if group(issues[i]) == which then Some(issues[i]) else None))
  {
    if n > 0 {
      GroupsAreThose(issues, n - 1, group, which);
      var before := seq(n - 1, i requires 0 <= i < n - 1 =>
        if group(issues[i]) == which then Some(issues[i]) else None);
      var last := if group(issues[n - 1]) == which then Some(issues[n - 1]) else None;
      SomesAppend(before, last);
      assert seq(n, i requires 0 <= i < n => if group(issues[i]) == which then Some(issues[i]) else None)
          == before + [last];
    }
  }

  lemma CountAppend<T>(xs: seq<T>, last: T, x: T)
    ensures multiset(xs + [last])[x] == multiset(xs)[x] + if last == x then 1 else 0
  {
  }

  // Every error lands in exactly one group, as often as it was reported.
  lemma {:induction false} GroupsPartition<T>(issues: seq<T>, n: nat, group: T -> Group, which: Group, issue: T)
    requires n <= |issues|
    ensures multiset(InGroup(issues, n, group, which))[issue]
         == if group(issue) == which then multiset(issues[..n])[issue] else 0
  {
    if n > 0 {
      var last := issues[n - 1];
      GroupsPartition(issues, n - 1, group, which, issue);
      assert issues[..n] == issues[..n - 1] + [last];
      CountAppend(issues[..n - 1], last, issue);
      if group(last) == which {
        CountAppend(InGroup(issues, n - 1, group, which), last, issue);
      }
    }
  }
}
