// Laws of `applyHunksByContext` on texts: when a reversed application restores the text, and how
// an application changes its length.
module HunkLaws {
  import opened Prelude
  import opened TextLines
  import opened Edits
  import opened EditLaws
  import opened HunkEngine

  // ----- Inversion on texts -----------------------------------------------------------------

  // From hunk `i` on, each hunk's new side starts where its old side does, moved by what the
  // hunks before it grew: what a diff's headers say when they match its content.
  ghost predicate HeadersAgree(hunks: seq<Hunk>, i: nat, growth: int)
    requires i <= |hunks|
    decreases |hunks| - i
  {
    i < |hunks| ==>
      && EditOf(hunks[i], true).start == EditOf(hunks[i], false).start + growth
      && HeadersAgree(hunks, i + 1, growth + |New(hunks[i])| - |Old(hunks[i])|)
  }

  lemma {:induction false} AgreeingHeadersUndo(hunks: seq<Hunk>, i: nat, growth: int)
    requires i <= |hunks| && HeadersAgree(hunks, i, growth)
    ensures Undoes(EditsOf(hunks, true), EditsOf(hunks, false), i, growth)
    decreases |hunks| - i
  {
    if i < |hunks| {
      AgreeingHeadersUndo(hunks, i + 1, growth + |New(hunks[i])| - |Old(hunks[i])|);
    }
  }

  // Parsed hunk lines are the pieces of a text split at newlines.
  ghost predicate OneLineEach(hunks: seq<Hunk>) {
    forall i, k | 0 <= i < |hunks| && 0 <= k < |hunks[i].lines| :: '\n' !in hunks[i].lines[k]
  }

  lemma {:induction false} MarkedHasNoNewline(lines: seq<string>, markers: set<char>)
    requires forall k | 0 <= k < |lines| :: '\n' !in lines[k]
    ensures forall line | line in Marked(lines, markers) :: '\n' !in line
  {
    if lines != [] {
      MarkedHasNoNewline(lines[1..], markers);
      assert lines[0] != "" ==> forall c | c in lines[0][1..] :: c in lines[0];
    }
  }

  lemma {:induction false} PatchKeeps(lines: seq<string>, line: nat, edits: seq<Edit<string>>, i: nat)
    requires i <= |edits| && Exact(lines, line, edits, i)
    requires forall text | text in lines :: '\n' !in text
    requires forall k, text | 0 <= k < |edits| && text in edits[k].to :: '\n' !in text
    ensures forall text | text in Patch(lines, line, edits, i) :: '\n' !in text
    decreases |edits| - i
  {
    if i < |edits| {
      PatchKeeps(lines, edits[i].start + |edits[i].from|, edits, i + 1);
    }
  }

  lemma PatchedLinesHaveNoNewline(lines: seq<string>, hunks: seq<Hunk>)
    requires forall text | text in lines :: '\n' !in text
    requires OneLineEach(hunks) && Exact(lines, 0, EditsOf(hunks, false), 0)
    ensures forall text | text in Patch(lines, 0, EditsOf(hunks, false), 0) :: '\n' !in text
  {
    var edits := EditsOf(hunks, false);
    forall k, text | 0 <= k < |edits| && text in edits[k].to
      ensures '\n' !in text
    {
      MarkedHasNoNewline(hunks[k].lines, {' ', '+'});
      assert edits[k] == EditOf(hunks[k], false);
    }
    PatchKeeps(lines, 0, edits, 0);
  }

  // Hunks that match the text are undone by the reversed application exactly when the first
  // application leaves the final newline as it was. A text without one that becomes empty, or
  // whose last line becomes empty, is read back as ending in one.
  lemma TextInvertsExactly(content: string, hunks: seq<Hunk>)
    requires Exact(Open(content).lines, 0, EditsOf(hunks, false), 0) && HeadersAgree(hunks, 0, 0)
    requires OneLineEach(hunks)
    ensures Apply(content, hunks, false).Ok?
    ensures var applied := Apply(content, hunks, false).value;
            Apply(applied, hunks, true) == Ok(content) <==> EndsWithNewline(applied) == EndsWithNewline(content)
  {
    var lines, edits := Open(content).lines, EditsOf(hunks, false);
    AgreeingHeadersUndo(hunks, 0, 0);
    Inversion(lines, edits, EditsOf(hunks, true));
    PatchedLinesHaveNoNewline(lines, hunks);
    var patched := Document(Patch(lines, 0, edits, 0), EndsWithNewline(content));
    CloseAfterOpen(content);
    CloseAfterOpen(Close(patched));
    OpenAfterClose(patched);
  }

  lemma AppliedExactly(content: string, hunks: seq<Hunk>)
    requires Exact(Open(content).lines, 0, EditsOf(hunks, false), 0)
    ensures Apply(content, hunks, false)
         == Ok(Close(Document(Patch(Open(content).lines, 0, EditsOf(hunks, false), 0), EndsWithNewline(content))))
  {
    ExactIsPatch(Open(content).lines, EditsOf(hunks, false));
  }

  // The same, told from the content and the last line it is left with.
  lemma InvertsByItsLastLine(content: string, hunks: seq<Hunk>)
    requires Exact(Open(content).lines, 0, EditsOf(hunks, false), 0) && HeadersAgree(hunks, 0, 0)
    requires OneLineEach(hunks)
    ensures Apply(content, hunks, false).Ok?
    ensures var patched := Patch(Open(content).lines, 0, EditsOf(hunks, false), 0);
            Apply(Apply(content, hunks, false).value, hunks, true) == Ok(content)
            <==> EndsWithNewline(content) || (patched != [] && patched[|patched| - 1] != "")
  {
    TextInvertsExactly(content, hunks);
    AppliedExactly(content, hunks);
    CloseAfterOpen(content);
    PatchedLinesHaveNoNewline(Open(content).lines, hunks);
    ClosedNewlineExactly(Patch(Open(content).lines, 0, EditsOf(hunks, false), 0), EndsWithNewline(content));
  }

  // A text whose only line is replaced by an empty one: the forward result is the empty text, and
  // the reversed application no longer finds the empty line.
  lemma EmptiedLastLineIsNotUndone()
    ensures var hunks := [Hunk(1, 1, 1, 1, ["-a", "+"])];
            Apply("a", hunks, false) == Ok("") && Apply("", hunks, true) == Err(hunks[0])
  {
    var hunk := Hunk(1, 1, 1, 1, ["-a", "+"]);
    assert hunk.lines[1..] == ["+"] && ["+"][1..] == [] && "-a"[1..] == "a" && "+"[1..] == "";
    assert Marked(["+"], {' ', '+'}) == [""] && Marked(["+"], {' ', '-'}) == [];
    assert Old(hunk) == ["a"] && New(hunk) == [""];
    assert EditsOf([hunk], false) == [Edit(0, ["a"], [""])] && EditsOf([hunk], true) == [Edit(0, [""], ["a"])];
    SplitLine("a");
    FindExact(["a"], ["a"], 0, 0);
    RunStep(Cursor(["a"], 0, 0), EditsOf([hunk], false), 0, 0, Cursor([""], 0, 1));
    FindIsNearest([], [""], 0, 0);
  }

  // A hunk that replaces the only line, then one that inserts before it.
  function Backward(): seq<Hunk> {
    [Hunk(1, 1, 1, 1, ["-a", "+b"]), Hunk(0, 0, 1, 1, ["+c"])]
  }

  lemma BackwardSides()
    ensures Old(Backward()[0]) == ["a"] && New(Backward()[0]) == ["b"]
    ensures Old(Backward()[1]) == [] && New(Backward()[1]) == ["c"]
  {
    MarkedAppend(["-a"], "+b", {' ', '-'});
    MarkedAppend(["-a"], "+b", {' ', '+'});
    assert ["-a"] + ["+b"] == ["-a", "+b"];
    assert ["-a"][1..] == [] && ["+c"][1..] == [];
    assert "-a"[1..] == "a" && "+b"[1..] == "b" && "+c"[1..] == "c";
  }

  lemma BackwardEdits()
    ensures EditsOf(Backward(), false) == [Edit(0, ["a"], ["b"]), Edit(0, [], ["c"])]
  {
    BackwardSides();
    var edits := EditsOf(Backward(), false);
    assert edits[0] == EditOf(Backward()[0], false) && edits[1] == EditOf(Backward()[1], false);
  }

  lemma BackwardTexts()
    ensures Open("a") == Document(["a"], false)
    ensures Close(Document(["c", "b"], false)) == "c" + "\n" + "b"
  {
    SplitLine("a");
    assert ["c", "b"][1..] == ["b"];
  }

  // Both are applied, and the second lands above what the first wrote.
  lemma BackwardHunkBreaksTheFrame()
    ensures Apply("a", Backward(), false) == Ok("c" + "\n" + "b")
    ensures !Framed(["a"], EditsOf(Backward(), false), ["c", "b"])
  {
    BackwardEdits();
    BackwardTexts();
    BackwardInsertionBreaksTheFrame("a", "b", "c");
    var edits := EditsOf(Backward(), false);
    assert ApplyEdits(["a"], edits) == Ok(["c", "b"]);
    AppliedAs("a", Backward(), ["a"], ["c", "b"]);
  }

  lemma AppliedAs(content: string, hunks: seq<Hunk>, lines: seq<string>, applied: seq<string>)
    requires Open(content) == Document(lines, false)
    requires ApplyEdits(lines, EditsOf(hunks, false)) == Ok(applied)
    ensures Apply(content, hunks, false) == Ok(Close(Document(applied, false)))
  {
    CloseAfterOpen(content);
  }

  // ----- Length -----------------------------------------------------------------------------

  function Count(lines: seq<string>, marker: char): nat {
    if lines == [] then 0 else (if lines[0] != "" && lines[0][0] == marker then 1 else 0) + Count(lines[1..], marker)
  }

  // The `+` lines of hunks i.. less their `-` lines.
  function Growth(hunks: seq<Hunk>, i: nat): int
    requires i <= |hunks|
    decreases |hunks| - i
  {
    if i == |hunks| then 0
    else Count(hunks[i].lines, '+') - Count(hunks[i].lines, '-') + Growth(hunks, i + 1)
  }

  lemma {:induction false} MarkedCounts(lines: seq<string>)
    ensures |Marked(lines, {' ', '+'})| - |Marked(lines, {' ', '-'})| == Count(lines, '+') - Count(lines, '-')
  {
    if lines != [] {
      MarkedCounts(lines[1..]);
    }
  }

  // What hunks i.. add to a buffer, forward or reversed.
  function Gain(hunks: seq<Hunk>, i: nat, reverse: bool): int
    requires i <= |hunks|
  {
    if reverse then -Growth(hunks, i) else Growth(hunks, i)
  }

  lemma {:induction false} RunGrows(cursor: Cursor<string>, hunks: seq<Hunk>, i: nat, reverse: bool)
    requires i <= |hunks| && Run(cursor, EditsOf(hunks, reverse), i).Ok?
    ensures |Run(cursor, EditsOf(hunks, reverse), i).value| == |cursor.lines| + Gain(hunks, i, reverse)
    decreases |hunks| - i
  {
    if i < |hunks| {
      var edits := EditsOf(hunks, reverse);
      var at := Place(cursor, edits[i]).value;
      PlaceFits(cursor, edits[i]);
      MarkedCounts(hunks[i].lines);
      RunGrows(Advance(cursor, edits[i], at), hunks, i + 1, reverse);
    }
  }

  // However its hunks were displaced, a successful application lengthens the buffer by its `+`
  // lines less its `-` lines, and a reversed one shortens it by as many.
  lemma ApplicationGrows(lines: seq<string>, hunks: seq<Hunk>, reverse: bool)
    requires ApplyEdits(lines, EditsOf(hunks, reverse)).Ok?
    ensures |ApplyEdits(lines, EditsOf(hunks, reverse)).value| == |lines| + Gain(hunks, 0, reverse)
  {
    RunGrows(Cursor(lines, 0, 0), hunks, 0, reverse);
  }

  // ----- Foreign lines above a text ---------------------------------------------------------

  // Where the first hunk lands in `content` is where it lands with `above` on top of it: nothing
  // else that matches is preferred.
  ghost predicate FirstStays(above: string, content: string, hunks: seq<Hunk>, reverse: bool)
    requires hunks != [] && Apply(content, hunks, reverse).Ok?
  {
    var upper, lines, first := Open(above).lines, Open(content).lines, EditOf(hunks[0], reverse);
    Place(Cursor(lines, 0, 0), first).Some?
    && NothingPreferred(upper + lines, first, Place(Cursor(lines, 0, 0), first).value + |upper|)
  }

  // Hunks whose first one stays where it is are applied below foreign lines as they are without
  // them, exactly when the text has a final newline or a line is left of it: without either, the
  // foreign lines lose their own last newline.
  lemma TextShiftsExactly(above: string, content: string, hunks: seq<Hunk>, reverse: bool)
    requires above != "" && EndsWithNewline(above)
    requires hunks != [] && EditOf(hunks[0], reverse).from != [] && Ordered(EditsOf(hunks, reverse), 0, 0)
    requires Apply(content, hunks, reverse).Ok? && FirstStays(above, content, hunks, reverse)
    ensures Apply(above + content, hunks, reverse).Ok?
    ensures Apply(above + content, hunks, reverse) == Ok(above + Apply(content, hunks, reverse).value)
       <==> EndsWithNewline(content) || |Open(content).lines| + Gain(hunks, 0, reverse) != 0
  {
    var upper, lines, edits := Open(above).lines, Open(content).lines, EditsOf(hunks, reverse);
    OpenBelow(above, content);
    ShiftInvariance(upper, lines, edits);
    ApplicationGrows(lines, hunks, reverse);
    CloseBelow(above, ApplyEdits(lines, edits).value, EndsWithNewline(content));
    CloseAfterOpen(above + content);
  }
}
