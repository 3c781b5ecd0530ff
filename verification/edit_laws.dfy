// Laws of the splice loop over whole edit lists: what it leaves alone, what exact lines make of
// it, how a displacement is carried from edit to edit, and when a second run undoes a first.
module EditLaws {
  import opened Prelude
  import opened Edits

  // ----- Order ------------------------------------------------------------------------------

  // From edit `i` on, the edits' line ranges come in order and do not overlap.
  ghost predicate Ordered<T>(edits: seq<Edit<T>>, i: nat, line: int)
    requires i <= |edits|
    decreases |edits| - i
  {
    i < |edits| ==> line <= edits[i].start && Ordered(edits, i + 1, edits[i].start + |edits[i].from|)
  }

  // Every edit lands at or after the end of the one before it.
  ghost predicate InOrder<T>(cursor: Cursor<T>, edits: seq<Edit<T>>, i: nat)
    requires i <= |edits|
    decreases |edits| - i
  {
    i < |edits| && Place(cursor, edits[i]).Some? ==>
      var at := Place(cursor, edits[i]).value;
      && cursor.floor <= at
      && Fits(cursor, edits[i], at)
      && InOrder(Advance(cursor, edits[i], at), edits, i + 1)
  }

  // Between ordered edits `floor - offset` is the line reached so far, so the clamp at zero never
  // acts, and an empty block, which skips the search and the floor, still lands after the floor.
  lemma {:induction false} OrderedLandsInOrder<T>(cursor: Cursor<T>, edits: seq<Edit<T>>, i: nat)
    requires i <= |edits| && Ordered(edits, i, cursor.floor - cursor.offset)
    ensures InOrder(cursor, edits, i)
    decreases |edits| - i
  {
    if i < |edits| && Place(cursor, edits[i]).Some? {
      PlaceFits(cursor, edits[i]);
      OrderedLandsInOrder(Advance(cursor, edits[i], Place(cursor, edits[i]).value), edits, i + 1);
    }
  }

  lemma {:induction false} SearchedLandsInOrder<T>(cursor: Cursor<T>, edits: seq<Edit<T>>, i: nat)
    requires i <= |edits| && forall k | i <= k < |edits| :: edits[k].from != []
    ensures InOrder(cursor, edits, i)
    decreases |edits| - i
  {
    if i < |edits| && Place(cursor, edits[i]).Some? {
      PlaceFits(cursor, edits[i]);
      SearchedLandsInOrder(Advance(cursor, edits[i], Place(cursor, edits[i]).value), edits, i + 1);
    }
  }

  // ----- Frame ------------------------------------------------------------------------------

  // gaps[0] + block + gaps[1] + block + ... + gaps[n], with the blocks of edits i.. of one side.
  function Weave<T>(gaps: seq<seq<T>>, edits: seq<Edit<T>>, i: nat, written: bool): seq<T>
    requires i <= |edits| && |gaps| == |edits| - i + 1
    decreases |edits| - i
  {
    if i == |edits| then gaps[0]
    else gaps[0] + (if written then edits[i].to else edits[i].from) + Weave(gaps[1..], edits, i + 1, written)
  }

  // The part of the buffer later edits leave alone.
  function Reach<T>(cursor: Cursor<T>): nat {
    if cursor.floor < |cursor.lines| then cursor.floor else |cursor.lines|
  }

  lemma SlicesJoin<T>(s: seq<T>, i: nat, j: nat, k: nat)
    requires i <= j <= k <= |s|
    ensures s[i..] == s[i..j] + s[j..k] + s[k..]
    ensures s[..j] == s[..i] + s[i..j]
  {
  }

  lemma Regroup<T>(a: seq<T>, b: seq<T>, c: seq<T>, d: seq<T>)
    ensures a + b + c + d == a + (b + c + d)
  {
  }

  // What a splice of `to` over `from`, at or after `reach`, leaves on either side.
  lemma SpliceAround<T>(lines: seq<T>, reach: nat, at: nat, from: seq<T>, to: seq<T>) returns (gap: seq<T>)
    requires reach <= at && reach <= |lines|
    requires from == [] || MatchesAt(lines, from, at)
    ensures var spliced := Splice(lines, at, |from|, to);
            var written := if at + |to| < |spliced| then at + |to| else |spliced|;
            && lines[reach..] == gap + from + spliced[written..]
            && spliced[..written] == lines[..reach] + gap + to
  {
    var cut := if at < |lines| then at else |lines|;
    gap := lines[reach..cut];
    SlicesJoin(lines, reach, cut, cut + |from|);
    assert lines[cut..cut + |from|] == from;
  }

  lemma FrameStep<T>(cursor: Cursor<T>, edits: seq<Edit<T>>, i: nat) returns (next: Cursor<T>, gap: seq<T>)
    requires i < |edits| && InOrder(cursor, edits, i) && Run(cursor, edits, i).Ok?
    ensures InOrder(next, edits, i + 1) && Run(cursor, edits, i) == Run(next, edits, i + 1)
    ensures cursor.lines[Reach(cursor)..] == gap + edits[i].from + next.lines[Reach(next)..]
    ensures next.lines[..Reach(next)] == cursor.lines[..Reach(cursor)] + gap + edits[i].to
  {
    var at := Place(cursor, edits[i]).value;
    PlaceFits(cursor, edits[i]);
    next := Advance(cursor, edits[i], at);
    RunStep(cursor, edits, i, at, next);
    gap := SpliceAround(cursor.lines, Reach(cursor), at, edits[i].from, edits[i].to);
  }

  lemma {:induction false} FrameFrom<T>(cursor: Cursor<T>, edits: seq<Edit<T>>, i: nat) returns (gaps: seq<seq<T>>)
    requires i <= |edits| && InOrder(cursor, edits, i) && Run(cursor, edits, i).Ok?
    ensures |gaps| == |edits| - i + 1
    ensures cursor.lines[Reach(cursor)..] == Weave(gaps, edits, i, false)
    ensures Run(cursor, edits, i).value == cursor.lines[..Reach(cursor)] + Weave(gaps, edits, i, true)
    decreases |edits| - i
  {
    if i == |edits| {
      gaps := [cursor.lines[Reach(cursor)..]];
    } else {
      var next, gap := FrameStep(cursor, edits, i);
      var rest := FrameFrom(next, edits, i + 1);
      gaps := [gap] + rest;
      assert gaps[1..] == rest;
      Regroup(cursor.lines[..Reach(cursor)], gap, edits[i].to, Weave(rest, edits, i + 1, true));
    }
  }

  // Input and output are the same gaps around the replaced and the written blocks.
  ghost predicate Framed<T(!new)>(lines: seq<T>, edits: seq<Edit<T>>, edited: seq<T>) {
    exists gaps: seq<seq<T>> | |gaps| == |edits| + 1 ::
      lines == Weave(gaps, edits, 0, false) && edited == Weave(gaps, edits, 0, true)
  }

  // Whenever the edits land in order, no line outside a named block is changed, lost or reordered,
  // however far the edits were displaced.
  lemma InOrderFrame<T(!new)>(lines: seq<T>, edits: seq<Edit<T>>)
    requires InOrder(Cursor(lines, 0, 0), edits, 0) && ApplyEdits(lines, edits).Ok?
    ensures Framed(lines, edits, ApplyEdits(lines, edits).value)
  {
    var gaps := FrameFrom(Cursor(lines, 0, 0), edits, 0);
    assert lines[Reach(Cursor(lines, 0, 0))..] == lines && lines[..Reach(Cursor(lines, 0, 0))] == [];
  }

  // They do when their lines come in order, or when every one replaces something.
  lemma Frame<T(!new)>(lines: seq<T>, edits: seq<Edit<T>>)
    requires Ordered(edits, 0, 0) || forall k | 0 <= k < |edits| :: edits[k].from != []
    requires ApplyEdits(lines, edits).Ok?
    ensures Framed(lines, edits, ApplyEdits(lines, edits).value)
  {
    var cursor := Cursor(lines, 0, 0);
    if Ordered(edits, 0, 0) {
      OrderedLandsInOrder(cursor, edits, 0);
    } else {
      SearchedLandsInOrder(cursor, edits, 0);
    }
    InOrderFrame(lines, edits);
  }

  // An insertion whose line runs backwards is written before the edit already placed, so the
  // written blocks no longer stand in edit order around the gaps of the input.
  lemma BackwardInsertionBreaksTheFrame<T(!new)>(a: T, b: T, c: T)
    requires b != c
    ensures var edits := [Edit(0, [a], [b]), Edit(0, [], [c])];
            && ApplyEdits([a], edits) == Ok([c, b])
            && !Framed([a], edits, [c, b])
  {
    var edits := [Edit(0, [a], [b]), Edit(0, [], [c])];
    FindExact([a], [a], 0, 0);
    RunStep(Cursor([a], 0, 0), edits, 0, 0, Cursor([b], 0, 1));
    RunStep(Cursor([b], 0, 1), edits, 1, 0, Cursor([c, b], 1, 1));
    forall gaps | |gaps| == 3 && Weave(gaps, edits, 0, false) == [a]
      ensures Weave(gaps, edits, 0, true) != [c, b]
    {
      var replaced, written := Weave(gaps[1..], edits, 1, false), Weave(gaps[1..], edits, 1, true);
      assert |gaps[0]| + 1 + |replaced| == 1;
      assert Weave(gaps, edits, 0, true) == gaps[0] + [b] + written;
      assert Weave(gaps, edits, 0, true)[0] == b;
    }
  }

  // ----- Exact lines ------------------------------------------------------------------------

  // From edit `i` on, every replaced block stands exactly at its line, at or after `line`.
  ghost predicate Exact<T>(lines: seq<T>, line: nat, edits: seq<Edit<T>>, i: nat)
    requires i <= |edits|
    decreases |edits| - i
  {
    && line <= |lines|
    && (i < |edits| ==>
         && line <= edits[i].start
         && MatchesAt(lines, edits[i].from, edits[i].start)
         && Exact(lines, edits[i].start + |edits[i].from|, edits, i + 1))
  }

  // The plain patch: copy the gaps the lines leave, write the new blocks.
  function Patch<T>(lines: seq<T>, line: nat, edits: seq<Edit<T>>, i: nat): seq<T>
    requires i <= |edits| && Exact(lines, line, edits, i)
    decreases |edits| - i
  {
    if i == |edits| then lines[line..]
    else lines[line..edits[i].start] + edits[i].to + Patch(lines, edits[i].start + |edits[i].from|, edits, i + 1)
  }

  lemma FindExact<T>(lines: seq<T>, block: seq<T>, expected: nat, floor: int)
    requires floor <= expected && MatchesAt(lines, block, expected)
    ensures Find(lines, block, expected, floor) == Some(expected)
  {
    assert Admissible(lines, block, floor, expected - 0);
  }

  // The buffer after `done` has been written in place of the first `line` lines.
  function Written<T>(done: seq<T>, lines: seq<T>, line: nat): Cursor<T>
    requires line <= |lines|
  {
    Cursor(done + lines[line..], |done| - line, |done|)
  }

  lemma WrittenSlices<T>(done: seq<T>, lines: seq<T>, line: nat, start: nat, next: nat)
    requires line <= start <= next <= |lines|
    ensures var buffer, at := done + lines[line..], start + |done| - line;
            && buffer[at..at + (next - start)] == lines[start..next]
            && buffer[..at] == done + lines[line..start]
            && buffer[at + (next - start)..] == lines[next..]
  {
  }

  lemma ExactStep<T>(lines: seq<T>, line: nat, done: seq<T>, edit: Edit<T>)
    requires line <= edit.start && MatchesAt(lines, edit.from, edit.start)
    ensures var cursor, at := Written(done, lines, line), edit.start + |done| - line;
            && Place(cursor, edit) == Some(at)
            && Fits(cursor, edit, at)
            && Advance(cursor, edit, at)
               == Written(done + lines[line..edit.start] + edit.to, lines, edit.start + |edit.from|)
  {
    var cursor, at := Written(done, lines, line), edit.start + |done| - line;
    WrittenSlices(done, lines, line, edit.start, edit.start + |edit.from|);
    FindExact(cursor.lines, edit.from, at, |done|);
  }

  lemma {:induction false} ExactFrom<T>(lines: seq<T>, line: nat, done: seq<T>, edits: seq<Edit<T>>, i: nat)
    requires i <= |edits| && Exact(lines, line, edits, i)
    ensures Run(Written(done, lines, line), edits, i) == Ok(done + Patch(lines, line, edits, i))
    decreases |edits| - i
  {
    if i < |edits| {
      var start, next := edits[i].start, edits[i].start + |edits[i].from|;
      var gap, to, rest := lines[line..start], edits[i].to, Patch(lines, next, edits, i + 1);
      ExactStep(lines, line, done, edits[i]);
      RunStep(Written(done, lines, line), edits, i, start + |done| - line, Written(done + gap + to, lines, next));
      ExactFrom(lines, next, done + gap + to, edits, i + 1);
      assert Patch(lines, line, edits, i) == gap + to + rest;
      Regroup(done, gap, to, rest);
    }
  }

  // On exact lines the search never moves an edit and the splice loop is the plain patch.
  lemma ExactIsPatch<T>(lines: seq<T>, edits: seq<Edit<T>>)
    requires Exact(lines, 0, edits, 0)
    ensures ApplyEdits(lines, edits) == Ok(Patch(lines, 0, edits, 0))
  {
    ExactFrom(lines, 0, [], edits, 0);
    assert [] + lines[0..] == lines;
    assert [] + Patch(lines, 0, edits, 0) == Patch(lines, 0, edits, 0);
  }

  // ----- Inversion --------------------------------------------------------------------------

  // From edit `i` on, `back` undoes `edits`: each block the other way round, starting where the
  // edit does, moved by what the edits before it grew.
  ghost predicate Undoes<T>(back: seq<Edit<T>>, edits: seq<Edit<T>>, i: nat, growth: int)
    requires i <= |edits| == |back|
    decreases |edits| - i
  {
    i < |edits| ==>
      && back[i] == Edit(edits[i].start + growth, edits[i].to, edits[i].from)
      && Undoes(back, edits, i + 1, growth + |edits[i].to| - |edits[i].from|)
  }

  lemma PatchedSlices<T>(done: seq<T>, gap: seq<T>, to: seq<T>, rest: seq<T>)
    ensures var patched := done + (gap + to + rest);
            && patched == done + gap + to + rest
            && patched[|done|..|done + gap|] == gap
            && patched[|done + gap|..|done + gap + to|] == to
            && patched[|done + gap + to|..] == rest
  {
  }

  lemma {:induction false} PatchedIsExact<T>(lines: seq<T>, line: nat, done: seq<T>, edits: seq<Edit<T>>,
                                             back: seq<Edit<T>>, i: nat)
    requires i <= |edits| == |back| && Exact(lines, line, edits, i)
    requires Undoes(back, edits, i, |done| - line)
    ensures var patched := done + Patch(lines, line, edits, i);
            Exact(patched, |done|, back, i) && Patch(patched, |done|, back, i) == lines[line..]
    decreases |edits| - i
  {
    if i < |edits| {
      var start, next := edits[i].start, edits[i].start + |edits[i].from|;
      var gap, rest := lines[line..start], Patch(lines, next, edits, i + 1);
      PatchedSlices(done, gap, edits[i].to, rest);
      PatchedIsExact(lines, next, done + gap + edits[i].to, edits, back, i + 1);
      SlicesJoin(lines, line, start, next);
    }
  }

  // The edits undone in one run, insertions and deletions included.
  lemma Inversion<T>(lines: seq<T>, edits: seq<Edit<T>>, back: seq<Edit<T>>)
    requires |edits| == |back| && Exact(lines, 0, edits, 0) && Undoes(back, edits, 0, 0)
    ensures ApplyEdits(lines, edits) == Ok(Patch(lines, 0, edits, 0))
    ensures ApplyEdits(Patch(lines, 0, edits, 0), back) == Ok(lines)
  {
    var patched := Patch(lines, 0, edits, 0);
    ExactIsPatch(lines, edits);
    PatchedIsExact(lines, 0, [], edits, back, 0);
    assert [] + patched == patched && lines[0..] == lines;
    ExactIsPatch(patched, back);
  }

  // ----- Shift ------------------------------------------------------------------------------

  // The cursor `foreign` lines further down.
  function Below<T>(foreign: seq<T>, cursor: Cursor<T>): Cursor<T> {
    Cursor(foreign + cursor.lines, cursor.offset + |foreign|, cursor.floor + |foreign|)
  }

  lemma AdmissibleBelow<T>(foreign: seq<T>, lines: seq<T>, block: seq<T>, floor: nat, at: int)
    ensures Admissible(foreign + lines, block, floor + |foreign|, at)
       <==> Admissible(lines, block, floor, at - |foreign|)
  {
    var k := |foreign|;
    if floor + k <= at && at + |block| <= k + |lines| {
      assert (foreign + lines)[at..at + |block|] == lines[at - k..at - k + |block|];
    }
  }

  lemma FindBelow<T>(foreign: seq<T>, lines: seq<T>, block: seq<T>, expected: int, floor: nat)
    requires Find(lines, block, expected, floor).Some?
    ensures Find(foreign + lines, block, expected + |foreign|, floor + |foreign|)
         == Some(Find(lines, block, expected, floor).value + |foreign|)
  {
    var at := Find(lines, block, expected, floor).value;
    FindIsNearest(lines, block, expected, floor);
    AdmissibleBelow(foreign, lines, block, floor, at + |foreign|);
    var whole, low := foreign + lines, floor + |foreign|;
    forall other | Admissible(whole, block, low, other)
      ensures Preferred(expected + |foreign|, at + |foreign|, other)
    {
      AdmissibleBelow(foreign, lines, block, floor, other);
    }
    NearestIsFind(whole, block, expected + |foreign|, low, Some(at + |foreign|));
  }

  lemma SpliceBelow<T>(foreign: seq<T>, lines: seq<T>, at: nat, count: nat, to: seq<T>)
    requires count == 0 || at + count <= |lines|
    ensures Splice(foreign + lines, at + |foreign|, count, to) == foreign + Splice(lines, at, count, to)
  {
  }

  lemma ShiftStep<T>(foreign: seq<T>, cursor: Cursor<T>, edit: Edit<T>, at: nat)
    requires cursor.floor <= edit.start + cursor.offset
    requires Place(cursor, edit) == Some(at) && Fits(cursor, edit, at)
    ensures var below := Below(foreign, cursor);
            && Place(below, edit) == Some(at + |foreign|)
            && Fits(below, edit, at + |foreign|)
            && Advance(below, edit, at + |foreign|) == Below(foreign, Advance(cursor, edit, at))
  {
    if edit.from != [] {
      FindBelow(foreign, cursor.lines, edit.from, Expected(cursor, edit), cursor.floor);
    }
    SpliceBelow(foreign, cursor.lines, at, |edit.from|, edit.to);
  }

  // Once the offset carries a displacement, every later ordered edit follows it.
  lemma {:induction false} ShiftFrom<T>(foreign: seq<T>, cursor: Cursor<T>, edits: seq<Edit<T>>, i: nat)
    requires i <= |edits| && Ordered(edits, i, cursor.floor - cursor.offset)
    requires Run(cursor, edits, i).Ok?
    ensures Run(Below(foreign, cursor), edits, i) == Ok(foreign + Run(cursor, edits, i).value)
    decreases |edits| - i
  {
    if i < |edits| {
      var at := Place(cursor, edits[i]).value;
      PlaceFits(cursor, edits[i]);
      var next := Advance(cursor, edits[i], at);
      ShiftStep(foreign, cursor, edits[i], at);
      RunStep(cursor, edits, i, at, next);
      RunStep(Below(foreign, cursor), edits, i, at + |foreign|, Below(foreign, next));
      ShiftFrom(foreign, next, edits, i + 1);
    }
  }

  ghost predicate NothingPreferred<T>(lines: seq<T>, edit: Edit<T>, at: int) {
    forall other | Admissible(lines, edit.from, 0, other) :: Preferred(edit.start, at, other)
  }

  // A place within reach at which the block stands is where the first edit lands exactly when no
  // other is preferred.
  lemma LandsWhereNothingIsPreferred<T>(lines: seq<T>, edit: Edit<T>, at: nat)
    requires edit.from != [] && 0 <= edit.start
    requires Admissible(lines, edit.from, 0, at) && Distance(at, edit.start) <= |lines|
    ensures Place(Cursor(lines, 0, 0), edit) == Some(at) <==> NothingPreferred(lines, edit, at)
  {
    FindIsNearest(lines, edit.from, edit.start, 0);
    if NothingPreferred(lines, edit, at) {
      NearestIsFind(lines, edit.from, edit.start, 0, Some(at));
    }
  }

  // With foreign lines above the text, the first edit is found at the same line of the text
  // exactly when no other match is preferred to it.
  lemma FirstBelow<T>(foreign: seq<T>, lines: seq<T>, edit: Edit<T>)
    requires edit.from != [] && 0 <= edit.start
    requires Place(Cursor(lines, 0, 0), edit).Some?
    ensures var at := Place(Cursor(lines, 0, 0), edit).value + |foreign|;
            Place(Cursor(foreign + lines, 0, 0), edit) == Some(at) <==> NothingPreferred(foreign + lines, edit, at)
  {
    var at := Place(Cursor(lines, 0, 0), edit).value;
    FindIsNearest(lines, edit.from, edit.start, 0);
    AdmissibleBelow(foreign, lines, edit.from, 0, at + |foreign|);
    LandsWhereNothingIsPreferred(foreign + lines, edit, at + |foreign|);
  }

  lemma FirstAdvancesBelow<T>(foreign: seq<T>, lines: seq<T>, edit: Edit<T>, at: nat)
    requires edit.from != [] && 0 <= edit.start
    requires Place(Cursor(lines, 0, 0), edit) == Some(at)
    requires Place(Cursor(foreign + lines, 0, 0), edit) == Some(at + |foreign|)
    ensures Fits(Cursor(lines, 0, 0), edit, at) && Fits(Cursor(foreign + lines, 0, 0), edit, at + |foreign|)
    ensures Advance(Cursor(foreign + lines, 0, 0), edit, at + |foreign|)
        == Below(foreign, Advance(Cursor(lines, 0, 0), edit, at))
  {
    PlaceFits(Cursor(lines, 0, 0), edit);
    SpliceBelow(foreign, lines, at, |edit.from|, edit.to);
  }

  // An advance from one ordered edit leaves the next ones ordered.
  lemma RunsBelow<T>(foreign: seq<T>, lines: seq<T>, edits: seq<Edit<T>>, at: nat, next: Cursor<T>)
    requires edits != [] && edits[0].from != [] && Ordered(edits, 0, 0)
    requires Place(Cursor(lines, 0, 0), edits[0]) == Some(at) && Fits(Cursor(lines, 0, 0), edits[0], at)
    requires next == Advance(Cursor(lines, 0, 0), edits[0], at)
    requires Run(next, edits, 1).Ok?
    ensures Run(Below(foreign, next), edits, 1) == Ok(foreign + Run(next, edits, 1).value)
  {
    ShiftFrom(foreign, next, edits, 1);
  }

  // Then the whole run of ordered edits yields the foreign lines followed by what it yields
  // without them: the offset carries the first edit's displacement to every later one.
  lemma ShiftInvariance<T>(foreign: seq<T>, lines: seq<T>, edits: seq<Edit<T>>)
    requires edits != [] && edits[0].from != [] && Ordered(edits, 0, 0)
    requires ApplyEdits(lines, edits).Ok?
    requires NothingPreferred(foreign + lines, edits[0], Place(Cursor(lines, 0, 0), edits[0]).value + |foreign|)
    ensures ApplyEdits(foreign + lines, edits) == Ok(foreign + ApplyEdits(lines, edits).value)
  {
    var at := Place(Cursor(lines, 0, 0), edits[0]).value;
    FirstBelow(foreign, lines, edits[0]);
    FirstAdvancesBelow(foreign, lines, edits[0], at);
    var next := Advance(Cursor(lines, 0, 0), edits[0], at);
    RunStep(Cursor(lines, 0, 0), edits, 0, at, next);
    RunStep(Cursor(foreign + lines, 0, 0), edits, 0, at + |foreign|, Below(foreign, next));
    RunsBelow(foreign, lines, edits, at, next);
  }
}
