// What a run of edits comes to, told from the buffer alone: which of them land, where, and which one
// is refused.
module EditOutcome {
  import opened Prelude
  import opened Edits
  import opened EditLaws

  // The loop's variables with `done` written, `rest` to come, and `line` the line of the unedited
  // buffer that `rest` starts at by the headers' count.
  function At<T>(done: seq<T>, rest: seq<T>, line: int): Cursor<T> {
    Cursor(done + rest, |done| - line, |done|)
  }

  // The line an edit is counted at: its own, unless that lies before the buffer.
  function Counted<T>(edit: Edit<T>, done: nat, line: int): int {
    if edit.start < line - done then line - done else edit.start
  }

  // Where its block is expected: as far behind what is written as the headers say.
  function ExpectedAt<T>(edit: Edit<T>, done: nat, line: int): (at: nat) {
    done + (Counted(edit, done, line) - line)
  }

  // An insertion lands where it is expected, any other edit where its block stands at or after the end
  // of what is written, with none preferred to it.
  ghost predicate LandsAt<T>(done: seq<T>, gap: seq<T>, edit: Edit<T>, rest: seq<T>, line: int) {
    var expected, at := ExpectedAt(edit, |done|, line), |done| + |gap|;
    if edit.from == [] then at == expected else IsNearest(done + rest, edit.from, expected, |done|, Some(at))
  }

  // The edits from `i` on land with `gaps` between them, and the one after them stands nowhere within
  // reach at or after the end of what is written.
  ghost predicate Lands<T>(done: seq<T>, gaps: seq<seq<T>>, edits: seq<Edit<T>>, i: nat, line: int,
                           refused: Option<Edit<T>>)
    requires i <= |edits| && |gaps| == |edits| - i + 1
    decreases |edits| - i
  {
    if i == |edits| then
      refused.Some? ==>
        && refused.value.from != []
        && IsNearest(done + gaps[0], refused.value.from, ExpectedAt(refused.value, |done|, line), |done|, None)
    else
      && LandsAt(done, gaps[0], edits[i], Weave(gaps, edits, i, false), line)
      && Lands(done + gaps[0] + edits[i].to, gaps[1..], edits, i + 1,
               Counted(edits[i], |done|, line) + |edits[i].from|, refused)
  }

  lemma PlaceAt<T>(done: seq<T>, rest: seq<T>, line: int, edit: Edit<T>, at: Option<nat>)
    requires if edit.from == [] then at == Some(ExpectedAt(edit, |done|, line))
             else IsNearest(done + rest, edit.from, ExpectedAt(edit, |done|, line), |done|, at)
    ensures Place(At(done, rest, line), edit) == at
  {
    if edit.from != [] {
      NearestIsFind(done + rest, edit.from, ExpectedAt(edit, |done|, line), |done|, at);
    }
  }

  lemma SpliceBetween<T>(done: seq<T>, gap: seq<T>, from: seq<T>, to: seq<T>, rest: seq<T>)
    ensures Splice(done + (gap + from + rest), |done| + |gap|, |from|, to) == (done + gap + to) + rest
  {
    var buffer, at := done + (gap + from + rest), |done| + |gap|;
    assert buffer[..at] == done + gap;
    assert buffer[at + |from|..] == rest;
  }

  lemma AdvanceAt<T>(done: seq<T>, gap: seq<T>, edit: Edit<T>, rest: seq<T>, line: int)
    ensures var at := |done| + |gap|;
            && Fits(At(done, gap + edit.from + rest, line), edit, at)
            && Advance(At(done, gap + edit.from + rest, line), edit, at)
               == At(done + gap + edit.to, rest, Counted(edit, |done|, line) + |edit.from|)
  {
    SpliceBetween(done, gap, edit.from, edit.to, rest);
  }

  lemma LandStep<T>(done: seq<T>, gap: seq<T>, below: seq<T>, rest: seq<T>, line: int, edit: Edit<T>)
    requires rest == gap + edit.from + below && LandsAt(done, gap, edit, rest, line)
    ensures var here := At(done, rest, line);
            && Place(here, edit) == Some(|done| + |gap|) && Fits(here, edit, |done| + |gap|)
            && Advance(here, edit, |done| + |gap|)
               == At(done + gap + edit.to, below, Counted(edit, |done|, line) + |edit.from|)
  {
    PlaceAt(done, rest, line, edit, Some(|done| + |gap|));
    AdvanceAt(done, gap, edit, below, line);
  }

  // Edits that land so are written so, and the one that stands nowhere is the one named.
  lemma {:induction false} LandsRun<T>(done: seq<T>, gaps: seq<seq<T>>, front: seq<Edit<T>>, i: nat, line: int,
                                       edits: seq<Edit<T>>)
    requires i <= |front| <= |edits| && |gaps| == |front| - i + 1 && front == edits[..|front|]
    requires Lands(done, gaps, front, i, line, if |front| < |edits| then Some(edits[|front|]) else None)
    ensures Run(At(done, Weave(gaps, front, i, false), line), edits, i)
         == if |front| < |edits| then Err(|front|) else Ok(done + Weave(gaps, front, i, true))
    decreases |front| - i
  {
    var rest := Weave(gaps, front, i, false);
    if i == |front| {
      if i < |edits| {
        PlaceAt(done, rest, line, edits[i], None);
      }
    } else {
      var edit, more := edits[i], gaps[1..];
      var next, below := Counted(edit, |done|, line) + |edit.from|, Weave(more, front, i + 1, false);
      LandStep(done, gaps[0], below, rest, line, edit);
      RunStep(At(done, rest, line), edits, i, |done| + |gaps[0]|, At(done + gaps[0] + edit.to, below, next));
      LandsRun(done + gaps[0] + edit.to, more, front, i + 1, next, edits);
      Regroup(done, gaps[0], edit.to, Weave(more, front, i + 1, true));
    }
  }

  lemma CutOut<T>(done: seq<T>, rest: seq<T>, block: seq<T>, at: nat) returns (gap: seq<T>, below: seq<T>)
    requires |done| <= at && MatchesAt(done + rest, block, at)
    ensures |done| + |gap| == at && rest == gap + block + below
  {
    var buffer := done + rest;
    gap, below := buffer[|done|..at], buffer[at + |block|..];
    assert rest == buffer[|done|..];
    SlicesJoin(buffer, |done|, at, at + |block|);
  }

  // Of edits that replace something, some first ones land, all of them or up to one that is refused.
  lemma {:induction false} RunLands<T>(done: seq<T>, rest: seq<T>, edits: seq<Edit<T>>, i: nat, line: int)
      returns (gaps: seq<seq<T>>, n: nat)
    requires i <= |edits| && forall k | i <= k < |edits| :: edits[k].from != []
    ensures i <= n <= |edits| && |gaps| == n - i + 1
    ensures rest == Weave(gaps, edits[..n], i, false)
    ensures Lands(done, gaps, edits[..n], i, line, if n < |edits| then Some(edits[n]) else None)
    decreases |edits| - i
  {
    gaps, n := [rest], i;
    if i < |edits| {
      var expected := ExpectedAt(edits[i], |done|, line);
      var found := Find(done + rest, edits[i].from, expected, |done|);
      FindIsNearest(done + rest, edits[i].from, expected, |done|);
      if found.Some? {
        var gap, below := CutOut(done, rest, edits[i].from, found.value);
        var more;
        more, n := RunLands(done + gap + edits[i].to, below, edits, i + 1,
            Counted(edits[i], |done|, line) + |edits[i].from|);
        gaps := [gap] + more;
        assert gaps[1..] == more;
      }
    }
  }

  lemma NothingDone<T>(lines: seq<T>)
    ensures [] + lines == lines
  {
  }

  // Insertions included, edits that land decide the outcome.
  lemma LandedDecide<T>(lines: seq<T>, edits: seq<Edit<T>>, gaps: seq<seq<T>>, n: nat)
    requires n <= |edits| && |gaps| == n + 1 && lines == Weave(gaps, edits[..n], 0, false)
    requires Lands([], gaps, edits[..n], 0, 0, if n < |edits| then Some(edits[n]) else None)
    ensures ApplyEdits(lines, edits) == if n < |edits| then Err(n) else Ok(Weave(gaps, edits[..n], 0, true))
  {
    LandsRun([], gaps, edits[..n], 0, 0, edits);
    NothingDone(lines);
    NothingDone(Weave(gaps, edits[..n], 0, true));
  }

  ghost predicate AllLand<T(!new)>(lines: seq<T>, edits: seq<Edit<T>>, edited: seq<T>) {
    exists gaps: seq<seq<T>> | |gaps| == |edits| + 1 ::
      && lines == Weave(gaps, edits, 0, false) && edited == Weave(gaps, edits, 0, true)
      && Lands([], gaps, edits, 0, 0, None)
  }

  ghost predicate IsRefused<T(!new)>(lines: seq<T>, edits: seq<Edit<T>>, n: nat) {
    && n < |edits|
    && exists gaps: seq<seq<T>> | |gaps| == n + 1 ::
         lines == Weave(gaps, edits[..n], 0, false) && Lands([], gaps, edits[..n], 0, 0, Some(edits[n]))
  }

  lemma AllLandedIsOk<T(!new)>(lines: seq<T>, edits: seq<Edit<T>>, edited: seq<T>)
    requires AllLand(lines, edits, edited)
    ensures ApplyEdits(lines, edits) == Ok(edited)
  {
    var gaps: seq<seq<T>> :| |gaps| == |edits| + 1
                             && lines == Weave(gaps, edits, 0, false) && edited == Weave(gaps, edits, 0, true)
                             && Lands([], gaps, edits, 0, 0, None);
    assert edits[..|edits|] == edits;
    LandedDecide(lines, edits, gaps, |edits|);
  }

  lemma RefusedIsErr<T(!new)>(lines: seq<T>, edits: seq<Edit<T>>, n: nat)
    requires IsRefused(lines, edits, n)
    ensures ApplyEdits(lines, edits) == Err(n)
  {
    var gaps: seq<seq<T>> :| |gaps| == n + 1 && lines == Weave(gaps, edits[..n], 0, false)
                             && Lands([], gaps, edits[..n], 0, 0, Some(edits[n]));
    LandedDecide(lines, edits, gaps, n);
  }

  lemma OneOfBoth<T(!new)>(lines: seq<T>, edits: seq<Edit<T>>)
    requires forall k | 0 <= k < |edits| :: edits[k].from != []
    ensures match ApplyEdits(lines, edits)
            case Ok(edited) => AllLand(lines, edits, edited)
            case Err(n) => IsRefused(lines, edits, n)
  {
    var gaps, n := RunLands([], lines, edits, 0, 0);
    LandedDecide(lines, edits, gaps, n);
    assert edits[..|edits|] == edits;
  }

  // Every application of edits that replace something: it succeeds, with this result, exactly when
  // all of them land so, and it refuses one exactly when those before it land and it stands nowhere.
  lemma AppliesExactly<T(!new)>(lines: seq<T>, edits: seq<Edit<T>>, edited: seq<T>, n: nat)
    requires forall k | 0 <= k < |edits| :: edits[k].from != []
    ensures ApplyEdits(lines, edits) == Ok(edited) <==> AllLand(lines, edits, edited)
    ensures ApplyEdits(lines, edits) == Err(n) <==> IsRefused(lines, edits, n)
  {
    OneOfBoth(lines, edits);
    if AllLand(lines, edits, edited) {
      AllLandedIsOk(lines, edits, edited);
    }
    if IsRefused(lines, edits, n) {
      RefusedIsErr(lines, edits, n);
    }
  }

  // An insertion is never refused. It goes in at the line its header and the offset say, at the top
  // when that is negative and at the end when it is past it, in front of or behind what is written.
  lemma InsertsExactly<T>(cursor: Cursor<T>, edits: seq<Edit<T>>, i: nat)
    requires i < |edits| && edits[i].from == []
    ensures var to, at := edits[i].to, if edits[i].start + cursor.offset < 0 then 0 else edits[i].start + cursor.offset;
            var cut := if at < |cursor.lines| then at else |cursor.lines|;
            Run(cursor, edits, i)
            == Run(Cursor(cursor.lines[..cut] + to + cursor.lines[cut..], cursor.offset + |to|, at + |to|),
                   edits, i + 1)
  {
  }

  // From edit `i` on, every block stands within reach and nowhere else behind the one before it.
  ghost predicate Alone<T>(done: seq<T>, gaps: seq<seq<T>>, edits: seq<Edit<T>>, i: nat, line: int)
    requires i <= |edits| && |gaps| == |edits| - i + 1
    decreases |edits| - i
  {
    i < |edits| ==>
      var buffer, at := done + Weave(gaps, edits, i, false), |done| + |gaps[0]|;
      && edits[i].from != []
      && Distance(at, ExpectedAt(edits[i], |done|, line)) <= |buffer|
      && (forall other | Admissible(buffer, edits[i].from, |done|, other) :: other == at)
      && Alone(done + gaps[0] + edits[i].to, gaps[1..], edits, i + 1,
               Counted(edits[i], |done|, line) + |edits[i].from|)
  }

  lemma StandsInGap<T>(done: seq<T>, gap: seq<T>, block: seq<T>, rest: seq<T>)
    ensures Admissible(done + (gap + block + rest), block, |done|, |done| + |gap|)
  {
    var buffer, at := done + (gap + block + rest), |done| + |gap|;
    assert buffer == (done + gap) + block + rest;
    assert buffer[at..at + |block|] == block;
  }

  lemma {:induction false} AloneLands<T>(done: seq<T>, gaps: seq<seq<T>>, edits: seq<Edit<T>>, i: nat, line: int)
    requires i <= |edits| && |gaps| == |edits| - i + 1 && Alone(done, gaps, edits, i, line)
    ensures Lands(done, gaps, edits, i, line, None)
    decreases |edits| - i
  {
    if i < |edits| {
      StandsInGap(done, gaps[0], edits[i].from, Weave(gaps[1..], edits, i + 1, false));
      AloneLands(done + gaps[0] + edits[i].to, gaps[1..], edits, i + 1,
          Counted(edits[i], |done|, line) + |edits[i].from|);
    }
  }

  // Blocks that stand alone are all found, whatever lines were put in between them and whatever was
  // put above.
  lemma LoneBlocksAreFound<T>(gaps: seq<seq<T>>, edits: seq<Edit<T>>)
    requires |gaps| == |edits| + 1 && Alone([], gaps, edits, 0, 0)
    ensures ApplyEdits(Weave(gaps, edits, 0, false), edits) == Ok(Weave(gaps, edits, 0, true))
  {
    AloneLands([], gaps, edits, 0, 0);
    assert edits[..|edits|] == edits;
    LandedDecide(Weave(gaps, edits, 0, false), edits, gaps, |edits|);
  }
}
