// Laws of the foreign-drift comparison: what it finds, what its counts mean for the engine file,
// and how they are attributed to hunks.
module DriftLaws {
  import opened Prelude
  import opened ForeignDrift

  ghost predicate IsText<T>(payload: Payload<T>) {
    !payload.isBinary
  }

  // ----- Exactness and conservation ---------------------------------------------------------

  lemma ExcessCounts<T>(a: multiset<T>, b: multiset<T>)
    ensures |a - b| - |b - a| == |a| - |b|
    ensures |a - b| == 0 && |b - a| == 0 <==> a == b
  {
    assert a == (a - b) + (a * b) && b == (b - a) + (a * b);
  }

  // A text file drifts exactly when its `+` or its `-` texts differ as multisets.
  lemma DriftExactly<T>(file: string, next: Option<Payload<T>>, previous: Option<Payload<T>>)
    requires IsText(OrEmpty(next)) && IsText(OrEmpty(previous))
    ensures DriftOf(file, next, previous).Some?
       <==> OrEmpty(next).added != OrEmpty(previous).added || OrEmpty(next).removed != OrEmpty(previous).removed
  {
    var n, p := OrEmpty(next), OrEmpty(previous);
    ExcessCounts(n.added, p.added);
    ExcessCounts(n.removed, p.removed);
  }

  // What the engine file gained less what it lost is the change in its payload's `+` less `-`.
  lemma DriftConserves<T>(file: string, next: Option<Payload<T>>, previous: Option<Payload<T>>)
    requires IsText(OrEmpty(next)) && IsText(OrEmpty(previous))
    ensures var n, p, drift := OrEmpty(next), OrEmpty(previous), DriftOf(file, next, previous);
            (if drift.Some? then drift.value.addedLines - drift.value.removedLines else 0)
            == (|n.added| - |n.removed|) - (|p.added| - |p.removed|)
  {
    var n, p := OrEmpty(next), OrEmpty(previous);
    ExcessCounts(n.added, p.added);
    ExcessCounts(n.removed, p.removed);
  }

  // Comparing the bodies the other way round swaps the two counts.
  lemma DriftSwaps<T>(file: string, next: Option<Payload<T>>, previous: Option<Payload<T>>)
    requires IsText(OrEmpty(next)) && IsText(OrEmpty(previous))
    ensures var there, back := DriftOf(file, next, previous), DriftOf(file, previous, next);
            && (there.Some? <==> back.Some?)
            && (there.Some? ==> there.value.addedLines == back.value.removedLines
                                && there.value.removedLines == back.value.addedLines)
  {
  }

  // Every file of either body is looked at, and no file twice.
  lemma {:induction false} FilesAreListedOnce<T>(sections: seq<Section<T>>, n: nat, file: string)
    requires n <= |sections|
    ensures file in FilesOf(sections, n) <==> PayloadAt(sections, file, n).Some?
    ensures forall i, j | 0 <= i < j < |FilesOf(sections, n)| :: FilesOf(sections, n)[i] != FilesOf(sections, n)[j]
  {
    if n > 0 {
      FilesAreListedOnce(sections, n - 1, file);
    }
  }

  lemma {:induction false} JoinedOnce(newFiles: seq<string>, oldFiles: seq<string>, n: nat, file: string)
    requires n <= |oldFiles| && forall i, j | 0 <= i < j < |newFiles| :: newFiles[i] != newFiles[j]
    ensures file in Joined(newFiles, oldFiles, n) <==> file in newFiles || exists i | 0 <= i < n :: oldFiles[i] == file
    ensures var files := Joined(newFiles, oldFiles, n);
            forall i, j | 0 <= i < j < |files| :: files[i] != files[j]
  {
    if n > 0 {
      JoinedOnce(newFiles, oldFiles, n - 1, file);
    }
  }

  // Every file of either body is looked at, once.
  lemma LooksAtEachFileOnce<T>(oldBody: seq<Section<T>>, newBody: seq<Section<T>>, file: string)
    ensures var files := FilesInOrder(oldBody, newBody);
            && (forall i, j | 0 <= i < j < |files| :: files[i] != files[j])
            && (file in files <==> BodyPayload(newBody, file).Some? || BodyPayload(oldBody, file).Some?)
  {
    FilesAreListedOnce(newBody, |newBody|, file);
    FilesAreListedOnce(oldBody, |oldBody|, file);
    var oldFiles := FilesOf(oldBody, |oldBody|);
    JoinedOnce(FilesOf(newBody, |newBody|), oldFiles, |oldFiles|, file);
  }

  // ----- Order and context ------------------------------------------------------------------

  // Every line of every hunk from `i` on.
  ghost function AllLines<T>(hunks: seq<DiffHunk<T>>, i: nat): multiset<Line<T>>
    requires i <= |hunks|
    decreases |hunks| - i
  {
    if i == |hunks| then multiset{} else multiset(hunks[i].lines) + AllLines(hunks, i + 1)
  }

  lemma {:induction false} TextsCount<T>(lines: seq<Line<T>>, sign: Sign, text: T, i: nat)
    requires i <= |lines|
    ensures Texts(lines, sign, i)[text] == multiset(lines[i..])[Line(sign, text)]
    decreases |lines| - i
  {
    if i < |lines| {
      TextsCount(lines, sign, text, i + 1);
      assert lines[i..] == [lines[i]] + lines[i + 1..];
    }
  }

  lemma {:induction false} HunkTextsCount<T>(hunks: seq<DiffHunk<T>>, sign: Sign, text: T, i: nat)
    requires i <= |hunks|
    ensures HunkTexts(hunks, sign, i)[text] == AllLines(hunks, i)[Line(sign, text)]
    decreases |hunks| - i
  {
    if i < |hunks| {
      HunkTextsCount(hunks, sign, text, i + 1);
      TextsCount(hunks[i].lines, sign, text, 0);
      assert hunks[i].lines[0..] == hunks[i].lines;
    }
  }

  // However two bodies cut the same signed lines into hunks, order them, number their headers and
  // surround them with context, their payload texts agree.
  lemma ArrangementNeverMatters<T>(hunks: seq<DiffHunk<T>>, others: seq<DiffHunk<T>>, sign: Sign)
    requires forall text :: AllLines(hunks, 0)[Line(sign, text)] == AllLines(others, 0)[Line(sign, text)]
    ensures HunkTexts(hunks, sign, 0) == HunkTexts(others, sign, 0)
  {
    NothingInExcess(hunks, others, sign);
    NothingInExcess(others, hunks, sign);
    ExcessCounts(HunkTexts(hunks, sign, 0), HunkTexts(others, sign, 0));
  }

  lemma NothingInExcess<T>(hunks: seq<DiffHunk<T>>, others: seq<DiffHunk<T>>, sign: Sign)
    requires forall text :: AllLines(hunks, 0)[Line(sign, text)] == AllLines(others, 0)[Line(sign, text)]
    ensures HunkTexts(hunks, sign, 0) - HunkTexts(others, sign, 0) == multiset{}
  {
    var excess := HunkTexts(hunks, sign, 0) - HunkTexts(others, sign, 0);
    if excess != multiset{} {
      var text :| text in excess;
      HunkTextsCount(hunks, sign, text, 0);
      HunkTextsCount(others, sign, text, 0);
    }
  }

  // ----- Attribution ------------------------------------------------------------------------

  // A payload holding exactly its hunks' texts.
  ghost predicate HoldsItsHunks<T>(payload: Payload<T>) {
    payload.added == HunkTexts(payload.hunks, Plus, 0) && payload.removed == HunkTexts(payload.hunks, Minus, 0)
  }

  lemma {:induction false} HunkTextsSplit<T>(front: seq<DiffHunk<T>>, back: seq<DiffHunk<T>>, sign: Sign, i: nat)
    requires i <= |front|
    ensures HunkTexts(front + back, sign, i) == HunkTexts(front, sign, i) + HunkTexts(back, sign, 0)
    decreases |front| - i
  {
    if i < |front| {
      HunkTextsSplit(front, back, sign, i + 1);
    } else {
      HunkTextsShift(front, back, sign, 0);
    }
  }

  lemma {:induction false} HunkTextsShift<T>(front: seq<DiffHunk<T>>, back: seq<DiffHunk<T>>, sign: Sign, i: nat)
    requires i <= |back|
    ensures HunkTexts(front + back, sign, |front| + i) == HunkTexts(back, sign, i)
    decreases |back| - i
  {
    if i < |back| {
      HunkTextsShift(front, back, sign, i + 1);
    }
  }

  lemma {:induction false} TextPayloadHoldsItsHunks<T>(sections: seq<Section<T>>, file: string, n: nat)
    requires n <= |sections| && IsText(OrEmpty(PayloadAt(sections, file, n)))
    ensures HoldsItsHunks(OrEmpty(PayloadAt(sections, file, n)))
  {
    if n > 0 {
      TextPayloadHoldsItsHunks(sections, file, n - 1);
      var before := OrEmpty(PayloadAt(sections, file, n - 1));
      HunkTextsSplit(before.hunks, sections[n - 1].hunks, Plus, 0);
      HunkTextsSplit(before.hunks, sections[n - 1].hunks, Minus, 0);
    }
  }

  function SumGained<T>(summaries: seq<Summary<T>>): nat {
    if summaries == [] then 0 else summaries[0].gained + SumGained(summaries[1..])
  }

  function SumLost<T>(summaries: seq<Summary<T>>): nat {
    if summaries == [] then 0 else summaries[0].lost + SumLost(summaries[1..])
  }

  lemma {:induction false} SumsSplit<T>(front: seq<Summary<T>>, back: seq<Summary<T>>)
    ensures SumGained(front + back) == SumGained(front) + SumGained(back)
    ensures SumLost(front + back) == SumLost(front) + SumLost(back)
  {
    if front == [] {
      assert front + back == back;
    } else {
      SumsSplit(front[1..], back);
      assert (front + back)[1..] == front[1..] + back;
    }
  }

  lemma ChargeSplits<T>(texts: multiset<T>, budget: multiset<T>, rest: multiset<T>)
    requires budget <= texts + rest
    ensures budget - texts <= rest && |texts * budget| + |budget - texts| == |budget|
  {
    assert budget == (texts * budget) + (budget - texts);
  }

  // A budget the hunks can cover is charged in full: every occurrence to exactly one hunk.
  lemma {:induction false} BudgetIsSpent<T>(hunks: seq<DiffHunk<T>>, i: nat, plus: multiset<T>, minus: multiset<T>,
                                            dropped: bool)
    requires i <= |hunks|
    requires plus <= HunkTexts(hunks, Plus, i) && minus <= HunkTexts(hunks, Minus, i)
    ensures var charged := Charged(hunks, i, plus, minus, dropped);
            && SumGained(charged) == |if dropped then minus else plus|
            && SumLost(charged) == |if dropped then plus else minus|
    decreases |hunks| - i
  {
    if i < |hunks| {
      var added, removed := Texts(hunks[i].lines, Plus, 0), Texts(hunks[i].lines, Minus, 0);
      ChargeSplits(added, plus, HunkTexts(hunks, Plus, i + 1));
      ChargeSplits(removed, minus, HunkTexts(hunks, Minus, i + 1));
      BudgetIsSpent(hunks, i + 1, plus - added, minus - removed, dropped);
      var rest := Charged(hunks, i + 1, plus - added, minus - removed, dropped);
      SumsSplit([Summarize(hunks[i], |added * plus|, |removed * minus|, dropped)], rest);
    }
  }

  // Before the cap, the hunks' counts add up to the file's counts.
  lemma AttributionIsExact<T>(next: Payload<T>, previous: Payload<T>)
    requires HoldsItsHunks(next) && HoldsItsHunks(previous)
    ensures SumGained(Uncapped(next, previous)) == Gained(next, previous)
    ensures SumLost(Uncapped(next, previous)) == Gained(previous, next)
  {
    var absorbed := SpentByOneBody(next, previous, false);
    var dropped := SpentByOneBody(previous, next, true);
    SumsSplit(absorbed, dropped);
  }

  lemma SpentByOneBody<T>(body: Payload<T>, other: Payload<T>, dropped: bool) returns (charged: seq<Summary<T>>)
    requires HoldsItsHunks(body)
    ensures charged == Charged(body.hunks, 0, body.added - other.added, body.removed - other.removed, dropped)
    ensures SumGained(charged) == if dropped then |body.removed - other.removed| else |body.added - other.added|
    ensures SumLost(charged) == if dropped then |body.added - other.added| else |body.removed - other.removed|
  {
    BudgetIsSpent(body.hunks, 0, body.added - other.added, body.removed - other.removed, dropped);
    charged := Charged(body.hunks, 0, body.added - other.added, body.removed - other.removed, dropped);
  }

  // ----- The reported list ------------------------------------------------------------------

  ghost predicate Reports<T>(drift: seq<FileDrift<T>>, file: string) {
    exists k | 0 <= k < |drift| :: drift[k].file == file
  }

  lemma ReportsNext<T>(drift: seq<FileDrift<T>>, entry: FileDrift<T>, file: string)
    ensures Reports(drift + [entry], file) <==> Reports(drift, file) || entry.file == file
  {
    if Reports(drift, file) {
      var k :| 0 <= k < |drift| && drift[k].file == file;
      assert (drift + [entry])[k].file == file;
    }
    if entry.file == file {
      assert (drift + [entry])[|drift|].file == file;
    }
  }

  lemma {:induction false} EntriesHold<T>(files: seq<string>, n: nat, owned: set<string>,
                                          entrant: string -> Option<FileDrift<T>>, file: string)
    requires n <= |files| && NamesItsFile(entrant)
    ensures var drift := Entries(files, n, owned, entrant);
            && (Reports(drift, file) <==> file in owned && Listed(files, n, file) && entrant(file).Some?)
            && forall k | 0 <= k < |drift| :: entrant(drift[k].file) == Some(drift[k])
  {
    if n > 0 {
      EntriesHold(files, n - 1, owned, entrant, file);
      ListedNext(files, n, file);
      var entry := entrant(files[n - 1]);
      if files[n - 1] in owned && entry.Some? {
        ReportsNext(Entries(files, n - 1, owned, entrant), entry.value, file);
      }
    }
  }

  ghost predicate NamesItsFile<T>(entrant: string -> Option<FileDrift<T>>) {
    forall file :: entrant(file).Some? ==> entrant(file).value.file == file
  }

  lemma EntrantNamesItsFile<T>(oldBody: seq<Section<T>>, newBody: seq<Section<T>>)
    ensures NamesItsFile(Entrant(oldBody, newBody))
  {
  }

  ghost predicate OnePerFile<T>(drift: seq<FileDrift<T>>) {
    forall i, j | 0 <= i < j < |drift| :: drift[i].file != drift[j].file
  }

  lemma OneMoreFile<T>(drift: seq<FileDrift<T>>, entry: FileDrift<T>)
    requires OnePerFile(drift) && !Reports(drift, entry.file)
    ensures OnePerFile(drift + [entry])
  {
  }

  lemma {:induction false} EntriesAreApart<T>(files: seq<string>, n: nat, owned: set<string>,
                                              entrant: string -> Option<FileDrift<T>>)
    requires n <= |files| && NamesItsFile(entrant) && forall i, j | 0 <= i < j < |files| :: files[i] != files[j]
    ensures OnePerFile(Entries(files, n, owned, entrant))
  {
    if n > 0 {
      EntriesAreApart(files, n - 1, owned, entrant);
      var before, entry := Entries(files, n - 1, owned, entrant), entrant(files[n - 1]);
      if files[n - 1] in owned && entry.Some? {
        EntriesHold(files, n - 1, owned, entrant, files[n - 1]);
        assert !Listed(files, n - 1, files[n - 1]);
        OneMoreFile(before, entry.value);
      }
    }
  }

  // The list has an entry for a file exactly when the file is owned and drifted, and one only.
  lemma ReportsExactly<T>(oldBody: seq<Section<T>>, newBody: seq<Section<T>>, owned: set<string>, file: string)
    ensures var drift := DriftBetween(oldBody, newBody, owned);
            && (Reports(drift, file) <==> file in owned && EntryFor(oldBody, newBody, file).Some?)
            && OnePerFile(drift)
            && forall k | 0 <= k < |drift| && drift[k].file == file ::
                EntryFor(oldBody, newBody, file) == Some(drift[k])
  {
    var files, entrant := FilesInOrder(oldBody, newBody), Entrant(oldBody, newBody);
    LooksAtEachFileOnce(oldBody, newBody, file);
    EntrantNamesItsFile(oldBody, newBody);
    EntriesHold(files, |files|, owned, entrant, file);
    EntriesAreApart(files, |files|, owned, entrant);
    assert Listed(files, |files|, file) <==> file in files;
  }
}
