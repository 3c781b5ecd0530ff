// What the foreign-drift comparison reports, told from the sections of the two bodies.
module DriftReports {
  import opened Prelude
  import opened ForeignDrift
  import opened DriftLaws
  import HunkEngine
  import HunkLaws
  import Edits

  // ----- What a body holds of a file --------------------------------------------------------

  ghost predicate IsIn<T>(body: seq<Section<T>>, file: string) {
    exists i | 0 <= i < |body| :: body[i].path == file
  }

  ghost predicate IsBinaryIn<T>(body: seq<Section<T>>, file: string) {
    exists i | 0 <= i < |body| :: body[i].path == file && body[i].isBinary
  }

  // The hunks of all sections of the file, in order.
  function FileHunks<T>(body: seq<Section<T>>, file: string): seq<DiffHunk<T>> {
    Flatten(seq(|body|, i requires 0 <= i < |body| => if body[i].path == file then body[i].hunks else []))
  }

  // The blob the last binary section of the file leaves.
  function LastHash<T>(body: seq<Section<T>>, file: string): Option<string> {
    if body == [] then None
    else
      var last := body[|body| - 1];
      if last.path == file && last.isBinary then last.newHash else LastHash(body[..|body| - 1], file)
  }

  lemma HunksOfOneMore<T>(body: seq<Section<T>>, section: Section<T>, file: string)
    ensures FileHunks(body + [section], file)
         == FileHunks(body, file) + if section.path == file then section.hunks else []
  {
    var parts := seq(|body|, i requires 0 <= i < |body| => if body[i].path == file then body[i].hunks else []);
    var more := body + [section];
    var last := if section.path == file then section.hunks else [];
    FlattenAppend(parts, last);
    assert seq(|more|, i requires 0 <= i < |more| => if more[i].path == file then more[i].hunks else [])
        == parts + [last];
  }

  lemma PayloadOfPrefix<T>(body: seq<Section<T>>, more: seq<Section<T>>, file: string, n: nat)
    requires n <= |body|
    ensures PayloadAt(body + more, file, n) == PayloadAt(body, file, n)
  {
    if n > 0 {
      PayloadOfPrefix(body, more, file, n - 1);
    }
  }

  lemma InOneMore<T>(body: seq<Section<T>>, section: Section<T>, file: string)
    ensures IsIn(body + [section], file) <==> IsIn(body, file) || section.path == file
    ensures IsBinaryIn(body + [section], file)
       <==> IsBinaryIn(body, file) || (section.path == file && section.isBinary)
  {
    var more := body + [section];
    assert more[|body|] == section;
    if IsIn(body, file) {
      var i :| 0 <= i < |body| && body[i].path == file;
      assert more[i].path == file;
    }
    if IsBinaryIn(body, file) {
      var i :| 0 <= i < |body| && body[i].path == file && body[i].isBinary;
      assert more[i].path == file && more[i].isBinary;
    }
  }

  // The payload collected for a file: there is one when some section names the file, it is binary
  // when some section is, it has the last blob, and it holds every hunk of every section.
  lemma {:induction false} PayloadHoldsAllSections<T>(body: seq<Section<T>>, file: string)
    ensures BodyPayload(body, file).Some? <==> IsIn(body, file)
    ensures var payload := OrEmpty(BodyPayload(body, file));
            && (payload.isBinary <==> IsBinaryIn(body, file))
            && payload.newHash == LastHash(body, file)
            && payload.hunks == FileHunks(body, file)
  {
    if body != [] {
      var before, last := body[..|body| - 1], body[|body| - 1];
      assert before + [last] == body;
      PayloadHoldsAllSections(before, file);
      PayloadOfPrefix(before, [last], file, |before|);
      HunksOfOneMore(before, last, file);
      InOneMore(before, last, file);
    }
  }

  // The texts that the file's hunks add or remove, as often as they do.
  function FileTexts<T>(body: seq<Section<T>>, file: string, sign: Sign): multiset<T> {
    HunkTexts(FileHunks(body, file), sign, 0)
  }

  // Every line of the hunks from `i` on, in order.
  function LinesFrom<T>(hunks: seq<DiffHunk<T>>, i: nat): seq<Line<T>>
    requires i <= |hunks|
  {
    Flatten(seq(|hunks| - i, k requires 0 <= k < |hunks| - i => hunks[i + k].lines))
  }

  function FileLines<T>(body: seq<Section<T>>, file: string): seq<Line<T>> {
    LinesFrom(FileHunks(body, file), 0)
  }

  lemma LinesFromNext<T>(hunks: seq<DiffHunk<T>>, i: nat)
    requires i < |hunks|
    ensures LinesFrom(hunks, i) == hunks[i].lines + LinesFrom(hunks, i + 1)
  {
    var parts := seq(|hunks| - i, k requires 0 <= k < |hunks| - i => hunks[i + k].lines);
    assert parts[1..] == seq(|hunks| - (i + 1), k requires 0 <= k < |hunks| - (i + 1) => hunks[i + 1 + k].lines);
  }

  lemma {:induction false} LinesAreAll<T>(hunks: seq<DiffHunk<T>>, i: nat)
    requires i <= |hunks|
    ensures multiset(LinesFrom(hunks, i)) == AllLines(hunks, i)
    decreases |hunks| - i
  {
    if i < |hunks| {
      LinesAreAll(hunks, i + 1);
      LinesFromNext(hunks, i);
    }
  }

  // A text counts once for every line of the file's hunks that carries it with that sign.
  lemma FileTextsCount<T>(body: seq<Section<T>>, file: string, sign: Sign, text: T)
    ensures FileTexts(body, file, sign)[text] == multiset(FileLines(body, file))[Line(sign, text)]
  {
    var hunks := FileHunks(body, file);
    HunkTextsCount(hunks, sign, text, 0);
    LinesAreAll(hunks, 0);
  }

  // ----- Charged hunks ----------------------------------------------------------------------

  // What a hunk is charged for of the budgets left to it.
  function Charge<T>(hunk: DiffHunk<T>, plus: multiset<T>, minus: multiset<T>, dropped: bool): Option<Summary<T>> {
    var a, r := |Texts(hunk.lines, Plus, 0) * plus|, |Texts(hunk.lines, Minus, 0) * minus|;
    if a == 0 && r == 0 then None else Some(if dropped then Summary(hunk, r, a) else Summary(hunk, a, r))
  }

  // Each hunk is charged for what the hunks before it left of the budgets.
  function Charges<T>(hunks: seq<DiffHunk<T>>, i: nat, plus: multiset<T>, minus: multiset<T>,
                      dropped: bool): seq<Option<Summary<T>>>
    requires i <= |hunks|
  {
    seq(|hunks| - i, k requires 0 <= k < |hunks| - i =>
      Charge(hunks[i + k], plus - HunkTexts(hunks[..i + k], Plus, 0), minus - HunkTexts(hunks[..i + k], Minus, 0),
             dropped))
  }

  lemma ChargesNext<T>(hunks: seq<DiffHunk<T>>, i: nat, plus: multiset<T>, minus: multiset<T>, dropped: bool)
    requires i < |hunks|
    ensures Charges(hunks, i, plus, minus, dropped)
         == [Charge(hunks[i], plus - HunkTexts(hunks[..i], Plus, 0), minus - HunkTexts(hunks[..i], Minus, 0), dropped)]
            + Charges(hunks, i + 1, plus, minus, dropped)
  {
    var charges, rest := Charges(hunks, i, plus, minus, dropped), Charges(hunks, i + 1, plus, minus, dropped);
    forall k | 0 <= k < |rest|
      ensures rest[k] == charges[k + 1]
    {
      assert i + 1 + k == i + (k + 1);
    }
  }

  lemma ChargedNext<T>(hunks: seq<DiffHunk<T>>, i: nat, plus: multiset<T>, minus: multiset<T>, dropped: bool)
    requires i < |hunks|
    ensures var charge := Charge(hunks[i], plus, minus, dropped);
            Charged(hunks, i, plus, minus, dropped)
            == (if charge.Some? then [charge.value] else [])
               + Charged(hunks, i + 1, plus - Texts(hunks[i].lines, Plus, 0), minus - Texts(hunks[i].lines, Minus, 0),
                         dropped)
  {
  }

  lemma EarlierTexts<T>(hunks: seq<DiffHunk<T>>, i: nat, sign: Sign, budget: multiset<T>)
    requires i < |hunks|
    ensures budget - HunkTexts(hunks[..i + 1], sign, 0)
         == budget - HunkTexts(hunks[..i], sign, 0) - Texts(hunks[i].lines, sign, 0)
  {
    assert hunks[..i + 1] == hunks[..i] + [hunks[i]];
    HunkTextsSplit(hunks[..i], [hunks[i]], sign, 0);
  }

  lemma {:induction false} ChargedFrom<T>(hunks: seq<DiffHunk<T>>, i: nat, plus: multiset<T>, minus: multiset<T>,
                                          dropped: bool)
    requires i <= |hunks|
    ensures Charged(hunks, i, plus - HunkTexts(hunks[..i], Plus, 0), minus - HunkTexts(hunks[..i], Minus, 0), dropped)
         == Somes(Charges(hunks, i, plus, minus, dropped))
    decreases |hunks| - i
  {
    if i < |hunks| {
      var rest := Charges(hunks, i + 1, plus, minus, dropped);
      EarlierTexts(hunks, i, Plus, plus);
      EarlierTexts(hunks, i, Minus, minus);
      ChargedFrom(hunks, i + 1, plus, minus, dropped);
      ChargesNext(hunks, i, plus, minus, dropped);
      ChargedNext(hunks, i, plus - HunkTexts(hunks[..i], Plus, 0), minus - HunkTexts(hunks[..i], Minus, 0), dropped);
      assert Charges(hunks, i, plus, minus, dropped)[1..] == rest;
    }
  }

  // The charged hunks are those with a charge, in order.
  lemma ChargedExactly<T>(hunks: seq<DiffHunk<T>>, plus: multiset<T>, minus: multiset<T>, dropped: bool)
    ensures Charged(hunks, 0, plus, minus, dropped) == Somes(Charges(hunks, 0, plus, minus, dropped))
  {
    ChargedFrom(hunks, 0, plus, minus, dropped);
    assert hunks[..0] == [];
    assert plus - multiset{} == plus && minus - multiset{} == minus;
  }

  // ----- The reported entries ---------------------------------------------------------------

  // The summaries of a file: the new body's hunks for what only it has, then the old body's.
  ghost function AllSummaries<T>(oldBody: seq<Section<T>>, newBody: seq<Section<T>>, file: string): seq<Summary<T>> {
    Charged(FileHunks(newBody, file), 0, FileTexts(newBody, file, Plus) - FileTexts(oldBody, file, Plus),
            FileTexts(newBody, file, Minus) - FileTexts(oldBody, file, Minus), false)
    + Charged(FileHunks(oldBody, file), 0, FileTexts(oldBody, file, Plus) - FileTexts(newBody, file, Plus),
              FileTexts(oldBody, file, Minus) - FileTexts(newBody, file, Minus), true)
  }

  // What an entry says of a text file: how many lines the engine file gained and lost, and which
  // hunks they are in, of which it names the first three; before that cap they share all lines out.
  ghost predicate SpeaksForTexts<T>(entry: FileDrift<T>, oldBody: seq<Section<T>>, newBody: seq<Section<T>>,
                                    file: string) {
    var all := AllSummaries(oldBody, newBody, file);
    && !entry.binaryChanged
    && entry.addedLines == |FileTexts(newBody, file, Plus) - FileTexts(oldBody, file, Plus)|
                           + |FileTexts(oldBody, file, Minus) - FileTexts(newBody, file, Minus)|
    && entry.removedLines == |FileTexts(newBody, file, Minus) - FileTexts(oldBody, file, Minus)|
                             + |FileTexts(oldBody, file, Plus) - FileTexts(newBody, file, Plus)|
    && entry.addedLines - entry.removedLines
       == (|FileTexts(newBody, file, Plus)| - |FileTexts(newBody, file, Minus)|)
          - (|FileTexts(oldBody, file, Plus)| - |FileTexts(oldBody, file, Minus)|)
    && entry.summaries == (if |all| <= 3 then all else all[..3])
    && SumGained(all) == entry.addedLines && SumLost(all) == entry.removedLines
  }

  lemma PayloadTexts<T>(body: seq<Section<T>>, file: string)
    requires !IsBinaryIn(body, file)
    ensures var payload := OrEmpty(BodyPayload(body, file));
            && !payload.isBinary && HoldsItsHunks(payload) && payload.hunks == FileHunks(body, file)
            && payload.added == FileTexts(body, file, Plus) && payload.removed == FileTexts(body, file, Minus)
  {
    PayloadHoldsAllSections(body, file);
    TextPayloadHoldsItsHunks(body, file, |body|);
  }

  lemma EntrySpeaks<T>(oldBody: seq<Section<T>>, newBody: seq<Section<T>>, file: string)
    requires !IsBinaryIn(newBody, file) && !IsBinaryIn(oldBody, file)
    requires EntryFor(oldBody, newBody, file).Some?
    ensures SpeaksForTexts(EntryFor(oldBody, newBody, file).value, oldBody, newBody, file)
  {
    PayloadTexts(newBody, file);
    PayloadTexts(oldBody, file);
    var next, previous := BodyPayload(newBody, file), BodyPayload(oldBody, file);
    DriftConserves(file, next, previous);
    AttributionIsExact(OrEmpty(next), OrEmpty(previous));
  }

  // The bodies carry other `+` or other `-` lines for the file, or one of them more often.
  ghost predicate LinesDiffer<T(!new)>(oldBody: seq<Section<T>>, newBody: seq<Section<T>>, file: string) {
    exists text, sign: Sign :: sign != Neither
      && multiset(FileLines(newBody, file))[Line(sign, text)] != multiset(FileLines(oldBody, file))[Line(sign, text)]
  }

  lemma SameCountsSameTexts<T(!new)>(a: multiset<T>, b: multiset<T>)
    requires forall text :: a[text] == b[text]
    ensures a == b
  {
  }

  lemma TextsDifferExactly<T(!new)>(oldBody: seq<Section<T>>, newBody: seq<Section<T>>, file: string)
    ensures LinesDiffer(oldBody, newBody, file)
       <==> (FileTexts(newBody, file, Plus) != FileTexts(oldBody, file, Plus)
             || FileTexts(newBody, file, Minus) != FileTexts(oldBody, file, Minus))
  {
    forall sign: Sign, text
      ensures FileTexts(newBody, file, sign)[text] == multiset(FileLines(newBody, file))[Line(sign, text)]
      ensures FileTexts(oldBody, file, sign)[text] == multiset(FileLines(oldBody, file))[Line(sign, text)]
    {
      FileTextsCount(newBody, file, sign, text);
      FileTextsCount(oldBody, file, sign, text);
    }
    if !LinesDiffer(oldBody, newBody, file) {
      SameCountsSameTexts(FileTexts(newBody, file, Plus), FileTexts(oldBody, file, Plus));
      SameCountsSameTexts(FileTexts(newBody, file, Minus), FileTexts(oldBody, file, Minus));
    }
  }

  // The whole comparison of two bodies, for a file whose sections are all text: it is reported
  // exactly when it is owned and its signed lines differ, with one entry that accounts for them.
  lemma TextDriftIsReportedExactly<T(!new)>(oldBody: seq<Section<T>>, newBody: seq<Section<T>>, owned: set<string>,
                                            file: string)
    requires !IsBinaryIn(newBody, file) && !IsBinaryIn(oldBody, file)
    ensures var drift := DriftBetween(oldBody, newBody, owned);
            && (Reports(drift, file) <==> file in owned && LinesDiffer(oldBody, newBody, file))
            && OnePerFile(drift)
            && forall k | 0 <= k < |drift| && drift[k].file == file ::
                 SpeaksForTexts(drift[k], oldBody, newBody, file)
  {
    ReportsExactly(oldBody, newBody, owned, file);
    PayloadTexts(newBody, file);
    PayloadTexts(oldBody, file);
    DriftExactly(file, BodyPayload(newBody, file), BodyPayload(oldBody, file));
    TextsDifferExactly(oldBody, newBody, file);
    if EntryFor(oldBody, newBody, file).Some? {
      EntrySpeaks(oldBody, newBody, file);
    }
  }

  // Both bodies name a blob, and one name is a beginning of the other.
  ghost predicate SameBlob<T>(oldBody: seq<Section<T>>, newBody: seq<Section<T>>, file: string) {
    var previous, next := LastHash(oldBody, file), LastHash(newBody, file);
    && previous.Some? && next.Some?
    && (next.value[..if |previous.value| < |next.value| then |previous.value| else |next.value|]
        == previous.value[..if |previous.value| < |next.value| then |previous.value| else |next.value|])
  }

  // A file with a binary section in either body: reported exactly when it is owned and its blob
  // changed, without line counts.
  lemma BinaryDriftIsReportedExactly<T>(oldBody: seq<Section<T>>, newBody: seq<Section<T>>, owned: set<string>,
                                        file: string)
    requires IsBinaryIn(newBody, file) || IsBinaryIn(oldBody, file)
    ensures var drift := DriftBetween(oldBody, newBody, owned);
            && (Reports(drift, file) <==> file in owned && !SameBlob(oldBody, newBody, file))
            && OnePerFile(drift)
            && forall k | 0 <= k < |drift| && drift[k].file == file :: drift[k] == FileDrift(file, 0, 0, [], true)
  {
    ReportsExactly(oldBody, newBody, owned, file);
    PayloadHoldsAllSections(newBody, file);
    PayloadHoldsAllSections(oldBody, file);
    HashesMeet(oldBody, newBody, file);
  }

  lemma HashesMeet<T>(oldBody: seq<Section<T>>, newBody: seq<Section<T>>, file: string)
    ensures BinaryContentChanged(BodyPayload(newBody, file), BodyPayload(oldBody, file))
       <==> !SameBlob(oldBody, newBody, file)
  {
    PayloadHoldsAllSections(newBody, file);
    PayloadHoldsAllSections(oldBody, file);
    assert HashOf(BodyPayload(newBody, file)) == LastHash(newBody, file);
    assert HashOf(BodyPayload(oldBody, file)) == LastHash(oldBody, file);
  }

  // ----- The engine file --------------------------------------------------------------------

  function SignOf(marker: char): Sign {
    if marker == '+' then Plus else if marker == '-' then Minus else Neither
  }

  function LinesOf(lines: seq<string>): (signed: seq<Line<string>>)
    ensures |signed| == |lines|
  {
    seq(|lines|, i requires 0 <= i < |lines| =>
      if lines[i] == "" then Line(Neither, "") else Line(SignOf(lines[i][0]), lines[i][1..]))
  }

  function DiffHunkOf(hunk: HunkEngine.Hunk): DiffHunk<string> {
    DiffHunk((hunk.oldStart, hunk.oldCount, hunk.newStart, hunk.newCount), LinesOf(hunk.lines))
  }

  function DiffHunksOf(hunks: seq<HunkEngine.Hunk>): (diff: seq<DiffHunk<string>>)
    ensures |diff| == |hunks|
  {
    seq(|hunks|, i requires 0 <= i < |hunks| => DiffHunkOf(hunks[i]))
  }

  lemma {:induction false} CountsAgree(lines: seq<string>, i: nat)
    requires i <= |lines|
    ensures |Texts(LinesOf(lines), Plus, i)| == HunkLaws.Count(lines[i..], '+')
    ensures |Texts(LinesOf(lines), Minus, i)| == HunkLaws.Count(lines[i..], '-')
    decreases |lines| - i
  {
    if i < |lines| {
      CountsAgree(lines, i + 1);
      assert lines[i..][1..] == lines[i + 1..];
    }
  }

  lemma {:induction false} GrowthAgrees(hunks: seq<HunkEngine.Hunk>, i: nat)
    requires i <= |hunks|
    ensures |HunkTexts(DiffHunksOf(hunks), Plus, i)| - |HunkTexts(DiffHunksOf(hunks), Minus, i)|
        == HunkLaws.Growth(hunks, i)
    decreases |hunks| - i
  {
    if i < |hunks| {
      GrowthAgrees(hunks, i + 1);
      CountsAgree(hunks[i].lines, 0);
      assert hunks[i].lines[0..] == hunks[i].lines;
    }
  }

  // Applied to the same upstream file, two bodies leave engine files whose lengths differ by exactly
  // the lines the reported entry gains less those it loses; by none when there is no entry.
  lemma DriftMeasuresTheEngineFile(head: seq<string>, oldBody: seq<Section<string>>, newBody: seq<Section<string>>,
                                   owned: set<string>, file: string,
                                   oldHunks: seq<HunkEngine.Hunk>, newHunks: seq<HunkEngine.Hunk>)
    requires file in owned && !IsBinaryIn(newBody, file) && !IsBinaryIn(oldBody, file)
    requires FileHunks(newBody, file) == DiffHunksOf(newHunks)
    requires FileHunks(oldBody, file) == DiffHunksOf(oldHunks)
    requires Edits.ApplyEdits(head, HunkEngine.EditsOf(oldHunks, false)).Ok?
    requires Edits.ApplyEdits(head, HunkEngine.EditsOf(newHunks, false)).Ok?
    ensures var drift := DriftBetween(oldBody, newBody, owned);
            var grown := |Edits.ApplyEdits(head, HunkEngine.EditsOf(newHunks, false)).value|
                         - |Edits.ApplyEdits(head, HunkEngine.EditsOf(oldHunks, false)).value|;
            && (forall k | 0 <= k < |drift| && drift[k].file == file ::
                  drift[k].addedLines - drift[k].removedLines == grown)
            && (!Reports(drift, file) ==> grown == 0)
  {
    HunkLaws.ApplicationGrows(head, oldHunks, false);
    HunkLaws.ApplicationGrows(head, newHunks, false);
    GrowthAgrees(oldHunks, 0);
    GrowthAgrees(newHunks, 0);
    TextDriftIsReportedExactly(oldBody, newBody, owned, file);
    TextsDifferExactly(oldBody, newBody, file);
  }

  // ----- Order ------------------------------------------------------------------------------

  // Some section names `first` before any names `second`.
  ghost predicate ComesFirst<T>(body: seq<Section<T>>, first: string, second: string) {
    exists i | 0 <= i < |body| :: body[i].path == first && forall k | 0 <= k <= i :: body[k].path != second
  }

  ghost predicate ByAppearance<T>(body: seq<Section<T>>, files: seq<string>) {
    forall i, j | 0 <= i < j < |files| :: ComesFirst(body, files[i], files[j])
  }

  lemma NewFileComesLast<T>(body: seq<Section<T>>, n: nat, file: string)
    requires n < |body| && IsIn(body[..n], file) && !IsIn(body[..n], body[n].path)
    ensures ComesFirst(body, file, body[n].path)
  {
    var i :| 0 <= i < n && body[..n][i].path == file;
    forall k | 0 <= k <= i
      ensures body[k].path != body[n].path
    {
      assert body[..n][k].path == body[k].path;
    }
    assert body[i].path == file;
  }

  lemma OneMoreFileComes<T>(body: seq<Section<T>>, n: nat, files: seq<string>)
    requires n < |body| && ByAppearance(body, files)
    requires forall file :: file in files <==> IsIn(body[..n], file)
    ensures var file := body[n].path;
            ByAppearance(body, if file in files then files else files + [file])
  {
    var file := body[n].path;
    if file !in files {
      forall i | 0 <= i < |files|
        ensures ComesFirst(body, files[i], file)
      {
        assert files[i] in files;
        NewFileComesLast(body, n, files[i]);
      }
    }
  }

  lemma {:induction false} FilesComeInOrder<T>(body: seq<Section<T>>, n: nat)
    requires n <= |body|
    ensures ByAppearance(body, FilesOf(body, n))
    ensures forall file :: file in FilesOf(body, n) <==> IsIn(body[..n], file)
  {
    if n > 0 {
      FilesComeInOrder(body, n - 1);
      OneMoreFileComes(body, n - 1, FilesOf(body, n - 1));
      assert body[..n] == body[..n - 1] + [body[n - 1]];
      forall file
        ensures file in FilesOf(body, n) <==> IsIn(body[..n], file)
      {
        InOneMore(body[..n - 1], body[n - 1], file);
      }
    }
  }

  lemma JoinOneMore(newFiles: seq<string>, before: seq<string>, file: string)
    ensures var joined := Joined(newFiles, before, |before|);
            var after := if file in before then before else before + [file];
            Joined(newFiles, after, |after|) == if file in joined then joined else joined + [file]
  {
    JoinedHasAll(newFiles, before, |before|);
    if file !in before {
      JoinedPrefix(newFiles, before, [file], |before|);
    }
  }

  lemma {:induction false} JoinedIsOne<T>(oldBody: seq<Section<T>>, newBody: seq<Section<T>>, n: nat)
    requires n <= |oldBody|
    ensures var oldFiles := FilesOf(oldBody, n);
            Joined(FilesOf(newBody, |newBody|), oldFiles, |oldFiles|) == FilesOf(newBody + oldBody, |newBody| + n)
  {
    FilesOfPrefix(newBody, oldBody, |newBody|);
    if n > 0 {
      JoinedIsOne(oldBody, newBody, n - 1);
      assert (newBody + oldBody)[|newBody| + n - 1] == oldBody[n - 1];
      JoinOneMore(FilesOf(newBody, |newBody|), FilesOf(oldBody, n - 1), oldBody[n - 1].path);
    }
  }

  lemma {:induction false} FilesOfPrefix<T>(body: seq<Section<T>>, more: seq<Section<T>>, n: nat)
    requires n <= |body|
    ensures FilesOf(body + more, n) == FilesOf(body, n)
  {
    if n > 0 {
      FilesOfPrefix(body, more, n - 1);
    }
  }

  lemma {:induction false} JoinedPrefix(newFiles: seq<string>, oldFiles: seq<string>, more: seq<string>, n: nat)
    requires n <= |oldFiles|
    ensures Joined(newFiles, oldFiles + more, n) == Joined(newFiles, oldFiles, n)
  {
    if n > 0 {
      JoinedPrefix(newFiles, oldFiles, more, n - 1);
    }
  }

  lemma {:induction false} JoinedHasAll(newFiles: seq<string>, oldFiles: seq<string>, n: nat)
    requires n <= |oldFiles|
    ensures forall i | 0 <= i < n :: oldFiles[i] in Joined(newFiles, oldFiles, n)
    ensures forall file | file in newFiles :: file in Joined(newFiles, oldFiles, n)
  {
    if n > 0 {
      JoinedHasAll(newFiles, oldFiles, n - 1);
    }
  }

  // The entries of the owned files, one after the other.
  function EntriesOf<T>(files: seq<string>, n: nat, owned: set<string>,
                        entrant: string -> Option<FileDrift<T>>): seq<FileDrift<T>>
    requires n <= |files|
  {
    Somes(seq(n, i requires 0 <= i < n => if files[i] in owned then entrant(files[i]) else None))
  }

  lemma {:induction false} EntriesAreThose<T>(files: seq<string>, n: nat, owned: set<string>,
                                              entrant: string -> Option<FileDrift<T>>)
    requires n <= |files|
    ensures Entries(files, n, owned, entrant) == EntriesOf(files, n, owned, entrant)
  {
    if n > 0 {
      EntriesAreThose(files, n - 1, owned, entrant);
      var before := seq(n - 1, i requires 0 <= i < n - 1 => if files[i] in owned then entrant(files[i]) else None);
      var last := if files[n - 1] in owned then entrant(files[n - 1]) else None;
      SomesAppend(before, last);
      assert seq(n, i requires 0 <= i < n => if files[i] in owned then entrant(files[i]) else None)
          == before + [last];
    }
  }

  // The files in the order in which the new body, and after it the old one, first names them.
  lemma FilesFollowTheBodies<T>(oldBody: seq<Section<T>>, newBody: seq<Section<T>>)
    ensures ByAppearance(newBody + oldBody, FilesInOrder(oldBody, newBody))
    ensures forall file :: file in FilesInOrder(oldBody, newBody) <==> IsIn(newBody + oldBody, file)
  {
    var both := newBody + oldBody;
    JoinedIsOne(oldBody, newBody, |oldBody|);
    FilesComeInOrder(both, |both|);
    assert both[..|both|] == both;
  }

  // The reported entries come in that order.
  lemma EntriesFollowTheBodies<T>(oldBody: seq<Section<T>>, newBody: seq<Section<T>>,
                                  owned: set<string>) returns (files: seq<string>)
    ensures ByAppearance(newBody + oldBody, files)
    ensures forall file :: file in files <==> IsIn(newBody + oldBody, file)
    ensures DriftBetween(oldBody, newBody, owned)
         == EntriesOf(files, |files|, owned, Entrant(oldBody, newBody))
  {
    files := FilesInOrder(oldBody, newBody);
    FilesFollowTheBodies(oldBody, newBody);
    EntriesAreThose(files, |files|, owned, Entrant(oldBody, newBody));
  }
}
