// The foreign-drift comparison of src/commands/re-export-drift.ts: which payload lines a refreshed
// patch body adds or drops against the old one, per file, as multisets of `+` and `-` texts.
// Texts are compared for equality only, so their type is a parameter.
module ForeignDrift {
  import opened Prelude

  // ----- Payload ----------------------------------------------------------------------------

  datatype Sign = Plus | Minus | Neither

  datatype Line<T> = Line(sign: Sign, text: T)

  // One `@@` hunk: its header and its lines.
  datatype DiffHunk<T> = DiffHunk(header: (nat, nat, nat, nat), lines: seq<Line<T>>)

  datatype Section<T> = Section(path: string, isBinary: bool, newHash: Option<string>, hunks: seq<DiffHunk<T>>)

  // The source's maps from text to count are multisets.
  datatype Payload<T> = Payload(
    added: multiset<T>, removed: multiset<T>, newHash: Option<string>, isBinary: bool, hunks: seq<DiffHunk<T>>)

  function NoPayload<T>(): Payload<T> { Payload(multiset{}, multiset{}, None, false, []) }

  // The texts carrying `sign` among the lines from `i` on.
  function Texts<T>(lines: seq<Line<T>>, sign: Sign, i: nat): multiset<T>
    requires i <= |lines|
    decreases |lines| - i
  {
    if i == |lines| then multiset{}
    else if lines[i].sign == sign then multiset{lines[i].text} + Texts(lines, sign, i + 1)
    else Texts(lines, sign, i + 1)
  }

  function HunkTexts<T>(hunks: seq<DiffHunk<T>>, sign: Sign, i: nat): multiset<T>
    requires i <= |hunks|
    decreases |hunks| - i
  {
    if i == |hunks| then multiset{}
    else Texts(hunks[i].lines, sign, 0) + HunkTexts(hunks, sign, i + 1)
  }

  function AddSection<T>(payload: Payload<T>, section: Section<T>): Payload<T> {
    var grown := payload.(hunks := payload.hunks + section.hunks);
    if section.isBinary then grown.(isBinary := true, newHash := section.newHash)
    else grown.(added := payload.added + HunkTexts(section.hunks, Plus, 0),
                removed := payload.removed + HunkTexts(section.hunks, Minus, 0))
  }

  function OrEmpty<T>(payload: Option<Payload<T>>): Payload<T> {
    if payload.None? then NoPayload() else payload.value
  }

  // What the first `n` sections hold for `file`, if any names it.
  function PayloadAt<T>(sections: seq<Section<T>>, file: string, n: nat): Option<Payload<T>>
    requires n <= |sections|
  {
    if n == 0 then None
    else
      var before := PayloadAt(sections, file, n - 1);
      if sections[n - 1].path == file then Some(AddSection(OrEmpty(before), sections[n - 1])) else before
  }

  function BodyPayload<T>(sections: seq<Section<T>>, file: string): Option<Payload<T>> {
    PayloadAt(sections, file, |sections|)
  }

  // The files of the first `n` sections, in order of first appearance.
  function FilesOf<T>(sections: seq<Section<T>>, n: nat): seq<string>
    requires n <= |sections|
  {
    if n == 0 then []
    else
      var files := FilesOf(sections, n - 1);
      if sections[n - 1].path in files then files else files + [sections[n - 1].path]
  }

  // Those files, each with what the first `n` sections hold for it.
  ghost predicate Collected<T>(sections: seq<Section<T>>, n: nat, files: seq<string>, byFile: map<string, Payload<T>>)
    requires n <= |sections|
  {
    && files == FilesOf(sections, n)
    && (forall file :: file in files <==> file in byFile)
    && forall file :: PayloadAt(sections, file, n) == if file in byFile then Some(byFile[file]) else None
  }

  method CountLines<T>(lines: seq<Line<T>>, added0: multiset<T>, removed0: multiset<T>)
      returns (added: multiset<T>, removed: multiset<T>)
    ensures added == added0 + Texts(lines, Plus, 0)
    ensures removed == removed0 + Texts(lines, Minus, 0)
  {
    added, removed := added0, removed0;
    for i := 0 to |lines|
      invariant added + Texts(lines, Plus, i) == added0 + Texts(lines, Plus, 0)
      invariant removed + Texts(lines, Minus, i) == removed0 + Texts(lines, Minus, 0)
    {
      var text := lines[i].text;
      match lines[i].sign {
        case Plus => added := added[text := added[text] + 1];
        case Minus => removed := removed[text := removed[text] + 1];
        case Neither =>
      }
    }
  }

  method CountTexts<T>(hunks: seq<DiffHunk<T>>, added0: multiset<T>, removed0: multiset<T>)
      returns (added: multiset<T>, removed: multiset<T>)
    ensures added == added0 + HunkTexts(hunks, Plus, 0)
    ensures removed == removed0 + HunkTexts(hunks, Minus, 0)
  {
    added, removed := added0, removed0;
    for i := 0 to |hunks|
      invariant added + HunkTexts(hunks, Plus, i) == added0 + HunkTexts(hunks, Plus, 0)
      invariant removed + HunkTexts(hunks, Minus, i) == removed0 + HunkTexts(hunks, Minus, 0)
    {
      added, removed := CountLines(hunks[i].lines, added, removed);
    }
  }

  lemma CollectedGrows<T>(sections: seq<Section<T>>, n: nat, files: seq<string>, byFile: map<string, Payload<T>>,
                          payload: Payload<T>)
    requires n < |sections| && Collected(sections, n, files, byFile)
    requires var file := sections[n].path;
             payload == AddSection(if file in byFile then byFile[file] else NoPayload(), sections[n])
    ensures var file := sections[n].path;
            Collected(sections, n + 1, if file in byFile then files else files + [file], byFile[file := payload])
  {
  }

  method CollectPayloadByFile<T>(sections: seq<Section<T>>) returns (files: seq<string>,
                                 byFile: map<string, Payload<T>>)
    ensures Collected(sections, |sections|, files, byFile)
  {
    files, byFile := [], map[];
    for i := 0 to |sections|
      invariant Collected(sections, i, files, byFile)
    {
      var section := sections[i];
      var payload := if section.path in byFile then byFile[section.path] else NoPayload();
      payload := payload.(hunks := payload.hunks + section.hunks);
      if section.isBinary {
        payload := payload.(isBinary := true, newHash := section.newHash);
      } else {
        var added, removed := CountTexts(section.hunks, payload.added, payload.removed);
        payload := payload.(added := added, removed := removed);
      }
      CollectedGrows(sections, i, files, byFile, payload);
      if section.path !in byFile {
        files := files + [section.path];
      }
      byFile := byFile[section.path := payload];
    }
  }

  // ----- Excess -----------------------------------------------------------------------------

  method MultisetExcess<T(==)>(next: multiset<T>, previous: multiset<T>) returns (excess: multiset<T>)
    ensures excess == next - previous
  {
    excess := multiset{};
    var todo := next;
    while todo != multiset{}
      invariant forall text :: todo[text] == 0 || (todo[text] == next[text] && excess[text] == 0)
      invariant forall text :: todo[text] == 0 ==> excess[text] == (next - previous)[text]
      decreases |todo|
    {
      var text :| text in todo;
      if next[text] > previous[text] {
        excess := excess[text := next[text] - previous[text]];
      }
      todo := todo[text := 0];
    }
  }

  method CountExcess<T(==)>(excess: multiset<T>) returns (total: nat)
    ensures total == |excess|
  {
    total := 0;
    var todo := excess;
    while todo != multiset{}
      invariant total + |todo| == |excess|
      decreases |todo|
    {
      var text :| text in todo;
      total := total + todo[text];
      todo := todo[text := 0];
    }
  }

  // ----- Attribution ------------------------------------------------------------------------

  // A hunk of either body with the lines the engine file gained and lost through it.
  datatype Summary<T> = Summary(hunk: DiffHunk<T>, gained: nat, lost: nat)

  // The old body's `+` texts are lost, its `-` texts gained back.
  function Summarize<T>(hunk: DiffHunk<T>, plus: nat, minus: nat, dropped: bool): Summary<T> {
    if dropped then Summary(hunk, minus, plus) else Summary(hunk, plus, minus)
  }

  // The hunks from `i` on that are charged for the budgeted texts.
  function Charged<T>(hunks: seq<DiffHunk<T>>, i: nat, plus: multiset<T>, minus: multiset<T>,
                      dropped: bool): seq<Summary<T>>
    requires i <= |hunks|
    decreases |hunks| - i
  {
    if i == |hunks| then []
    else
      var added, removed := Texts(hunks[i].lines, Plus, 0), Texts(hunks[i].lines, Minus, 0);
      var a, r := |added * plus|, |removed * minus|;
      var rest := Charged(hunks, i + 1, plus - added, minus - removed, dropped);
      if a > 0 || r > 0 then [Summarize(hunks[i], a, r, dropped)] + rest else rest
  }

  lemma ChargeOne<T>(text: T, rest: multiset<T>, budget: multiset<T>)
    ensures |(multiset{text} + rest) * budget|
         == (if budget[text] > 0 then 1 else 0) + |rest * (budget - multiset{text})|
    ensures budget - (multiset{text} + rest) == (budget - multiset{text}) - rest
  {
    if budget[text] > 0 {
      assert (multiset{text} + rest) * budget == multiset{text} + rest * (budget - multiset{text});
    } else {
      assert (multiset{text} + rest) * budget == rest * (budget - multiset{text});
    }
  }

  method Charge<T(==)>(text: T, budget: multiset<T>, charged: nat, ghost rest: multiset<T>)
      returns (left: multiset<T>, count: nat)
    ensures left - rest == budget - (multiset{text} + rest)
    ensures count + |rest * left| == charged + |(multiset{text} + rest) * budget|
  {
    ChargeOne(text, rest, budget);
    left, count := budget, charged;
    if budget[text] > 0 {
      left := budget[text := budget[text] - 1];
      count := charged + 1;
    }
    assert left == budget - multiset{text};
  }

  method ChargeHunk<T(==)>(lines: seq<Line<T>>, plus: multiset<T>, minus: multiset<T>)
      returns (added: nat, removed: nat, plusLeft: multiset<T>, minusLeft: multiset<T>)
    ensures added == |Texts(lines, Plus, 0) * plus| && plusLeft == plus - Texts(lines, Plus, 0)
    ensures removed == |Texts(lines, Minus, 0) * minus| && minusLeft == minus - Texts(lines, Minus, 0)
  {
    added, removed, plusLeft, minusLeft := 0, 0, plus, minus;
    for i := 0 to |lines|
      invariant added + |Texts(lines, Plus, i) * plusLeft| == |Texts(lines, Plus, 0) * plus|
      invariant plusLeft - Texts(lines, Plus, i) == plus - Texts(lines, Plus, 0)
      invariant removed + |Texts(lines, Minus, i) * minusLeft| == |Texts(lines, Minus, 0) * minus|
      invariant minusLeft - Texts(lines, Minus, i) == minus - Texts(lines, Minus, 0)
    {
      var text := lines[i].text;
      match lines[i].sign {
        case Plus => plusLeft, added := Charge(text, plusLeft, added, Texts(lines, Plus, i + 1));
        case Minus => minusLeft, removed := Charge(text, minusLeft, removed, Texts(lines, Minus, i + 1));
        case Neither =>
      }
    }
    assert forall m: multiset<T> :: multiset{} * m == multiset{} && m - multiset{} == m;
  }

  method SummarizeForeignHunks<T(==)>(payload: Option<Payload<T>>, plus: multiset<T>, minus: multiset<T>, dropped: bool)
      returns (summaries: seq<Summary<T>>)
    ensures summaries == Charged(OrEmpty(payload).hunks, 0, plus, minus, dropped)
  {
    summaries := [];
    if payload.None? {
      return;
    }
    var hunks := payload.value.hunks;
    var plusLeft, minusLeft := plus, minus;
    for i := 0 to |hunks|
      invariant summaries + Charged(hunks, i, plusLeft, minusLeft, dropped) == Charged(hunks, 0, plus, minus, dropped)
    {
      var added, removed;
      added, removed, plusLeft, minusLeft := ChargeHunk(hunks[i].lines, plusLeft, minusLeft);
      ghost var rest := Charged(hunks, i + 1, plusLeft, minusLeft, dropped);
      if added > 0 || removed > 0 {
        var summary := Summarize(hunks[i], added, removed, dropped);
        assert summaries + ([summary] + rest) == (summaries + [summary]) + rest;
        summaries := summaries + [summary];
      }
    }
  }

  // ----- Comparison -------------------------------------------------------------------------

  datatype FileDrift<T> = FileDrift(file: string, addedLines: nat, removedLines: nat, summaries: seq<Summary<T>>,
      binaryChanged: bool)

  const MAX_HUNK_SUMMARIES_PER_FILE := 3

  function Cap<A>(s: seq<A>): seq<A> {
    if |s| <= MAX_HUNK_SUMMARIES_PER_FILE then s else s[..MAX_HUNK_SUMMARIES_PER_FILE]
  }

  function HashOf<T>(payload: Option<Payload<T>>): Option<string> {
    if payload.None? then None else payload.value.newHash
  }

  // An abbreviated blob hash names the same blob as the hash it begins.
  predicate BinaryContentChanged<T>(next: Option<Payload<T>>, previous: Option<Payload<T>>) {
    || HashOf(next).None? || HashOf(previous).None?
    || !(HashOf(next).value <= HashOf(previous).value || HashOf(previous).value <= HashOf(next).value)
  }

  // The lines an engine file gained since the old body: `+` texts only the new body carries and
  // `-` texts only the old one does.
  function Gained<T>(next: Payload<T>, previous: Payload<T>): nat {
    |next.added - previous.added| + |previous.removed - next.removed|
  }

  function Uncapped<T>(next: Payload<T>, previous: Payload<T>): seq<Summary<T>> {
    Charged(next.hunks, 0, next.added - previous.added, next.removed - previous.removed, false)
    + Charged(previous.hunks, 0, previous.added - next.added, previous.removed - next.removed, true)
  }

  function TextDrift<T>(file: string, next: Payload<T>, previous: Payload<T>): Option<FileDrift<T>> {
    var gained, lost := Gained(next, previous), Gained(previous, next);
    if gained == 0 && lost == 0 then None
    else Some(FileDrift(file, gained, lost, Cap(Uncapped(next, previous)), false))
  }

  function DriftOf<T>(file: string, next: Option<Payload<T>>, previous: Option<Payload<T>>): Option<FileDrift<T>> {
    var n, p := OrEmpty(next), OrEmpty(previous);
    if n.isBinary || p.isBinary then
      if BinaryContentChanged(next, previous) then Some(FileDrift(file, 0, 0, [], true)) else None
    else TextDrift(file, n, p)
  }

  method CompareFile<T(==)>(file: string, next: Option<Payload<T>>, previous: Option<Payload<T>>)
      returns (drift: Option<FileDrift<T>>)
    ensures drift == DriftOf(file, next, previous)
  {
    var n, p := OrEmpty(next), OrEmpty(previous);
    if n.isBinary || p.isBinary {
      drift := if BinaryContentChanged(next, previous) then Some(FileDrift(file, 0, 0, [], true)) else None;
    } else {
      drift := CompareText(file, next, previous);
    }
  }

  method CountGained<T(==)>(next: Payload<T>, previous: Payload<T>) returns (gained: nat)
    ensures gained == Gained(next, previous)
  {
    var absorbed := MultisetExcess(next.added, previous.added);
    var dropped := MultisetExcess(previous.removed, next.removed);
    var a := CountExcess(absorbed);
    var b := CountExcess(dropped);
    gained := a + b;
  }

  method SummarizeBoth<T(==)>(next: Option<Payload<T>>, previous: Option<Payload<T>>)
      returns (summaries: seq<Summary<T>>)
    ensures summaries == Uncapped(OrEmpty(next), OrEmpty(previous))
  {
    var n, p := OrEmpty(next), OrEmpty(previous);
    var absorbed := SummarizeForeignHunks(next, n.added - p.added, n.removed - p.removed, false);
    var dropped := SummarizeForeignHunks(previous, p.added - n.added, p.removed - n.removed, true);
    summaries := absorbed + dropped;
  }

  method CompareText<T(==)>(file: string, next: Option<Payload<T>>, previous: Option<Payload<T>>)
      returns (drift: Option<FileDrift<T>>)
    ensures drift == TextDrift(file, OrEmpty(next), OrEmpty(previous))
  {
    var gained := CountGained(OrEmpty(next), OrEmpty(previous));
    var lost := CountGained(OrEmpty(previous), OrEmpty(next));
    if gained == 0 && lost == 0 {
      return None;
    }
    var summaries := SummarizeBoth(next, previous);
    return Some(FileDrift(file, gained, lost, Cap(summaries), false));
  }

  function EntryFor<T(==)>(oldBody: seq<Section<T>>, newBody: seq<Section<T>>, file: string): Option<FileDrift<T>> {
    DriftOf(file, BodyPayload(newBody, file), BodyPayload(oldBody, file))
  }

  // New-body order first, then the files only the old body carries.
  function Joined(newFiles: seq<string>, oldFiles: seq<string>, n: nat): seq<string>
    requires n <= |oldFiles|
  {
    if n == 0 then newFiles
    else
      var files := Joined(newFiles, oldFiles, n - 1);
      if oldFiles[n - 1] in files then files else files + [oldFiles[n - 1]]
  }

  function FilesInOrder<T>(oldBody: seq<Section<T>>, newBody: seq<Section<T>>): seq<string> {
    var oldFiles := FilesOf(oldBody, |oldBody|);
    Joined(FilesOf(newBody, |newBody|), oldFiles, |oldFiles|)
  }

  method JoinFiles(newFiles: seq<string>, oldFiles: seq<string>) returns (files: seq<string>)
    ensures files == Joined(newFiles, oldFiles, |oldFiles|)
  {
    files := newFiles;
    for i := 0 to |oldFiles|
      invariant files == Joined(newFiles, oldFiles, i)
    {
      if oldFiles[i] !in files {
        files := files + [oldFiles[i]];
      }
    }
  }

  function Entrant<T(==)>(oldBody: seq<Section<T>>, newBody: seq<Section<T>>): string -> Option<FileDrift<T>> {
    file => EntryFor(oldBody, newBody, file)
  }

  // The owned files' entries among the first `n` files, in order.
  function Entries<T>(files: seq<string>, n: nat, owned: set<string>,
                      entrant: string -> Option<FileDrift<T>>): seq<FileDrift<T>>
    requires n <= |files|
  {
    if n == 0 then []
    else
      var before, entry := Entries(files, n - 1, owned, entrant), entrant(files[n - 1]);
      if files[n - 1] in owned && entry.Some? then before + [entry.value] else before
  }

  // The entries of the owned files that drifted, in the files' order.
  function DriftBetween<T(==)>(oldBody: seq<Section<T>>, newBody: seq<Section<T>>,
                          owned: set<string>): seq<FileDrift<T>> {
    var files := FilesInOrder(oldBody, newBody);
    Entries(files, |files|, owned, Entrant(oldBody, newBody))
  }

  method ComputeForeignDrift<T(==)>(oldBody: seq<Section<T>>, newBody: seq<Section<T>>, owned: set<string>)
      returns (drift: seq<FileDrift<T>>)
    ensures drift == DriftBetween(oldBody, newBody, owned)
  {
    var oldFiles, oldByFile := CollectPayloadByFile(oldBody);
    var newFiles, newByFile := CollectPayloadByFile(newBody);
    var order := JoinFiles(newFiles, oldFiles);
    drift := CompareFiles(order, oldByFile, newByFile, owned, oldBody, newBody);
  }

  ghost predicate Holds<T>(byFile: map<string, Payload<T>>, body: seq<Section<T>>) {
    forall file :: BodyPayload(body, file) == if file in byFile then Some(byFile[file]) else None
  }

  method CompareFiles<T(==)>(files: seq<string>, oldByFile: map<string, Payload<T>>, newByFile: map<string, Payload<T>>,
                             owned: set<string>, ghost oldBody: seq<Section<T>>, ghost newBody: seq<Section<T>>)
      returns (drift: seq<FileDrift<T>>)
    requires Holds(oldByFile, oldBody) && Holds(newByFile, newBody)
    ensures drift == Entries(files, |files|, owned, Entrant(oldBody, newBody))
  {
    drift := [];
    for i := 0 to |files|
      invariant drift == Entries(files, i, owned, Entrant(oldBody, newBody))
    {
      var file := files[i];
      if file in owned {
        var next := if file in newByFile then Some(newByFile[file]) else None;
        var previous := if file in oldByFile then Some(oldByFile[file]) else None;
        var entry := CompareFile(file, next, previous);
        assert entry == Entrant(oldBody, newBody)(file);
        if entry.Some? {
          drift := drift + [entry.value];
        }
      }
    }
  }
}
