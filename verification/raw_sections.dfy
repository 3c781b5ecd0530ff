// `splitRawSections` of src/commands/re-export-hunks.ts: a diff cut into its per-file sections.
module RawSections {
  import opened Prelude
  import TextLines

  datatype Section<T> = Section(path: string, lines: seq<T>)

  // One more line: a header opens a section, any other line joins the open one.
  function Extended<T>(sections: seq<Section<T>>, line: T, path: Option<string>): seq<Section<T>> {
    if path.Some? then sections + [Section(path.value, [line])]
    else if sections == [] then []
    else
      var last := sections[|sections| - 1];
      sections[..|sections| - 1] + [last.(lines := last.lines + [line])]
  }

  // The sections of the first `n` lines, in order; `header` gives the target path of a
  // `diff --git` line.
  function SectionsOf<T>(lines: seq<T>, n: nat, header: T -> Option<string>): seq<Section<T>>
    requires n <= |lines|
  {
    if n == 0 then [] else Extended(SectionsOf(lines, n - 1, header), lines[n - 1], header(lines[n - 1]))
  }

  function LinesOf<T>(sections: seq<Section<T>>): seq<T> {
    if sections == [] then [] else LinesOf(sections[..|sections| - 1]) + sections[|sections| - 1].lines
  }

  // How many lines stand before the first header.
  function Preamble<T>(lines: seq<T>, header: T -> Option<string>): (first: nat)
    ensures first <= |lines|
    ensures forall i | 0 <= i < first :: header(lines[i]).None?
    ensures first < |lines| ==> header(lines[first]).Some?
  {
    if lines == [] || header(lines[0]).Some? then 0 else 1 + Preamble(lines[1..], header)
  }

  lemma LinesAppend<T>(sections: seq<Section<T>>, last: Section<T>)
    ensures LinesOf(sections + [last]) == LinesOf(sections) + last.lines
  {
    assert (sections + [last])[..|sections|] == sections;
  }

  lemma ExtendedFlattens<T>(sections: seq<Section<T>>, line: T, path: Option<string>)
    requires path.Some? || sections != []
    ensures Extended(sections, line, path) != []
    ensures LinesOf(Extended(sections, line, path)) == LinesOf(sections) + [line]
  {
    if path.Some? {
      LinesAppend(sections, Section(path.value, [line]));
    } else {
      var front, last := sections[..|sections| - 1], sections[|sections| - 1];
      LinesAppend(front, last.(lines := last.lines + [line]));
      assert LinesOf(front) + (last.lines + [line]) == (LinesOf(front) + last.lines) + [line];
    }
  }

  lemma {:induction false} PreambleHasNoSection<T>(lines: seq<T>, n: nat, header: T -> Option<string>)
    requires n <= Preamble(lines, header)
    ensures SectionsOf(lines, n, header) == []
  {
    if n > 0 {
      PreambleHasNoSection(lines, n - 1, header);
    }
  }

  // The lines from index `first` to `n`.
  function Stretch<T>(lines: seq<T>, first: nat, n: nat): seq<T>
    requires n <= |lines|
  {
    if n <= first then [] else Stretch(lines, first, n - 1) + [lines[n - 1]]
  }

  lemma {:induction false} StretchIsSlice<T>(lines: seq<T>, first: nat, n: nat)
    requires first <= n <= |lines|
    ensures Stretch(lines, first, n) == lines[first..n]
  {
    if first < n {
      StretchIsSlice(lines, first, n - 1);
    }
  }

  lemma {:induction false} HoldsFrom<T>(lines: seq<T>, n: nat, header: T -> Option<string>, first: nat)
    requires first <= n <= |lines| && SectionsOf(lines, first, header) == []
    requires first < |lines| ==> header(lines[first]).Some?
    ensures LinesOf(SectionsOf(lines, n, header)) == Stretch(lines, first, n)
    ensures first < n ==> SectionsOf(lines, n, header) != []
    decreases n
  {
    if first < n {
      var sections, line := SectionsOf(lines, n - 1, header), lines[n - 1];
      HoldsFrom(lines, n - 1, header, first);
      ExtendedFlattens(sections, line, header(line));
    }
  }

  lemma WholeFrom<T>(lines: seq<T>, first: nat)
    requires first <= |lines|
    ensures Stretch(lines, first, |lines|) == lines[first..]
  {
    StretchIsSlice(lines, first, |lines|);
    assert lines[first..|lines|] == lines[first..];
  }

  // From the first header on no line is lost, repeated or moved: the sections laid end to end are
  // the diff.
  lemma SectionsHoldEveryLine<T>(lines: seq<T>, header: T -> Option<string>)
    ensures LinesOf(SectionsOf(lines, |lines|, header)) == lines[Preamble(lines, header)..]
  {
    var first := Preamble(lines, header);
    PreambleHasNoSection(lines, first, header);
    HoldsFrom(lines, |lines|, header, first);
    WholeFrom(lines, first);
  }

  ghost predicate StartsAtItsHeader<T>(section: Section<T>, header: T -> Option<string>) {
    && section.lines != [] && header(section.lines[0]) == Some(section.path)
    && forall k | 0 < k < |section.lines| :: header(section.lines[k]).None?
  }

  ghost predicate StartAtHeaders<T>(sections: seq<Section<T>>, header: T -> Option<string>) {
    forall i | 0 <= i < |sections| :: StartsAtItsHeader(sections[i], header)
  }

  lemma ExtendedStarts<T>(sections: seq<Section<T>>, line: T, header: T -> Option<string>)
    requires StartAtHeaders(sections, header)
    ensures StartAtHeaders(Extended(sections, line, header(line)), header)
  {
    var extended := Extended(sections, line, header(line));
    forall i | 0 <= i < |extended|
      ensures StartsAtItsHeader(extended[i], header)
    {
      if i < |sections| {
        assert StartsAtItsHeader(sections[i], header);
      }
    }
  }

  // Each section starts at its header and holds no other.
  lemma {:induction false} SectionsStartAtHeaders<T>(lines: seq<T>, n: nat, header: T -> Option<string>)
    requires n <= |lines|
    ensures StartAtHeaders(SectionsOf(lines, n, header), header)
  {
    if n > 0 {
      SectionsStartAtHeaders(lines, n - 1, header);
      ExtendedStarts(SectionsOf(lines, n - 1, header), lines[n - 1], header);
    }
  }

  // ----- The map ----------------------------------------------------------------------------

  // `text.replace(/\n+$/, '\n')` of a text that ends in a newline.
  function OneFinalNewline(text: string): (trimmed: string)
    ensures trimmed != "" && trimmed[|trimmed| - 1] == '\n'
    ensures |trimmed| > 1 ==> trimmed[|trimmed| - 2] != '\n'
  {
    if text != "" && text[|text| - 1] == '\n' then OneFinalNewline(text[..|text| - 1]) else text + "\n"
  }

  // A later section of the same path takes the place of an earlier one.
  function ByPath(sections: seq<Section<string>>): map<string, seq<string>> {
    if sections == [] then map[]
    else
      var last := sections[|sections| - 1];
      ByPath(sections[..|sections| - 1])[last.path := last.lines]
  }

  lemma {:induction false} LastOfItsPath(sections: seq<Section<string>>, i: nat)
    requires i < |sections| && forall j | i < j < |sections| :: sections[j].path != sections[i].path
    ensures sections[i].path in ByPath(sections) && ByPath(sections)[sections[i].path] == sections[i].lines
  {
    if i < |sections| - 1 {
      LastOfItsPath(sections[..|sections| - 1], i);
    }
  }

  function Texts(byPath: map<string, seq<string>>): map<string, string> {
    map path | path in byPath :: OneFinalNewline(TextLines.Join(byPath[path]) + "\n")
  }

  function Newlines(count: nat): string {
    seq(count, _ => '\n')
  }

  // A text without its final newlines.
  ghost predicate IsStem(stem: string, text: string) {
    && (stem == "" || stem[|stem| - 1] != '\n')
    && exists count: nat :: text == stem + Newlines(count)
  }

  // Trimming leaves everything but the final newlines, and one of those.
  lemma {:induction false} TrimmedExactly(text: string) returns (stem: string)
    ensures IsStem(stem, text) && OneFinalNewline(text) == stem + "\n"
  {
    if text != "" && text[|text| - 1] == '\n' {
      stem := TrimmedExactly(text[..|text| - 1]);
      var count: nat :| text[..|text| - 1] == stem + Newlines(count);
      assert text == stem + Newlines(count + 1);
    } else {
      stem := text;
      assert text == stem + Newlines(0);
    }
  }

  lemma {:induction false} PathsOfSections(sections: seq<Section<string>>, path: string)
    ensures path in ByPath(sections) <==> exists i | 0 <= i < |sections| :: sections[i].path == path
  {
    if sections != [] {
      var before := sections[..|sections| - 1];
      PathsOfSections(before, path);
      if i: nat :| i < |sections| && sections[i].path == path && i < |sections| - 1 {
        assert before[i].path == path;
      }
    }
  }

  // The map that comes out has exactly the paths of the sections, and under each the lines of its
  // last section, joined, up to the final newlines.
  lemma TextsExactly(sections: seq<Section<string>>, path: string)
    ensures path in Texts(ByPath(sections)) <==> exists i | 0 <= i < |sections| :: sections[i].path == path
    ensures forall i | 0 <= i < |sections| && sections[i].path == path
                       && (forall j | i < j < |sections| :: sections[j].path != path) ::
              exists stem ::
                IsStem(stem, TextLines.Join(sections[i].lines)) && Texts(ByPath(sections))[path] == stem + "\n"
  {
    PathsOfSections(sections, path);
    forall i | 0 <= i < |sections| && sections[i].path == path
               && (forall j | i < j < |sections| :: sections[j].path != path)
      ensures exists stem ::
                IsStem(stem, TextLines.Join(sections[i].lines)) && Texts(ByPath(sections))[path] == stem + "\n"
    {
      LastOfItsPath(sections, i);
      var joined := TextLines.Join(sections[i].lines);
      var stem := TrimmedExactly(joined);
      TrimsTheNewline(joined);
      assert IsStem(stem, joined) && Texts(ByPath(sections))[path] == stem + "\n";
    }
  }

  lemma TrimsTheNewline(text: string)
    ensures OneFinalNewline(text + "\n") == OneFinalNewline(text)
  {
    assert (text + "\n")[..|text|] == text;
  }

  // The loop's state: the flushed sections, and the open one.
  ghost predicate Splitting(lines: seq<string>, n: nat, header: string -> Option<string>,
                            flushed: map<string, seq<string>>, open: Option<Section<string>>)
    requires n <= |lines|
  {
    var sections := SectionsOf(lines, n, header);
    if open.None? then sections == [] && flushed == map[]
    else sections != [] && sections[|sections| - 1] == open.value && flushed == ByPath(sections[..|sections| - 1])
  }

  lemma SplitsOne(lines: seq<string>, n: nat, header: string -> Option<string>, flushed: map<string, seq<string>>,
                  open: Option<Section<string>>)
    requires n < |lines| && Splitting(lines, n, header, flushed, open)
    ensures var line := lines[n];
            var next := if open.Some? then flushed[open.value.path := open.value.lines] else flushed;
            if header(line).Some? then Splitting(lines, n + 1, header, next, Some(Section(header(line).value, [line])))
            else if open.Some? then
              Splitting(lines, n + 1, header, flushed, Some(open.value.(lines := open.value.lines + [line])))
            else Splitting(lines, n + 1, header, flushed, open)
  {
    var sections, line := SectionsOf(lines, n, header), lines[n];
    if header(line).Some? {
      assert SectionsOf(lines, n + 1, header)[..|sections|] == sections;
    } else if open.Some? {
      assert SectionsOf(lines, n + 1, header)[..|sections| - 1] == sections[..|sections| - 1];
    }
  }

  method SplitRawSections(diff: string, header: string -> Option<string>) returns (texts: map<string, string>)
    ensures texts == Texts(ByPath(SectionsOf(TextLines.Split(diff), |TextLines.Split(diff)|, header)))
  {
    var lines := TextLines.Split(diff);
    var sections: map<string, seq<string>> := map[];
    var open: Option<Section<string>> := None;
    for i := 0 to |lines|
      invariant Splitting(lines, i, header, sections, open)
    {
      var line := lines[i];
      SplitsOne(lines, i, header, sections, open);
      var path := header(line);
      if path.Some? {
        if open.Some? {
          sections := sections[open.value.path := open.value.lines];
        }
        open := Some(Section(path.value, [line]));
      } else if open.Some? {
        open := Some(open.value.(lines := open.value.lines + [line]));
      }
    }
    if open.Some? {
      sections := sections[open.value.path := open.value.lines];
    }
    return Texts(sections);
  }
}
