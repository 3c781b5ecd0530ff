// `applyHunksByContext` of src/commands/re-export-hunks.ts: unified-diff hunks applied to a text
// by their context, forward or reversed.
module HunkEngine {
  import opened Prelude
  import opened TextLines
  import opened Edits

  // A parsed `@@ -oldStart,oldCount +newStart,newCount @@` hunk with its marked lines.
  datatype Hunk = Hunk(oldStart: nat, oldCount: nat, newStart: nat, newCount: nat, lines: seq<string>)

  // The texts of the lines carrying one of `markers`; an empty line carries none.
  function Marked(lines: seq<string>, markers: set<char>): seq<string> {
    if lines == [] then []
    else (if lines[0] != "" && lines[0][0] in markers then [lines[0][1..]] else []) + Marked(lines[1..], markers)
  }

  function Old(hunk: Hunk): seq<string> { Marked(hunk.lines, {' ', '-'}) }

  function New(hunk: Hunk): seq<string> { Marked(hunk.lines, {' ', '+'}) }

  lemma {:induction false} MarkedAppend(lines: seq<string>, line: string, markers: set<char>)
    ensures Marked(lines + [line], markers)
         == Marked(lines, markers) + (if line != "" && line[0] in markers then [line[1..]] else [])
  {
    if lines == [] {
      assert [line][1..] == [];
    } else {
      assert (lines + [line])[1..] == lines[1..] + [line];
      MarkedAppend(lines[1..], line, markers);
    }
  }

  method HunkBlocks(hunk: Hunk, reverse: bool) returns (from: seq<string>, to: seq<string>)
    ensures from == (if reverse then New(hunk) else Old(hunk))
    ensures to == (if reverse then Old(hunk) else New(hunk))
  {
    var oldLines, newLines := [], [];
    for i := 0 to |hunk.lines|
      invariant oldLines == Marked(hunk.lines[..i], {' ', '-'})
      invariant newLines == Marked(hunk.lines[..i], {' ', '+'})
    {
      var line := hunk.lines[i];
      assert hunk.lines[..i + 1] == hunk.lines[..i] + [line];
      MarkedAppend(hunk.lines[..i], line, {' ', '-'});
      MarkedAppend(hunk.lines[..i], line, {' ', '+'});
      if line != "" {
        var marker, text := line[0], line[1..];
        if marker == ' ' || marker == '-' {
          oldLines := oldLines + [text];
        }
        if marker == ' ' || marker == '+' {
          newLines := newLines + [text];
        }
      }
    }
    assert hunk.lines[..|hunk.lines|] == hunk.lines;
    if reverse {
      return newLines, oldLines;
    }
    return oldLines, newLines;
  }

  // A hunk read as an edit. The unified format counts a non-empty range from its first line and
  // an empty one from the line before it.
  function EditOf(hunk: Hunk, reverse: bool): Edit<string> {
    var from, to := if reverse then New(hunk) else Old(hunk), if reverse then Old(hunk) else New(hunk);
    Edit((if reverse then hunk.newStart else hunk.oldStart) - (if from == [] then 0 else 1), from, to)
  }

  function EditsOf(hunks: seq<Hunk>, reverse: bool): (edits: seq<Edit<string>>)
    ensures |edits| == |hunks|
    ensures forall i | 0 <= i < |hunks| :: edits[i] == EditOf(hunks[i], reverse)
  {
    if hunks == [] then [] else [EditOf(hunks[0], reverse)] + EditsOf(hunks[1..], reverse)
  }

  // The source's loop over the hunks, splicing the buffer in place.
  method SpliceHunks(lines: seq<string>, hunks: seq<Hunk>, reverse: bool) returns (result: Result<seq<string>, nat>)
    ensures result == ApplyEdits(lines, EditsOf(hunks, reverse))
  {
    ghost var edits := EditsOf(hunks, reverse);
    var cursor := Cursor(lines, 0, 0);
    for i := 0 to |hunks|
      invariant ApplyEdits(lines, edits) == Run(cursor, edits, i)
    {
      var from, to := HunkBlocks(hunks[i], reverse);
      var start := (if reverse then hunks[i].newStart else hunks[i].oldStart) - (if from == [] then 0 else 1);
      var edit := Edit(start, from, to);
      assert edit == edits[i];
      var next := SpliceEdit(cursor, edit);
      if next.None? {
        return Err(i);
      }
      RunStep(cursor, edits, i, Place(cursor, edit).value, next.value);
      cursor := next.value;
    }
    return Ok(cursor.lines);
  }

  function Apply(content: string, hunks: seq<Hunk>, reverse: bool): Result<string, Hunk> {
    var result := ApplyEdits(Open(content).lines, EditsOf(hunks, reverse));
    match result
    case Ok(lines) => Ok(Close(Document(lines, EndsWithNewline(content))))
    case Err(index) => Err(hunks[index])
  }

  // The error carries the hunk whose lines were not found.
  method ApplyHunksByContext(content: string, hunks: seq<Hunk>, reverse: bool) returns (result: Result<string, Hunk>)
    ensures result == Apply(content, hunks, reverse)
  {
    var spliced := SpliceHunks(Open(content).lines, hunks, reverse);
    match spliced {
      case Ok(lines) =>
        if lines == [] {
          return Ok("");
        }
        return Ok(Join(lines) + (if EndsWithNewline(content) then "\n" else ""));
      case Err(index) =>
        return Err(hunks[index]);
    }
  }

  // Over all buffers of a size, the search misses no block at or after `floor` exactly when the
  // expected line is at most that size past `floor`, or nothing lies at or after `floor` at all.
  lemma SearchIsCompleteExactly(size: nat, expected: nat, floor: nat)
    ensures (forall lines: seq<string> | |lines| == size :: FindsAll(lines, expected, floor))
       <==> expected <= size + floor || size <= floor
  {
    if expected <= size + floor || size <= floor {
      forall lines: seq<string> | |lines| == size
        ensures FindsAll(lines, expected, floor)
      {
        SearchIsComplete(lines, expected, floor);
      }
    } else {
      var lines := seq(size, i => if i == floor then "x" else "");
      SearchMisses(lines, expected, floor);
      assert |lines| == size && !FindsAll(lines, expected, floor);
    }
  }
}
