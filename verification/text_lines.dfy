// Texts as line buffers: how src/commands/re-export-hunks.ts opens a text into lines and closes
// the lines into a text again.
module TextLines {

  // `text.split('\n')`
  function Split(text: string): (lines: seq<string>)
    ensures |lines| > 0
    ensures forall line | line in lines :: '\n' !in line
  {
    if text == "" then
      [""]
    else
      var rest := Split(text[1..]);
      if text[0] == '\n' then [""] + rest else [[text[0]] + rest[0]] + rest[1..]
  }

  // `lines.join('\n')`
  function Join(lines: seq<string>): string {
    if |lines| == 0 then ""
    else if |lines| == 1 then lines[0]
    else lines[0] + "\n" + Join(lines[1..])
  }

  lemma {:induction false} JoinAfterSplit(text: string)
    ensures Join(Split(text)) == text
  {
    if text != "" {
      var rest := Split(text[1..]);
      JoinAfterSplit(text[1..]);
      if text[0] == '\n' {
        assert Split(text)[1..] == rest;
      } else {
        assert Split(text)[1..] == rest[1..];
      }
    }
  }

  lemma {:induction false} SplitLine(line: string)
    requires '\n' !in line
    ensures Split(line) == [line]
  {
    if line != "" {
      SplitLine(line[1..]);
      assert [line[0]] + line[1..] == line;
    }
  }

  lemma {:induction false} SplitAtNewline(line: string, text: string)
    requires '\n' !in line
    ensures Split(line + "\n" + text) == [line] + Split(text)
  {
    var whole := line + "\n" + text;
    if line == "" {
      assert whole[1..] == text;
    } else {
      SplitAtNewline(line[1..], text);
      assert whole[1..] == line[1..] + "\n" + text;
      assert [line[0]] + line[1..] == line;
    }
  }

  lemma {:induction false} SplitAfterJoin(lines: seq<string>)
    requires |lines| > 0
    requires forall line | line in lines :: '\n' !in line
    ensures Split(Join(lines)) == lines
  {
    if |lines| == 1 {
      SplitLine(lines[0]);
    } else {
      SplitAfterJoin(lines[1..]);
      SplitAtNewline(lines[0], Join(lines[1..]));
    }
  }

  // An opened text: its lines, and whether a final newline is written back.
  datatype Document = Document(lines: seq<string>, newline: bool)

  // The empty text counts as ending in a newline.
  predicate EndsWithNewline(text: string) {
    text == "" || text[|text| - 1] == '\n'
  }

  function Open(text: string): Document {
    if text == "" then Document([], true)
    else if EndsWithNewline(text) then Document(Split(text[..|text| - 1]), true)
    else Document(Split(text), false)
  }

  function Close(doc: Document): string {
    if doc.lines == [] then "" else Join(doc.lines) + (if doc.newline then "\n" else "")
  }

  lemma CloseAfterOpen(text: string)
    ensures Close(Open(text)) == text
    ensures Open(text).newline == EndsWithNewline(text)
  {
    if text != "" {
      if EndsWithNewline(text) {
        JoinAfterSplit(text[..|text| - 1]);
      } else {
        JoinAfterSplit(text);
      }
    }
  }

  // Which documents survive being written and read back: exactly those whose flag can be read
  // off the written text.
  lemma OpenAfterClose(doc: Document)
    requires forall line | line in doc.lines :: '\n' !in line
    ensures Open(Close(doc)) == doc <==> doc.newline == EndsWithNewline(Close(doc))
  {
    var text := Close(doc);
    CloseAfterOpen(text);
    if doc.lines != [] {
      SplitAfterJoin(doc.lines);
      assert text[..|Join(doc.lines)|] == Join(doc.lines);
      assert !doc.newline ==> text == Join(doc.lines);
    }
  }

  lemma {:induction false} JoinEndsInItsLastLine(lines: seq<string>)
    requires lines != [] && forall line | line in lines :: '\n' !in line
    ensures EndsWithNewline(Join(lines)) <==> lines[|lines| - 1] == ""
  {
    if |lines| > 1 {
      JoinEndsInItsLastLine(lines[1..]);
      assert lines[1..][|lines| - 2] == lines[|lines| - 1];
    } else if lines[0] != "" {
      assert lines[0][|lines[0]| - 1] in lines[0];
    }
  }

  // The flag can be read off a closed text exactly when it is set or the last line is not empty.
  lemma ClosedNewlineExactly(lines: seq<string>, newline: bool)
    requires forall line | line in lines :: '\n' !in line
    ensures EndsWithNewline(Close(Document(lines, newline))) == newline
       <==> newline || (lines != [] && lines[|lines| - 1] != "")
  {
    if lines != [] {
      JoinEndsInItsLastLine(lines);
      assert !newline ==> Close(Document(lines, newline)) == Join(lines);
    }
  }

  // ----- One text above another -------------------------------------------------------------

  lemma Regroup(line: string, joined: string, text: string)
    ensures line + "\n" + joined + "\n" + text == line + "\n" + (joined + "\n" + text)
  {
  }

  lemma {:induction false} SplitBelow(lines: seq<string>, text: string)
    requires lines != [] && forall line | line in lines :: '\n' !in line
    ensures Split(Join(lines) + "\n" + text) == lines + Split(text)
  {
    if |lines| == 1 {
      SplitAtNewline(lines[0], text);
    } else {
      var first, rest := lines[0], lines[1..];
      SplitBelow(rest, text);
      SplitAtNewline(first, Join(rest) + "\n" + text);
      Regroup(first, Join(rest), text);
      assert [first] + (rest + Split(text)) == lines + Split(text);
    }
  }

  lemma {:induction false} JoinBelow(lines: seq<string>, below: seq<string>)
    requires lines != [] && below != []
    ensures Join(lines + below) == Join(lines) + "\n" + Join(below)
  {
    if |lines| > 1 {
      JoinBelow(lines[1..], below);
      assert (lines + below)[1..] == lines[1..] + below;
    } else {
      assert (lines + below)[1..] == below;
    }
  }

  lemma OpenOfClosed(text: string)
    requires text != "" && EndsWithNewline(text)
    ensures Open(text).lines != [] && text == Join(Open(text).lines) + "\n"
  {
    JoinAfterSplit(text[..|text| - 1]);
  }

  // A text below one that ends in a newline is opened into the lines of both.
  lemma OpenBelow(above: string, text: string)
    requires above != "" && EndsWithNewline(above)
    ensures Open(above + text) == Document(Open(above).lines + Open(text).lines, EndsWithNewline(text))
  {
    var lines := Open(above).lines;
    OpenOfClosed(above);
    if text == "" {
      assert above + text == above && lines + [] == lines;
    } else if EndsWithNewline(text) {
      var most := text[..|text| - 1];
      SplitBelow(lines, most);
      assert (above + text)[..|above + text| - 1] == above + most;
    } else {
      SplitBelow(lines, text);
    }
  }

  // The lines of both are closed into the one text above the other, unless the lower one has no
  // lines and no final newline.
  lemma CloseBelow(above: string, lines: seq<string>, newline: bool)
    requires above != "" && EndsWithNewline(above)
    ensures Close(Document(Open(above).lines + lines, newline)) == above + Close(Document(lines, newline))
       <==> newline || lines != []
  {
    OpenOfClosed(above);
    if lines == [] {
      assert Open(above).lines + lines == Open(above).lines;
    } else {
      JoinBelow(Open(above).lines, lines);
    }
  }
}
