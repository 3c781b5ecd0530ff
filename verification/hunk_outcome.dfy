// What `applyHunksByContext` comes to on texts: the unified diff of two texts turns one into the
// other, and any hunks are applied or refused by where their lines stand.
module HunkOutcome {
  import opened Prelude
  import opened TextLines
  import opened Edits
  import opened EditLaws
  import opened EditOutcome
  import opened HunkEngine

  // ----- The two sides of a hunk ------------------------------------------------------------

  // Of a line of a hunk, what each side has of it: context is on both, `-` on the old side only, `+` on
  // the new one only, and anything else on neither.
  function OldLine(line: string): Option<string> {
    if line != "" && (line[0] == ' ' || line[0] == '-') then Some(line[1..]) else None
  }

  function NewLine(line: string): Option<string> {
    if line != "" && (line[0] == ' ' || line[0] == '+') then Some(line[1..]) else None
  }

  function Side(lines: seq<string>, of: string -> Option<string>): seq<string> {
    Somes(seq(|lines|, k requires 0 <= k < |lines| => of(lines[k])))
  }

  lemma {:induction false} SideHolds(lines: seq<string>, markers: set<char>, of: string -> Option<string>)
    requires forall line :: of(line) == if line != "" && line[0] in markers then Some(line[1..]) else None
    ensures Marked(lines, markers) == Side(lines, of)
  {
    if lines != [] {
      var rest := lines[1..];
      SideHolds(rest, markers, of);
      var texts := seq(|lines|, k requires 0 <= k < |lines| => of(lines[k]));
      assert texts[1..] == seq(|rest|, k requires 0 <= k < |rest| => of(rest[k]));
    }
  }

  // The sides of a hunk are those lines, in order.
  lemma SidesExactly(hunk: Hunk)
    ensures Old(hunk) == Side(hunk.lines, OldLine) && New(hunk) == Side(hunk.lines, NewLine)
  {
    SideHolds(hunk.lines, {' ', '-'}, OldLine);
    SideHolds(hunk.lines, {' ', '+'}, NewLine);
  }

  // ----- A unified diff ---------------------------------------------------------------------

  // The first line of a range with so many lines before it: counted from 1, and the line before it
  // when the range is empty.
  function FirstLine(before: nat, count: nat): nat {
    if count == 0 then before else before + 1
  }

  // From hunk `i` on, the headers count the lines of both texts, which agree on the gaps.
  ghost predicate IsDiff(gaps: seq<seq<string>>, hunks: seq<Hunk>, i: nat, oldLine: nat, newLine: nat)
    requires i <= |hunks| && |gaps| == |hunks| - i + 1
    decreases |hunks| - i
  {
    i < |hunks| ==>
      var hunk, oldAt, newAt := hunks[i], oldLine + |gaps[0]|, newLine + |gaps[0]|;
      && hunk.oldStart == FirstLine(oldAt, |Old(hunk)|)
      && hunk.newStart == FirstLine(newAt, |New(hunk)|)
      && IsDiff(gaps[1..], hunks, i + 1, oldAt + |Old(hunk)|, newAt + |New(hunk)|)
  }

  // From edit `i` on, each starts where its gap ends.
  ghost predicate Follow<T>(gaps: seq<seq<T>>, edits: seq<Edit<T>>, i: nat, line: nat)
    requires i <= |edits| && |gaps| == |edits| - i + 1
    decreases |edits| - i
  {
    i < |edits| ==>
      var start := line + |gaps[0]|;
      edits[i].start == start && Follow(gaps[1..], edits, i + 1, start + |edits[i].from|)
  }

  lemma {:induction false} DiffFollows(gaps: seq<seq<string>>, hunks: seq<Hunk>, i: nat, oldLine: nat, newLine: nat,
                                       edits: seq<Edit<string>>, reverse: bool)
    requires i <= |hunks| == |edits| && |gaps| == |hunks| - i + 1 && IsDiff(gaps, hunks, i, oldLine, newLine)
    requires forall k | 0 <= k < |hunks| :: edits[k] == EditOf(hunks[k], reverse)
    ensures Follow(gaps, edits, i, if reverse then newLine else oldLine)
    decreases |hunks| - i
  {
    if i < |hunks| {
      assert edits[i] == EditOf(hunks[i], reverse);
      DiffFollows(gaps[1..], hunks, i + 1, oldLine + |gaps[0]| + |Old(hunks[i])|,
          newLine + |gaps[0]| + |New(hunks[i])|, edits, reverse);
    }
  }

  lemma FollowerLands<T>(done: seq<T>, gap: seq<T>, edit: Edit<T>, below: seq<T>, line: nat)
    requires edit.start == line + |gap|
    ensures LandsAt(done, gap, edit, gap + edit.from + below, line) && Counted(edit, |done|, line) == edit.start
  {
    StandsInGap(done, gap, edit.from, below);
  }

  // Edits that follow their lines land there, with nothing nearer.
  lemma {:induction false} FollowLands<T>(done: seq<T>, gaps: seq<seq<T>>, edits: seq<Edit<T>>, i: nat, line: nat)
    requires i <= |edits| && |gaps| == |edits| - i + 1 && Follow(gaps, edits, i, line)
    ensures Lands(done, gaps, edits, i, line, None)
    decreases |edits| - i
  {
    if i < |edits| {
      FollowerLands(done, gaps[0], edits[i], Weave(gaps[1..], edits, i + 1, false), line);
      FollowLands(done + gaps[0] + edits[i].to, gaps[1..], edits, i + 1, edits[i].start + |edits[i].from|);
    }
  }

  // gaps[0] + blocks[0] + gaps[1] + ... + gaps[n]
  function Around<T>(gaps: seq<seq<T>>, blocks: seq<seq<T>>): seq<T>
    requires |gaps| == |blocks| + 1
  {
    if blocks == [] then gaps[0] else gaps[0] + blocks[0] + Around(gaps[1..], blocks[1..])
  }

  lemma {:induction false} WeaveIsAround<T>(gaps: seq<seq<T>>, edits: seq<Edit<T>>, i: nat, written: bool,
                                            blocks: seq<seq<T>>)
    requires i <= |edits| && |blocks| == |edits| - i && |gaps| == |edits| - i + 1
    requires forall k | 0 <= k < |blocks| :: blocks[k] == if written then edits[i + k].to else edits[i + k].from
    ensures Weave(gaps, edits, i, written) == Around(gaps, blocks)
    decreases |edits| - i
  {
    if i < |edits| {
      assert blocks[0] == if written then edits[i + 0].to else edits[i + 0].from;
      forall k | 0 <= k < |blocks[1..]|
        ensures blocks[1..][k] == if written then edits[i + 1 + k].to else edits[i + 1 + k].from
      {
        assert blocks[1..][k] == blocks[k + 1];
      }
      WeaveIsAround(gaps[1..], edits, i + 1, written, blocks[1..]);
    }
  }

  lemma FollowApplies<T>(gaps: seq<seq<T>>, edits: seq<Edit<T>>, from: seq<seq<T>>, to: seq<seq<T>>)
    requires |gaps| == |edits| + 1 && |from| == |to| == |edits| && Follow(gaps, edits, 0, 0)
    requires forall k | 0 <= k < |edits| :: from[k] == edits[k].from && to[k] == edits[k].to
    ensures ApplyEdits(Around(gaps, from), edits) == Ok(Around(gaps, to))
  {
    WeaveIsAround(gaps, edits, 0, false, from);
    WeaveIsAround(gaps, edits, 0, true, to);
    FollowLands([], gaps, edits, 0, 0);
    assert edits[..|edits|] == edits;
    LandedDecide(Around(gaps, from), edits, gaps, |edits|);
  }

  function OldSides(hunks: seq<Hunk>): (sides: seq<seq<string>>)
    ensures |sides| == |hunks|
  {
    seq(|hunks|, k requires 0 <= k < |hunks| => Old(hunks[k]))
  }

  function NewSides(hunks: seq<Hunk>): (sides: seq<seq<string>>)
    ensures |sides| == |hunks|
  {
    seq(|hunks|, k requires 0 <= k < |hunks| => New(hunks[k]))
  }

  // The hunks of a diff of two texts turn the old lines into the new ones, and reversed the new ones
  // into the old.
  lemma DiffApplies(gaps: seq<seq<string>>, hunks: seq<Hunk>, content: string, reverse: bool)
    requires |gaps| == |hunks| + 1 && IsDiff(gaps, hunks, 0, 0, 0)
    requires Open(content).lines == Around(gaps, if reverse then NewSides(hunks) else OldSides(hunks))
    ensures Apply(content, hunks, reverse)
         == Ok(Close(Document(Around(gaps, if reverse then OldSides(hunks) else NewSides(hunks)),
                              EndsWithNewline(content))))
  {
    var edits := EditsOf(hunks, reverse);
    DiffFollows(gaps, hunks, 0, 0, 0, edits, reverse);
    FollowApplies(gaps, edits, if reverse then NewSides(hunks) else OldSides(hunks),
        if reverse then OldSides(hunks) else NewSides(hunks));
  }

  // ----- Any hunks --------------------------------------------------------------------------

  // Hunks that have something to look for land one after the other, up to the end or to one that
  // stands nowhere within reach; that decides what comes out.
  lemma ContextDecides(content: string, hunks: seq<Hunk>, reverse: bool) returns (gaps: seq<seq<string>>, n: nat)
    requires forall k | 0 <= k < |hunks| :: EditOf(hunks[k], reverse).from != []
    ensures n <= |hunks| && |gaps| == n + 1
    ensures var front := EditsOf(hunks, reverse)[..n];
            && Open(content).lines == Weave(gaps, front, 0, false)
            && Lands([], gaps, front, 0, 0, if n < |hunks| then Some(EditOf(hunks[n], reverse)) else None)
            && Apply(content, hunks, reverse)
               == if n < |hunks| then Err(hunks[n])
                  else Ok(Close(Document(Weave(gaps, front, 0, true), EndsWithNewline(content))))
  {
    gaps, n := RunLands([], Open(content).lines, EditsOf(hunks, reverse), 0, 0);
    LandedDecide(Open(content).lines, EditsOf(hunks, reverse), gaps, n);
  }
}
