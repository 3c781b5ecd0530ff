// `buildHunkSelectedDiff` of src/commands/re-export-hunks.ts: a patch body put together file by
// file, named files from the selected hunks and the others from what they had.
module HunkSelection {
  import opened Prelude
  import opened TextLines
  import EditLaws
  import opened HunkEngine
  import opened HunkLaws

  // `--hunks-from` and `--exclude-hunks`
  datatype Mode = Include | Exclude

  // A file's text in HEAD if it is tracked, with the patch's current body applied to that, and in
  // the working tree, empty when it is absent.
  datatype Texts = Texts(head: Option<string>, base: string, worktree: string)

  function Content(mode: Mode, texts: Texts, hunks: seq<Hunk>): Result<string, Hunk> {
    if mode.Include? then Apply(texts.base, hunks, false) else Apply(texts.worktree, hunks, true)
  }

  // `git diff` of a file's new text against HEAD, and `String.prototype.trim` finding nothing.
  type DiffOf = (string, string) -> string
  type Blank = string -> bool

  function Terminated(diff: string): string {
    if diff != "" && diff[|diff| - 1] == '\n' then diff else diff + "\n"
  }

  // What the run selects from: the texts of every file, the hunks of the named files, and the
  // sections of the old body or of the plain diff.
  datatype Selection = Selection(mode: Mode, texts: string -> Texts, named: map<string, seq<Hunk>>,
                                 fallback: map<string, string>,
                                 diffOf: DiffOf, blank: Blank)

  // What one file adds to the body.
  function Piece(selection: Selection, file: string): Result<string, Hunk> {
    if file !in selection.named then Ok(if file in selection.fallback then selection.fallback[file] else "")
    else
      var content := Content(selection.mode, selection.texts(file), selection.named[file]);
      if content.Err? then Err(content.error)
      else Ok(PieceOf(selection, file, content.value))
  }

  function PieceOf(selection: Selection, file: string, content: string): string {
    var diff := (selection.diffOf)(file, content);
    if (selection.texts)(file).head == Some(content) || (selection.blank)(diff) then "" else Terminated(diff)
  }

  function PieceFor(selection: Selection): string -> Result<string, Hunk> {
    file => Piece(selection, file)
  }

  method BuildPiece(selection: Selection, file: string) returns (piece: Result<string, Hunk>)
    ensures piece == PieceFor(selection)(file)
  {
    if file !in selection.named {
      return Ok(if file in selection.fallback then selection.fallback[file] else "");
    }
    var texts := selection.texts(file);
    var content: Result<string, Hunk>;
    if selection.mode.Include? {
      content := ApplyHunksByContext(texts.base, selection.named[file], false);
    } else {
      content := ApplyHunksByContext(texts.worktree, selection.named[file], true);
    }
    if content.Err? {
      return Err(content.error);
    }
    if texts.head == Some(content.value) {
      return Ok("");
    }
    var diff := (selection.diffOf)(file, content.value);
    return Ok(if (selection.blank)(diff) then "" else Terminated(diff));
  }

  // The pieces of the first `n` files end to end, or the first that fails.
  function Body<T, E>(files: seq<string>, n: nat, piece: string -> Result<seq<T>, E>): Result<seq<T>, E>
    requires n <= |files|
  {
    if n == 0 then Ok([])
    else
      var before := Body(files, n - 1, piece);
      if before.Err? then before
      else if piece(files[n - 1]).Err? then Err(piece(files[n - 1]).error)
      else Ok(before.value + piece(files[n - 1]).value)
  }

  lemma {:induction false} BodyStaysFailed<T, E>(files: seq<string>, i: nat, n: nat, piece: string -> Result<seq<T>, E>)
    requires i <= n <= |files| && Body(files, i, piece).Err?
    ensures Body(files, n, piece) == Body(files, i, piece)
    decreases n
  {
    if i < n {
      BodyStaysFailed(files, i, n - 1, piece);
    }
  }

  lemma BodyNext<T, E>(files: seq<string>, i: nat, piece: string -> Result<seq<T>, E>, out: seq<T>,
                       next: Result<seq<T>, E>)
    requires i < |files| && Body(files, i, piece) == Ok(out) && next == piece(files[i])
    ensures next.Ok? ==> Body(files, i + 1, piece) == Ok(out + next.value)
    ensures next.Err? ==> Body(files, |files|, piece) == next
  {
    if next.Err? {
      BodyStaysFailed(files, i + 1, |files|, piece);
    }
  }

  // `files` are the owned files in sorted order.
  method BuildHunkSelectedDiff(selection: Selection, files: seq<string>) returns (body: Result<string, Hunk>)
    ensures body == Body(files, |files|, PieceFor(selection))
  {
    ghost var pieces := PieceFor(selection);
    var out := "";
    for i := 0 to |files|
      invariant Body(files, i, pieces) == Ok(out)
    {
      var piece := BuildPiece(selection, files[i]);
      BodyNext(files, i, pieces, out, piece);
      if piece.Err? {
        return piece;
      }
      out := out + piece.value;
    }
    return Ok(out);
  }

  // The body succeeds exactly when every piece does, and is the pieces end to end; otherwise it is
  // the error of the first piece that fails.
  lemma {:induction false} BodyExactly<T, E>(files: seq<string>, n: nat, piece: string -> Result<seq<T>, E>)
    requires n <= |files|
    ensures Body(files, n, piece).Ok? <==> forall i | 0 <= i < n :: piece(files[i]).Ok?
    ensures Body(files, n, piece).Ok? ==>
              Body(files, n, piece).value
              == Flatten(seq(n, i requires 0 <= i < n && piece(files[i]).Ok? => piece(files[i]).value))
    ensures forall i | 0 <= i < n && piece(files[i]).Err? && (forall k | 0 <= k < i :: piece(files[k]).Ok?) ::
              Body(files, n, piece) == Err(piece(files[i]).error)
  {
    if n > 0 {
      BodyExactly(files, n - 1, piece);
      if Body(files, n, piece).Ok? {
        var before := seq(n - 1, i requires 0 <= i < n - 1 && piece(files[i]).Ok? => piece(files[i]).value);
        FlattenAppend(before, piece(files[n - 1]).value);
        assert seq(n, i requires 0 <= i < n && piece(files[i]).Ok? => piece(files[i]).value)
            == before + [piece(files[n - 1]).value];
      }
    }
  }

  // What a file with this new text adds: nothing when that is its text in HEAD or there is nothing to
  // diff, else the diff up to a final newline.
  ghost predicate IsPieceFor(selection: Selection, file: string, content: string, piece: string) {
    var diff := (selection.diffOf)(file, content);
    if (selection.texts)(file).head == Some(content) || (selection.blank)(diff) then piece == ""
    else
      && piece != "" && piece[|piece| - 1] == '\n'
      && (piece == diff || (piece == diff + "\n" && (diff == "" || diff[|diff| - 1] != '\n')))
  }

  // A file no hunk names adds its section, if it has one. A named one adds its diff with the hunks
  // applied to the text under the patch, or taken back from the working tree.
  lemma PieceExactly(selection: Selection, file: string)
    ensures file !in selection.named ==>
              Piece(selection, file) == Ok(if file in selection.fallback then selection.fallback[file] else "")
    ensures file in selection.named ==>
              var texts, hunks := (selection.texts)(file), selection.named[file];
              match (if selection.mode == Include then Apply(texts.base, hunks, false)
                     else Apply(texts.worktree, hunks, true))
              case Ok(content) =>
                Piece(selection, file).Ok? && IsPieceFor(selection, file, content, Piece(selection, file).value)
              case Err(hunk) => Piece(selection, file) == Err(hunk)
  {
  }

  // Excluding the hunks that were applied on top of a text exports that text: of a working tree that
  // holds a session's text and a peer's hunks, the body carries the session's text alone. It holds
  // exactly when the hunks left the final newline as it was.
  lemma ExcludingExportsTheRest(selection: Selection, file: string, mine: string)
    requires selection.mode.Exclude? && file in selection.named && OneLineEach(selection.named[file])
    requires EditLaws.Exact(Open(mine).lines, 0, EditsOf(selection.named[file], false), 0)
        && HeadersAgree(selection.named[file], 0, 0)
    requires Apply(mine, selection.named[file], false) == Ok((selection.texts)(file).worktree)
    ensures Content(Exclude, (selection.texts)(file), selection.named[file]) == Ok(mine)
       <==> EndsWithNewline((selection.texts)(file).worktree) == EndsWithNewline(mine)
    ensures EndsWithNewline((selection.texts)(file).worktree) == EndsWithNewline(mine) ==>
              Piece(selection, file).Ok? && IsPieceFor(selection, file, mine, Piece(selection, file).value)
  {
    TextInvertsExactly(mine, selection.named[file]);
  }

  // Selecting hunks on top of the current body and then excluding them from the result leaves the
  // current body.
  lemma IncludeThenExclude(texts: Texts, hunks: seq<Hunk>)
    requires OneLineEach(hunks)
    requires EditLaws.Exact(Open(texts.base).lines, 0, EditsOf(hunks, false), 0) && HeadersAgree(hunks, 0, 0)
    ensures var included := Content(Include, texts, hunks);
            && included.Ok?
            && (Content(Exclude, Texts(texts.head, texts.base, included.value), hunks) == Ok(texts.base)
                <==> EndsWithNewline(included.value) == EndsWithNewline(texts.base))
  {
    TextInvertsExactly(texts.base, hunks);
  }

  // A file no hunk names keeps its section, whatever else the run selects.
  lemma {:induction false} PieceIsKept<T, E>(files: seq<string>, n: nat, piece: string -> Result<seq<T>, E>, i: nat)
    returns (before: seq<T>, after: seq<T>)
    requires i < n <= |files| && Body(files, n, piece).Ok?
    ensures piece(files[i]).Ok? && Body(files, i, piece) == Ok(before)
    ensures Body(files, n, piece) == Ok(before + piece(files[i]).value + after)
    decreases n
  {
    if i == n - 1 {
      before, after := Body(files, i, piece).value, [];
      assert before + piece(files[i]).value + after == before + piece(files[i]).value;
    } else {
      var rest: seq<T>;
      before, rest := PieceIsKept(files, n - 1, piece, i);
      after := rest + piece(files[n - 1]).value;
      assert before + piece(files[i]).value + after
          == (before + piece(files[i]).value + rest) + piece(files[n - 1]).value;
    }
  }

  lemma UnnamedFilesKeepTheirSection(selection: Selection, files: seq<string>, i: nat) returns (before: string,
                                     after: string)
    requires i < |files| && Body(files, |files|, PieceFor(selection)).Ok?
    requires files[i] !in selection.named && files[i] in selection.fallback
    ensures Body(files, |files|, PieceFor(selection)) == Ok(before + selection.fallback[files[i]] + after)
    ensures Body(files, i, PieceFor(selection)) == Ok(before)
  {
    before, after := PieceIsKept(files, |files|, PieceFor(selection), i);
  }
}
