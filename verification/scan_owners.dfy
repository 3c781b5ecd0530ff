// Owners of `--scan-file` paths: src/commands/re-export-scan-owner.ts.
module ScanOwners {
  import opened Prelude

  // ----- Splitting a value ------------------------------------------------------------------

  datatype Spec = Spec(owner: Option<string>, path: string)

  // The whitespace that `trim` removes and `\s` matches.
  type White = char -> bool

  function TrimStart(text: string, white: White): string {
    if text != "" && white(text[0]) then TrimStart(text[1..], white) else text
  }

  function TrimEnd(text: string, white: White): string {
    if text != "" && white(text[|text| - 1]) then TrimEnd(text[..|text| - 1], white) else text
  }

  // `String.prototype.trim`
  function Trim(text: string, white: White): string {
    TrimEnd(TrimStart(text, white), white)
  }

  lemma {:induction false} TrimStartKeeps(text: string, white: White)
    ensures forall c | c in TrimStart(text, white) :: c in text
    ensures TrimStart(text, white) != "" ==> !white(TrimStart(text, white)[0])
  {
    if text != "" && white(text[0]) {
      TrimStartKeeps(text[1..], white);
    }
  }

  lemma {:induction false} TrimEndKeeps(text: string, white: White)
    ensures TrimEnd(text, white) <= text
    ensures forall i | 0 <= i < |text| && !white(text[i]) :: i < |TrimEnd(text, white)|
    ensures TrimEnd(TrimEnd(text, white), white) == TrimEnd(text, white)
  {
    if text != "" && white(text[|text| - 1]) {
      TrimEndKeeps(text[..|text| - 1], white);
    }
  }

  lemma TrimmedStaysTrimmed(text: string, white: White)
    ensures Trim(Trim(text, white), white) == Trim(text, white)
    ensures forall c | c in Trim(text, white) :: c in text
  {
    var started := TrimStart(text, white);
    TrimStartKeeps(text, white);
    TrimEndKeeps(started, white);
    var trimmed := TrimEnd(started, white);
    assert trimmed != "" ==> trimmed[0] == started[0];
    assert TrimStart(trimmed, white) == trimmed;
  }

  predicate HasSeparator(text: string) {
    '/' in text || '\\' in text
  }

  predicate StartsWithSeparator(text: string) {
    text != "" && (text[0] == '/' || text[0] == '\\')
  }

  predicate IsLetter(text: string) {
    |text| == 1 && ('A' <= text[0] <= 'Z' || 'a' <= text[0] <= 'z')
  }

  // `raw.indexOf(':')`, or the length when there is none.
  function Colon(raw: string): (at: nat)
    ensures at <= |raw|
    ensures forall i | 0 <= i < at :: raw[i] != ':'
    ensures at < |raw| ==> raw[at] == ':'
  {
    if raw == "" || raw[0] == ':' then 0 else 1 + Colon(raw[1..])
  }

  // An owner that a value can name.
  predicate IsOwner(owner: string, path: string) {
    owner != "" && !HasSeparator(owner) && !(IsLetter(owner) && StartsWithSeparator(path))
  }

  function SplitScanFileOwner(raw: string, white: White): Spec {
    var colon := Colon(raw);
    if colon == 0 || colon == |raw| then Spec(None, raw)
    else
      var owner, path := Trim(raw[..colon], white), raw[colon + 1..];
      if IsOwner(owner, path) then Spec(Some(owner), path) else Spec(None, raw)
  }

  function JoinScanFileOwner(spec: Spec): string {
    if spec.owner.None? then spec.path else spec.owner.value + ":" + spec.path
  }

  lemma ColonOf(owner: string, path: string)
    requires ':' !in owner
    ensures Colon(owner + ":" + path) == |owner|
  {
    var raw := owner + ":" + path;
    assert raw[|owner|] == ':';
    assert forall i | 0 <= i < |owner| :: raw[i] == owner[i];
  }

  // A text that reads as a path: no colon to split at, or none that follows an owner.
  predicate ReadsAsPath(text: string, white: White) {
    var colon := Colon(text);
    colon == 0 || colon == |text| || !IsOwner(Trim(text[..colon], white), text[colon + 1..])
  }

  // A value rejoined after its path was rewritten still splits into the same two halves, exactly
  // when its owner can stand before that path, or the path alone reads as a path.
  lemma RejoinedSplitsExactly(spec: Spec, white: White)
    requires spec.owner.Some? ==> ':' !in spec.owner.value && Trim(spec.owner.value, white) == spec.owner.value
    ensures SplitScanFileOwner(JoinScanFileOwner(spec), white) == spec
       <==> if spec.owner.Some? then IsOwner(spec.owner.value, spec.path) else ReadsAsPath(spec.path, white)
  {
    if spec.owner.Some? {
      var owner := spec.owner.value;
      ColonOf(owner, spec.path);
      var raw := owner + ":" + spec.path;
      assert raw[..|owner|] == owner && raw[|owner| + 1..] == spec.path;
    }
  }

  // A value names an owner exactly when the text before its first colon, trimmed, is not empty and
  // holds no separator, and is no drive letter of an absolute path.
  lemma SplitsExactly(front: string, back: string, white: White)
    requires ':' !in front
    ensures var owner, raw := Trim(front, white), front + ":" + back;
            var drive := |owner| == 1 && ('a' <= owner[0] <= 'z' || 'A' <= owner[0] <= 'Z')
                         && back != "" && back[0] in {'/', '\\'};
            SplitScanFileOwner(raw, white)
            == if front != "" && owner != "" && '/' !in owner && '\\' !in owner && !drive then Spec(Some(owner), back)
               else Spec(None, raw)
  {
    var raw := front + ":" + back;
    ColonOf(front, back);
    assert raw[..|front|] == front && raw[|front| + 1..] == back;
  }

  // Without a colon there is no owner.
  lemma NoColonNoOwner(raw: string, white: White)
    requires ':' !in raw
    ensures SplitScanFileOwner(raw, white) == Spec(None, raw)
  {
    assert Colon(raw) == |raw|;
  }

  // Text before the colon that holds a separator is part of a path.
  lemma DeeperPathsStayPaths(front: string, back: string, white: White)
    requires ':' !in front && HasSeparator(Trim(front, white))
    ensures SplitScanFileOwner(front + ":" + back, white) == Spec(None, front + ":" + back)
  {
    ColonOf(front, back);
    assert (front + ":" + back)[..|front|] == front;
  }

  // ----- Normalising a value ----------------------------------------------------------------

  function Lower(c: char): char {
    if 'A' <= c <= 'Z' then c - 'A' + 'a' else c
  }

  predicate IsEngine(text: string) {
    |text| == 6 && Lower(text[0]) == 'e' && Lower(text[1]) == 'n' && Lower(text[2]) == 'g'
    && Lower(text[3]) == 'i' && Lower(text[4]) == 'n' && Lower(text[5]) == 'e'
  }

  // Drops a leading `engine/`, in any case and after any whitespace.
  function StripEnginePrefix(path: string, white: White): string {
    var rest := TrimStart(path, white);
    if |rest| > 6 && IsEngine(rest[..6]) && (rest[6] == '/' || rest[6] == '\\') then rest[7..] else path
  }

  function NormalizePathSlashes(path: string): (normalized: string)
    ensures |normalized| == |path| && '\\' !in normalized
  {
    seq(|path|, i requires 0 <= i < |path| => if path[i] == '\\' then '/' else path[i])
  }

  // Whether a path is relative and stays within its root. It is only asked about paths whose
  // slashes are normalised; none of those that starts with one is.
  type Contained = string -> bool

  ghost predicate RefusesAbsolute(contained: Contained) {
    forall path | contained(path) && '\\' !in path :: !StartsWithSeparator(path)
  }

  // The source throws for an empty path and for one that leaves the engine tree.
  function NormalizeEngineRelativeInput(raw: string, white: White, contained: Contained): Option<string> {
    var path := NormalizePathSlashes(Trim(StripEnginePrefix(raw, white), white));
    if path == "" || !contained(path) then None else Some(path)
  }

  // One value of `normalizeScanFiles`: the path half is rewritten, the owner kept as it is.
  function NormalizeScanFile(raw: string, white: White, contained: Contained): Option<string> {
    var spec := SplitScanFileOwner(raw, white);
    var path := NormalizeEngineRelativeInput(spec.path, white, contained);
    if path.None? then None else Some(JoinScanFileOwner(spec.(path := path.value)))
  }

  // Normalising a value keeps who owns the file exactly when the value names an owner, or its
  // rewritten path still reads as a path.
  lemma NormalizingKeepsTheOwnerExactly(raw: string, white: White, contained: Contained)
    requires RefusesAbsolute(contained) && NormalizeScanFile(raw, white, contained).Some?
    ensures var spec := SplitScanFileOwner(raw, white);
            var path := NormalizeEngineRelativeInput(spec.path, white, contained).value;
            SplitScanFileOwner(NormalizeScanFile(raw, white, contained).value, white) == Spec(spec.owner, path)
            <==> spec.owner.Some? || ReadsAsPath(path, white)
  {
    var spec := SplitScanFileOwner(raw, white);
    var path := NormalizeEngineRelativeInput(spec.path, white, contained).value;
    if spec.owner.Some? {
      TrimmedStaysTrimmed(raw[..Colon(raw)], white);
      assert ':' !in raw[..Colon(raw)];
    }
    RejoinedSplitsExactly(Spec(spec.owner, path), white);
  }

  // A normalised path is not empty, stays within the engine and has forward slashes only; a path that
  // is so already, has no white space around it and does not start with `engine` stays as it is.
  lemma NormalizesExactly(raw: string, white: White, contained: Contained)
    ensures var path := NormalizeEngineRelativeInput(raw, white, contained);
            path.Some? ==> path.value != "" && contained(path.value) && '\\' !in path.value
    ensures raw != "" && contained(raw) && '\\' !in raw && Trim(raw, white) == raw
            && (|raw| > 6 ==> !IsEngine(raw[..6])) ==>
              NormalizeEngineRelativeInput(raw, white, contained) == Some(raw)
  {
    if raw != "" && '\\' !in raw && Trim(raw, white) == raw {
      TrimStartKeeps(raw, white);
      TrimmedStarts(raw, white);
      assert NormalizePathSlashes(raw) == raw;
    }
  }

  lemma TrimmedStarts(text: string, white: White)
    requires Trim(text, white) == text
    ensures TrimStart(text, white) == text
  {
    TrimEndKeeps(TrimStart(text, white), white);
    StartIsNoLonger(text, white);
  }

  lemma {:induction false} StartIsNoLonger(text: string, white: White)
    ensures |TrimStart(text, white)| <= |text|
    ensures |TrimStart(text, white)| == |text| ==> TrimStart(text, white) == text
  {
    if text != "" && white(text[0]) {
      StartIsNoLonger(text[1..], white);
    }
  }

  // Any of its characters but a backslash stays what it is.
  lemma SlashesExactly(path: string, i: nat)
    requires i < |path|
    ensures |NormalizePathSlashes(path)| == |path|
    ensures NormalizePathSlashes(path)[i] == if path[i] == '\\' then '/' else path[i]
  {
  }

  // The prefix is dropped in any case, with either slash and after any white space, and nothing else
  // is.
  lemma {:induction false} StripsExactly(front: string, word: string, separator: char, rest: string, white: White)
    requires forall i | 0 <= i < |front| :: white(front[i])
    requires IsEngine(word) && !white(word[0]) && separator in {'/', '\\'}
    ensures StripEnginePrefix(front + word + [separator] + rest, white) == rest
  {
    var raw := front + word + [separator] + rest;
    StartsAfterWhite(front, word + [separator] + rest, white);
    assert front + (word + [separator] + rest) == raw;
    var text := word + [separator] + rest;
    assert text[..6] == word && text[6] == separator && text[7..] == rest;
  }

  lemma {:induction false} StartsAfterWhite(front: string, text: string, white: White)
    requires forall i | 0 <= i < |front| :: white(front[i])
    requires text != "" && !white(text[0])
    ensures TrimStart(front + text, white) == text
  {
    if front == "" {
      assert front + text == text;
    } else {
      StartsAfterWhite(front[1..], text, white);
      assert (front + text)[0] == front[0] && (front + text)[1..] == front[1..] + text;
    }
  }

  lemma UnstrippedExactly(path: string, white: White)
    requires var rest := TrimStart(path, white);
             |rest| < 7 || !IsEngine(rest[..6]) || rest[6] !in {'/', '\\'}
    ensures StripEnginePrefix(path, white) == path
  {
  }

  lemma EnginePrefixIsStripped(rest: string, white: White)
    requires !white('e')
    ensures StripEnginePrefix("engine/" + rest, white) == rest
  {
    var raw := "engine/" + rest;
    assert raw[0] == 'e' && raw[6] == '/' && raw[..6] == "engine";
    assert TrimStart(raw, white) == raw;
  }

  lemma EngineFrontIsAPath(front: string, back: string, white: White)
    requires !white('e') && !white('/') && ':' !in front
    ensures var raw := "engine/" + (front + ":" + back); SplitScanFileOwner(raw, white) == Spec(None, raw)
  {
    var folder := "engine/" + front;
    assert folder[0] == 'e' && folder[6] == '/';
    TrimEndKeeps(folder, white);
    assert Trim(folder, white)[6] == '/';
    DeeperPathsStayPaths(folder, back, white);
    assert folder + ":" + back == "engine/" + (front + ":" + back);
  }

  // A path with a colon at the top of the engine tree, given with its `engine/`, splits into a path;
  // without that prefix and rejoined it splits into an owner and another path.
  lemma StrippedPathBecomesAnOwner(front: string, back: string, white: White, contained: Contained)
    requires !white('e') && !white('/') && ':' !in front && '\\' !in front + back
    requires Trim(front, white) == front && Trim(front + ":" + back, white) == front + ":" + back
    requires IsOwner(front, back) && contained(front + ":" + back)
    ensures var raw := "engine/" + (front + ":" + back);
            && SplitScanFileOwner(raw, white) == Spec(None, raw)
            && NormalizeScanFile(raw, white, contained) == Some(front + ":" + back)
            && SplitScanFileOwner(front + ":" + back, white) == Spec(Some(front), back)
  {
    var path := front + ":" + back;
    EngineFrontIsAPath(front, back, white);
    EnginePrefixIsStripped(path, white);
    assert NormalizePathSlashes(path) == path;
    RejoinedSplitsExactly(Spec(Some(front), back), white);
  }

  // ----- One owner a path -------------------------------------------------------------------

  // A value of the list with its owner resolved to a patch filename, or to nothing when it names
  // none.
  datatype Assignment<P> = Assignment(patch: Option<string>, path: P)

  datatype OwnerError<P> = Unresolved | NotSelected(patch: string) | TwoOwners(path: P, first: string, second: string)

  // Every value resolves to a selected patch, and no path to two.
  ghost predicate IsAssignment<P>(values: seq<Assignment<P>>, selected: set<string>) {
    && (forall i | 0 <= i < |values| :: values[i].patch.Some? && values[i].patch.value in selected)
    && (forall i, j | 0 <= i < j < |values| :: values[i].path == values[j].path ==> values[i].patch == values[j].patch)
  }

  // The first value that spoils the assignment, and how.
  ghost predicate SpoilsAt<P>(values: seq<Assignment<P>>, i: nat, selected: set<string>, error: OwnerError<P>)
    requires i < |values|
  {
    && IsAssignment(values[..i], selected)
    && match error
       case Unresolved => values[i].patch.None?
       case NotSelected(patch) => values[i].patch == Some(patch) && patch !in selected
       case TwoOwners(path, first, second) =>
         && values[i] == Assignment(Some(second), path) && second in selected && first != second
         && Names(values, i, first, path)
  }

  ghost predicate Names<P>(values: seq<Assignment<P>>, n: nat, patch: string, path: P)
    requires n <= |values|
  {
    exists i | 0 <= i < n :: values[i] == Assignment(Some(patch), path)
  }

  // The two maps after the first `n` values.
  ghost predicate Assigned<P(!new)>(values: seq<Assignment<P>>, n: nat, selected: set<string>,
                             byPatch: map<string, set<P>>, ownerByFile: map<P, string>)
    requires n <= |values|
  {
    && (forall i | 0 <= i < n :: values[i].patch.Some? && values[i].patch.value in selected)
    && (forall i | 0 <= i < n :: values[i].path in ownerByFile && Some(ownerByFile[values[i].path]) == values[i].patch)
    && (forall path | path in ownerByFile :: Names(values, n, ownerByFile[path], path))
    && (forall patch, path ::
          (patch in byPatch && path in byPatch[patch]) <==> (path in ownerByFile && ownerByFile[path] == patch))
  }

  method AssignScanFileOwners<P(==,!new)>(values: seq<Assignment<P>>, selected: set<string>)
      returns (result: Result<map<string, set<P>>, OwnerError<P>>)
    ensures result.Ok? <==> IsAssignment(values, selected)
    ensures result.Err? ==> exists i | 0 <= i < |values| :: SpoilsAt(values, i, selected, result.error)
    ensures result.Ok? ==> forall patch, path ::
              (patch in result.value && path in result.value[patch]) <==> Names(values, |values|, patch, path)
  {
    var byPatch: map<string, set<P>>, ownerByFile: map<P, string> := map[], map[];
    for i := 0 to |values|
      invariant Assigned(values, i, selected, byPatch, ownerByFile)
    {
      var value := values[i];
      FrontIsAssignment(values, i, selected, byPatch, ownerByFile);
      if value.patch.None? {
        assert SpoilsAt(values, i, selected, Unresolved);
        return Err(Unresolved);
      }
      var patch := value.patch.value;
      if patch !in selected {
        assert SpoilsAt(values, i, selected, NotSelected(patch));
        return Err(NotSelected(patch));
      }
      if value.path in ownerByFile && ownerByFile[value.path] != patch {
        assert Names(values, i, ownerByFile[value.path], value.path);
        assert SpoilsAt(values, i, selected, TwoOwners(value.path, ownerByFile[value.path], patch));
        return Err(TwoOwners(value.path, ownerByFile[value.path], patch));
      }
      var files := if patch in byPatch then byPatch[patch] else {};
      Assigns(values, i, selected, byPatch, ownerByFile);
      ownerByFile := ownerByFile[value.path := patch];
      byPatch := byPatch[patch := files + {value.path}];
    }
    forall patch, path
      ensures (patch in byPatch && path in byPatch[patch]) <==> Names(values, |values|, patch, path)
    {
      NamedOnce(values, selected, byPatch, ownerByFile, patch, path);
    }
    return Ok(byPatch);
  }

  lemma FrontIsAssignment<P(!new)>(values: seq<Assignment<P>>, n: nat, selected: set<string>,
                                   byPatch: map<string, set<P>>, ownerByFile: map<P, string>)
    requires n <= |values| && Assigned(values, n, selected, byPatch, ownerByFile)
    ensures IsAssignment(values[..n], selected)
  {
  }

  lemma NamedOnce<P(!new)>(values: seq<Assignment<P>>, selected: set<string>, byPatch: map<string, set<P>>,
                    ownerByFile: map<P, string>,
                           patch: string, path: P)
    requires Assigned(values, |values|, selected, byPatch, ownerByFile)
    ensures (patch in byPatch && path in byPatch[patch]) <==> Names(values, |values|, patch, path)
  {
    if patch in byPatch && path in byPatch[patch] {
      assert ownerByFile[path] == patch;
      assert Names(values, |values|, ownerByFile[path], path);
    }
    if Names(values, |values|, patch, path) {
      var i :| 0 <= i < |values| && values[i] == Assignment(Some(patch), path);
      assert values[i].path in ownerByFile;
    }
  }

  lemma Assigns<P(!new)>(values: seq<Assignment<P>>, n: nat, selected: set<string>, byPatch: map<string, set<P>>,
                  ownerByFile: map<P, string>)
    requires n < |values| && Assigned(values, n, selected, byPatch, ownerByFile)
    requires values[n].patch.Some? && values[n].patch.value in selected
    requires values[n].path in ownerByFile ==> ownerByFile[values[n].path] == values[n].patch.value
    ensures var patch, path := values[n].patch.value, values[n].path;
            var files := if patch in byPatch then byPatch[patch] else {};
            Assigned(values, n + 1, selected, byPatch[patch := files + {path}], ownerByFile[path := patch])
  {
    forall path | path in ownerByFile
      ensures Names(values, n + 1, ownerByFile[path], path)
    {
      var i :| 0 <= i < n && values[i] == Assignment(Some(ownerByFile[path]), path);
      assert i < n + 1;
    }
    assert values[n] == Assignment(Some(values[n].patch.value), values[n].path);
  }
}
