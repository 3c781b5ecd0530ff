// The whole-run re-export of src/commands/re-export-each.ts, re-export-single.ts and
// re-export-scan.ts: which patch owns which file while patches are refreshed one after the other.
// Generic in the type of paths.
module Ownership {
  import opened Prelude

  // `filesAffected` of every manifest row, by patch filename.
  type Claims<P> = map<string, set<P>>

  // The engine tree: paths on disk, paths in HEAD, paths `git diff HEAD` lists, and untracked paths
  // that git ignores.
  datatype World<P> = World(present: set<P>, tracked: set<P>, dirty: set<P>, ignored: set<P>)

  datatype Options<P> = Options(scan: bool, scanFiles: Option<seq<P>>, expectRemoved: set<P>)

  // The answer of the gates that only read: a confirmation or the neighbours hold the patch back,
  // drift is refused, or forward imports or stale component sources make it throw.
  datatype Verdict = Proceed | Skip | RefuseDrift | Throw

  // Where a commit fails: before the locked write of body and row, or after it and before the
  // in-memory row is updated.
  datatype Fault = NoFault | BeforeWrite | AfterWrite

  // One selected patch of a run, and what it meets.
  datatype Step<P> = Step(patch: string, options: Options<P>, world: World<P>, verdict: Verdict, fault: Fault)

  datatype Judgement<P> = Ready(files: set<P>) | Skipped | DriftRefused | Threw

  // ----- Scanning ---------------------------------------------------------------------------

  // `getClaimedFiles`
  function ClaimedByOthers<P>(claims: Claims<P>, patch: string): set<P> {
    set name, file | name in claims && name != patch && file in claims[name] :: file
  }

  // Every path with something to diff against HEAD.
  function Differs<P>(world: World<P>): set<P> {
    world.dirty + (world.present - world.tracked)
  }

  function Discovered<P>(world: World<P>): set<P> {
    world.dirty + (world.present - world.tracked - world.ignored)
  }

  function Directories<P>(files: set<P>, dir: P -> P): set<P> {
    set file | file in files :: dir(file)
  }

  function BroadAdditions<P>(claims: Claims<P>, patch: string, current: set<P>, world: World<P>, dir: P -> P): set<P> {
    set file | file in Discovered(world) && dir(file) in Directories(current, dir)
      && file !in current && file !in ClaimedByOthers(claims, patch)
  }

  // Absent from disk and from HEAD.
  function RemovedFiles<P>(files: set<P>, world: World<P>): set<P> {
    files - world.present - world.tracked
  }

  function Updated<P>(current: set<P>, added: set<P>, world: World<P>): set<P> {
    (current - RemovedFiles(current, world)) + added
  }

  function Elements<P>(files: seq<P>): set<P> {
    set file | file in files
  }

  // The refreshed file list, or nothing when a named file cannot be adopted.
  function Scanned<P>(claims: Claims<P>, patch: string, current: set<P>, options: Options<P>, world: World<P>,
                      dir: P -> P): Option<set<P>> {
    if options.scanFiles.None? then
      Some(Updated(current, BroadAdditions(claims, patch, current, world, dir), world))
    else
      var named := Elements(options.scanFiles.value);
      if !(named !! ClaimedByOthers(claims, patch)) || !(named <= world.present) then None
      else Some(Updated(current, named - current, world))
  }

  // Whether a file lies in a directory or below it, as git pathspecs match.
  type Under<!P> = (P, P) -> bool

  // The broad scan asks git for every directory of the patch and keeps what lies right in one.
  method ScanPatchFiles<P(==,!new)>(claims: Claims<P>, patch: string, current: set<P>, world: World<P>, dir: P -> P,
                          under: Under<P>)
    returns (updated: set<P>)
    requires forall file :: under(file, dir(file))
    ensures Some(updated) == Scanned(claims, patch, current, Options(true, None, {}), world, dir)
  {
    var parentDirs := Directories(current, dir);
    var claimedByOthers := ClaimedByOthers(claims, patch);
    var discovered: set<P>, remaining := {}, parentDirs;
    while remaining != {}
      invariant remaining <= parentDirs
      invariant forall file :: file in discovered <==>
                  file in Discovered(world) && exists parent | parent in parentDirs - remaining :: under(file, parent)
      decreases |remaining|
    {
      var parent :| parent in remaining;
      discovered := discovered + set file | file in Discovered(world) && under(file, parent);
      remaining := remaining - {parent};
    }
    var added := set file | file in discovered && dir(file) in parentDirs && file !in current
        && file !in claimedByOthers;
    assert added == BroadAdditions(claims, patch, current, world, dir);
    return Updated(current, added, world);
  }

  // A loop over the named files for each refusal, as the source words it.
  method ScanPatchFilesTargeted<P(==)>(claims: Claims<P>, patch: string, current: set<P>, scanFiles: seq<P>,
                                  world: World<P>, ghost dir: P -> P)
    returns (updated: Option<set<P>>)
    ensures updated == Scanned(claims, patch, current, Options(true, Some(scanFiles), {}), world, dir)
  {
    var claimedByOthers := ClaimedByOthers(claims, patch);
    for i := 0 to |scanFiles|
      invariant Elements(scanFiles[..i]) !! claimedByOthers
    {
      if scanFiles[i] in claimedByOthers {
        assert scanFiles[i] in Elements(scanFiles);
        return None;
      }
      assert scanFiles[..i + 1] == scanFiles[..i] + [scanFiles[i]];
    }
    assert scanFiles[..|scanFiles|] == scanFiles;
    var added: set<P> := {};
    for i := 0 to |scanFiles|
      invariant Elements(scanFiles[..i]) <= world.present
      invariant added == Elements(scanFiles[..i]) - current
    {
      if scanFiles[i] !in world.present {
        assert scanFiles[i] in Elements(scanFiles);
        return None;
      }
      if scanFiles[i] !in current {
        added := added + {scanFiles[i]};
      }
      assert scanFiles[..i + 1] == scanFiles[..i] + [scanFiles[i]];
    }
    return Some(Updated(current, added, world));
  }

  // ----- Preparing --------------------------------------------------------------------------

  // `previous` is the patch's row when it was selected.
  function Prepare<P>(claims: Claims<P>, step: Step<P>, previous: set<P>, dir: P -> P): Judgement<P> {
    var retained := previous - step.options.expectRemoved;
    var updated := if step.options.scan then Scanned(claims, step.patch, retained, step.options, step.world, dir)
                   else Some(retained);
    if updated.None? || step.verdict.Throw? then Threw
    else if step.verdict.Skip? || updated.value <= RemovedFiles(updated.value, step.world) then Skipped
    else if step.options.scanFiles.Some?
            && !(Elements(step.options.scanFiles.value) - previous <= Differs(step.world)) then Threw
    else if updated.value !! Differs(step.world) then Skipped
    else if step.verdict.RefuseDrift? then DriftRefused
    else Ready(updated.value)
  }

  // ----- The store --------------------------------------------------------------------------

  // The manifest on disk, and the copy in memory that later patches are scanned against.
  datatype State<P> = State(disk: Claims<P>, mirror: Claims<P>)

  function Committed<P>(state: State<P>, patch: string, files: set<P>, fault: Fault): State<P> {
    match fault
    case BeforeWrite => state
    case AfterWrite => State(state.disk[patch := files], state.mirror)
    case NoFault => State(state.disk[patch := files], state.mirror[patch := files])
  }

  ghost predicate Selects<P>(steps: seq<Step<P>>, claims: Claims<P>) {
    && (forall i | 0 <= i < |steps| :: steps[i].patch in claims)
    && (forall i, j | 0 <= i < j < |steps| :: steps[i].patch != steps[j].patch)
  }

  // ----- One patch at a time ----------------------------------------------------------------

  // The store after the first `n` patches, prepared and committed in turn.
  function InTurn<P>(start: State<P>, steps: seq<Step<P>>, n: nat, dir: P -> P): State<P>
    requires n <= |steps| && forall i | 0 <= i < |steps| :: steps[i].patch in start.mirror
  {
    if n == 0 then start
    else
      var state, step := InTurn(start, steps, n - 1, dir), steps[n - 1];
      var judgement := Prepare(state.mirror, step, start.mirror[step.patch], dir);
      if judgement.Ready? then Committed(state, step.patch, judgement.files, step.fault) else state
  }

  // ----- Judged first -----------------------------------------------------------------------

  // The judged copy of the manifest after the first `n` prepares.
  function Judged<P>(claims: Claims<P>, steps: seq<Step<P>>, n: nat, dir: P -> P): Claims<P>
    requires n <= |steps| && forall i | 0 <= i < |steps| :: steps[i].patch in claims
    decreases n, 0
  {
    if n == 0 then claims
    else
      var judged := Judged(claims, steps, n - 1, dir);
      var judgement := JudgementOf(claims, steps, n - 1, dir);
      if judgement.Ready? then judged[steps[n - 1].patch := judgement.files] else judged
  }

  function JudgementOf<P>(claims: Claims<P>, steps: seq<Step<P>>, i: nat, dir: P -> P): Judgement<P>
    requires i < |steps| && forall i | 0 <= i < |steps| :: steps[i].patch in claims
    decreases i, 1
  {
    Prepare(Judged(claims, steps, i, dir), steps[i], claims[steps[i].patch], dir)
  }

  // The store after the prepared patches among the first `n` are committed.
  function CommittedUpTo<P>(start: State<P>, steps: seq<Step<P>>, n: nat, dir: P -> P): State<P>
    requires n <= |steps| && forall i | 0 <= i < |steps| :: steps[i].patch in start.mirror
  {
    if n == 0 then start
    else
      var state := CommittedUpTo(start, steps, n - 1, dir);
      var judgement := JudgementOf(start.mirror, steps, n - 1, dir);
      if judgement.Ready? then Committed(state, steps[n - 1].patch, judgement.files, steps[n - 1].fault) else state
  }
}
