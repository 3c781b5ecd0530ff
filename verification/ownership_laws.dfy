// Every file has at most one owner, and under which failures that survives a run.
module OwnershipLaws {
  import opened Ownership

  // No file belongs to two patches.
  ghost predicate Owned<P>(claims: Claims<P>) {
    forall a, b | a in claims && b in claims && a != b :: claims[a] !! claims[b]
  }

  // ----- One prepare ------------------------------------------------------------------------

  // A refreshed row holds files of its old row and files no other patch claims, and what it adopts
  // has something to diff.
  lemma ReadyFiles<P>(claims: Claims<P>, step: Step<P>, previous: set<P>, dir: P -> P, file: P)
    requires Prepare(claims, step, previous, dir).Ready? && file in Prepare(claims, step, previous, dir).files
    ensures file in previous || (file !in ClaimedByOthers(claims, step.patch) && file in Differs(step.world))
  {
  }

  // What a refresh lets go of has nothing to diff, given that retired paths were validated.
  lemma ReleasedFiles<P>(claims: Claims<P>, step: Step<P>, previous: set<P>, dir: P -> P, file: P)
    requires Prepare(claims, step, previous, dir).Ready? && file in previous
    requires step.world.dirty <= step.world.present + step.world.tracked
    requires step.options.expectRemoved !! Differs(step.world)
    ensures file in Prepare(claims, step, previous, dir).files || file !in Differs(step.world)
  {
  }

  lemma RefreshStaysOwned<P>(claims: Claims<P>, step: Step<P>, dir: P -> P)
    requires step.patch in claims && Owned(claims)
    requires Prepare(claims, step, claims[step.patch], dir).Ready?
    ensures Owned(claims[step.patch := Prepare(claims, step, claims[step.patch], dir).files])
  {
    var files := Prepare(claims, step, claims[step.patch], dir).files;
    forall other | other in claims && other != step.patch
      ensures files !! claims[other]
    {
      forall file | file in files
        ensures file !in claims[other]
      {
        ReadyFiles(claims, step, claims[step.patch], dir, file);
      }
    }
  }

  // What the scan of a step could adopt, before it looks at what other patches claim: the changed
  // files right in the patch's directories, or the named ones.
  function Candidates<P>(step: Step<P>, previous: set<P>, dir: P -> P): set<P> {
    var retained := previous - step.options.expectRemoved;
    if !step.options.scan then {}
    else if step.options.scanFiles.Some? then Elements(step.options.scanFiles.value) - previous
    else (set file | file in Discovered(step.world) && dir(file) in Directories(retained, dir)) - previous
  }

  lemma AdoptsCandidates<P>(claims: Claims<P>, step: Step<P>, previous: set<P>, dir: P -> P, file: P)
    requires Prepare(claims, step, previous, dir).Ready? && file !in previous
    ensures file in Prepare(claims, step, previous, dir).files
       <==> file in Candidates(step, previous, dir) && file !in ClaimedByOthers(claims, step.patch)
  {
  }

  // Files that other patches hold on disk and the in-memory manifest does not know of.
  function Unknown<P>(state: State<P>, patch: string): set<P> {
    ClaimedByOthers(state.disk, patch) - ClaimedByOthers(state.mirror, patch)
  }

  // One refresh against an in-memory manifest that may have fallen behind: it leaves one owner a
  // file exactly when no candidate of its scan is a file that manifest has lost sight of.
  lemma StaleMirrorExactly<P>(state: State<P>, step: Step<P>, dir: P -> P)
    requires step.patch in state.disk && Owned(state.disk) && step.fault != BeforeWrite
    requires Prepare(state.mirror, step, state.disk[step.patch], dir).Ready?
    ensures var files := Prepare(state.mirror, step, state.disk[step.patch], dir).files;
            Owned(Committed(state, step.patch, files, step.fault).disk)
            <==> Candidates(step, state.disk[step.patch], dir) !! Unknown(state, step.patch)
  {
    var previous := state.disk[step.patch];
    var files := Prepare(state.mirror, step, previous, dir).files;
    var disk := state.disk[step.patch := files];
    if Candidates(step, previous, dir) !! Unknown(state, step.patch) {
      forall other, file | other in state.disk && other != step.patch && file in files
        ensures file !in state.disk[other]
      {
        if file !in previous {
          AdoptsCandidates(state.mirror, step, previous, dir, file);
          assert file !in Unknown(state, step.patch);
          assert file !in ClaimedByOthers(state.disk, step.patch);
        }
      }
      assert Owned(disk);
    } else {
      var file :| file in Candidates(step, previous, dir) && file in Unknown(state, step.patch);
      var other :| other in state.disk && other != step.patch && file in state.disk[other];
      AdoptsCandidates(state.mirror, step, previous, dir, file);
      assert file in disk[step.patch] && file in disk[other];
      assert !Owned(disk);
    }
  }

  // ----- One patch at a time ----------------------------------------------------------------

  // A patch that was not refreshed yet has its row as it was, on disk and in memory.
  lemma {:induction false} RowsWait<P>(start: State<P>, steps: seq<Step<P>>, n: nat, name: string, dir: P -> P)
    requires Selects(steps, start.mirror) && start.disk == start.mirror && n <= |steps|
    ensures name in InTurn(start, steps, n, dir).disk <==> name in start.disk
    ensures name in InTurn(start, steps, n, dir).mirror <==> name in start.mirror
    ensures name in start.disk && (forall k | 0 <= k < n :: steps[k].patch != name) ==>
              InTurn(start, steps, n, dir).disk[name] == start.disk[name] == InTurn(start, steps, n, dir).mirror[name]
  {
    if n > 0 {
      RowsWait(start, steps, n - 1, name, dir);
    }
  }

  // The step's commit reaches the manifest on disk.
  ghost predicate Lands<P>(start: State<P>, steps: seq<Step<P>>, i: nat, dir: P -> P)
    requires i < |steps| && forall k | 0 <= k < |steps| :: steps[k].patch in start.mirror
  {
    && steps[i].fault != BeforeWrite
    && Prepare(InTurn(start, steps, i, dir).mirror, steps[i], start.mirror[steps[i].patch], dir).Ready?
  }

  // The step does not land, or its scan could adopt nothing the in-memory manifest lost sight of.
  ghost predicate IsHarmless<P>(start: State<P>, steps: seq<Step<P>>, i: nat, dir: P -> P)
    requires i < |steps| && forall k | 0 <= k < |steps| :: steps[k].patch in start.mirror
  {
    Lands(start, steps, i, dir) ==>
      Candidates(steps[i], start.mirror[steps[i].patch], dir) !! Unknown(InTurn(start, steps, i, dir), steps[i].patch)
  }

  // Two patches that share a file, neither of them refreshed again.
  ghost predicate Shares<P>(disk: Claims<P>, steps: seq<Step<P>>, n: nat, a: string, b: string) {
    && a in disk && b in disk && a != b && !(disk[a] !! disk[b])
    && forall k | n <= k < |steps| :: steps[k].patch != a && steps[k].patch != b
  }

  lemma SharingStays<P>(start: State<P>, steps: seq<Step<P>>, n: nat, dir: P -> P, a: string, b: string)
    requires Selects(steps, start.mirror) && n < |steps|
    requires Shares(InTurn(start, steps, n, dir).disk, steps, n, a, b)
    ensures Shares(InTurn(start, steps, n + 1, dir).disk, steps, n + 1, a, b)
  {
  }

  // A file the in-memory manifest lost sight of belongs to a patch refreshed before.
  lemma UnknownWasRefreshed<P>(start: State<P>, steps: seq<Step<P>>, n: nat, dir: P -> P,
                               file: P) returns (other: string)
    requires Selects(steps, start.mirror) && start.disk == start.mirror && n < |steps|
    requires file in Unknown(InTurn(start, steps, n, dir), steps[n].patch)
    ensures var disk := InTurn(start, steps, n, dir).disk;
            other in disk && other != steps[n].patch && file in disk[other]
    ensures forall k | n <= k < |steps| :: steps[k].patch != other
  {
    var state := InTurn(start, steps, n, dir);
    other :| other in state.disk && other != steps[n].patch && file in state.disk[other];
    RowsWait(start, steps, n, other, dir);
    assert other !in state.mirror || state.mirror[other] != state.disk[other];
    var k :| 0 <= k < n && steps[k].patch == other;
  }

  lemma LandingShares<P>(start: State<P>, steps: seq<Step<P>>, n: nat, dir: P -> P) returns (a: string, b: string)
    requires Selects(steps, start.mirror) && start.disk == start.mirror && n < |steps|
    requires Lands(start, steps, n, dir) && !IsHarmless(start, steps, n, dir)
    ensures Shares(InTurn(start, steps, n + 1, dir).disk, steps, n + 1, a, b)
  {
    var state, step := InTurn(start, steps, n, dir), steps[n];
    var file :| file in Candidates(step, start.mirror[step.patch], dir) && file in Unknown(state, step.patch);
    a := step.patch;
    b := UnknownWasRefreshed(start, steps, n, dir, file);
    AdoptsCandidates(state.mirror, step, start.mirror[step.patch], dir, file);
    var disk := InTurn(start, steps, n + 1, dir).disk;
    assert file in disk[a] && file in disk[b];
  }

  lemma OwnedStepExactly<P>(start: State<P>, steps: seq<Step<P>>, n: nat, dir: P -> P)
    requires Selects(steps, start.mirror) && start.disk == start.mirror && n < |steps|
    requires Owned(InTurn(start, steps, n, dir).disk)
    ensures Owned(InTurn(start, steps, n + 1, dir).disk) <==> IsHarmless(start, steps, n, dir)
  {
    RowsWait(start, steps, n, steps[n].patch, dir);
    if Lands(start, steps, n, dir) {
      StaleMirrorExactly(InTurn(start, steps, n, dir), steps[n], dir);
    }
  }

  ghost predicate SomeShare<P>(disk: Claims<P>, steps: seq<Step<P>>, n: nat) {
    exists a, b :: Shares(disk, steps, n, a, b)
  }

  ghost predicate IsSettled<P>(start: State<P>, steps: seq<Step<P>>, n: nat, dir: P -> P)
    requires n <= |steps| && forall k | 0 <= k < |steps| :: steps[k].patch in start.mirror
  {
    Owned(InTurn(start, steps, n, dir).disk) || SomeShare(InTurn(start, steps, n, dir).disk, steps, n)
  }

  // A file with two owners keeps them to the end of the run.
  lemma SharedStaysShared<P>(start: State<P>, steps: seq<Step<P>>, n: nat, dir: P -> P)
    requires Selects(steps, start.mirror) && n < |steps| && SomeShare(InTurn(start, steps, n, dir).disk, steps, n)
    ensures SomeShare(InTurn(start, steps, n + 1, dir).disk, steps, n + 1)
    ensures !Owned(InTurn(start, steps, n + 1, dir).disk)
  {
    var a, b :| Shares(InTurn(start, steps, n, dir).disk, steps, n, a, b);
    SharingStays(start, steps, n, dir, a, b);
  }

  lemma OneTurn<P>(start: State<P>, steps: seq<Step<P>>, n: nat, dir: P -> P)
    requires Selects(steps, start.mirror) && start.disk == start.mirror && n < |steps|
        && IsSettled(start, steps, n, dir)
    ensures IsSettled(start, steps, n + 1, dir)
    ensures Owned(InTurn(start, steps, n + 1, dir).disk)
       <==> Owned(InTurn(start, steps, n, dir).disk) && IsHarmless(start, steps, n, dir)
  {
    if Owned(InTurn(start, steps, n, dir).disk) {
      OwnedStepExactly(start, steps, n, dir);
      if !IsHarmless(start, steps, n, dir) {
        var a, b := LandingShares(start, steps, n, dir);
      }
    } else {
      SharedStaysShared(start, steps, n, dir);
    }
  }

  // Whatever the tree at every step, whatever the scans and wherever commits fail: the run keeps one
  // owner a file exactly when no step that lands could adopt a file that the in-memory manifest has
  // lost sight of.
  lemma {:induction false} TurnsStayOwnedExactly<P>(start: State<P>, steps: seq<Step<P>>, n: nat, dir: P -> P)
    requires Selects(steps, start.mirror) && start.disk == start.mirror && Owned(start.disk) && n <= |steps|
    ensures IsSettled(start, steps, n, dir)
    ensures Owned(InTurn(start, steps, n, dir).disk) <==> forall i | 0 <= i < n :: IsHarmless(start, steps, i, dir)
  {
    if n > 0 {
      TurnsStayOwnedExactly(start, steps, n - 1, dir);
      OneTurn(start, steps, n - 1, dir);
    }
  }

  lemma {:induction false} MirrorKeepsUp<P>(start: State<P>, steps: seq<Step<P>>, n: nat, dir: P -> P)
    requires n <= |steps| && start.disk == start.mirror && forall k | 0 <= k < |steps| :: steps[k].patch in start.mirror
    requires forall i | 0 <= i < n :: steps[i].fault != AfterWrite
    ensures InTurn(start, steps, n, dir).disk == InTurn(start, steps, n, dir).mirror
  {
    if n > 0 {
      MirrorKeepsUp(start, steps, n - 1, dir);
    }
  }

  // In particular always when no commit fails between its write and the in-memory row.
  lemma TurnsStayOwned<P>(start: State<P>, steps: seq<Step<P>>, n: nat, dir: P -> P)
    requires Selects(steps, start.mirror) && start.disk == start.mirror && Owned(start.disk) && n <= |steps|
    requires forall i | 0 <= i < n :: steps[i].fault != AfterWrite
    ensures InTurn(start, steps, n, dir).disk == InTurn(start, steps, n, dir).mirror
    ensures Owned(InTurn(start, steps, n, dir).disk)
  {
    MirrorKeepsUp(start, steps, n, dir);
    forall i | 0 <= i < n
      ensures IsHarmless(start, steps, i, dir)
    {
      MirrorKeepsUp(start, steps, i, dir);
    }
    TurnsStayOwnedExactly(start, steps, n, dir);
  }

  // ----- Judged first -----------------------------------------------------------------------

  // When every commit succeeds, each prepare meets the ownership it would meet in turn.
  lemma {:induction false} JudgedMeetsTheSameRows<P>(start: State<P>, steps: seq<Step<P>>, n: nat, dir: P -> P)
    requires n <= |steps| && forall i | 0 <= i < |steps| :: steps[i].patch in start.mirror && steps[i].fault == NoFault
    ensures Judged(start.mirror, steps, n, dir) == InTurn(start, steps, n, dir).mirror
    ensures CommittedUpTo(start, steps, n, dir) == InTurn(start, steps, n, dir)
  {
    if n > 0 {
      JudgedMeetsTheSameRows(start, steps, n - 1, dir);
    }
  }

  ghost predicate IsReady<P>(claims: Claims<P>, steps: seq<Step<P>>, i: nat, dir: P -> P)
    requires i < |steps| && forall i | 0 <= i < |steps| :: steps[i].patch in claims
  {
    JudgementOf(claims, steps, i, dir).Ready?
  }

  lemma {:induction false} JudgedStaysOwned<P>(claims: Claims<P>, steps: seq<Step<P>>, n: nat, dir: P -> P)
    requires Selects(steps, claims) && Owned(claims) && n <= |steps|
    ensures Owned(Judged(claims, steps, n, dir))
    ensures forall i | n <= i < |steps| :: steps[i].patch in Judged(claims, steps, n, dir)
                                        && Judged(claims, steps, n, dir)[steps[i].patch] == claims[steps[i].patch]
  {
    if n > 0 {
      JudgedStaysOwned(claims, steps, n - 1, dir);
      if JudgementOf(claims, steps, n - 1, dir).Ready? {
        RefreshStaysOwned(Judged(claims, steps, n - 1, dir), steps[n - 1], dir);
      }
    }
  }

  // Two refreshed rows have no file in common.
  lemma ReadyRowsAreApart<P>(claims: Claims<P>, steps: seq<Step<P>>, i: nat, j: nat, dir: P -> P)
    requires Selects(steps, claims) && Owned(claims) && i < j < |steps|
    requires JudgementOf(claims, steps, i, dir).Ready? && JudgementOf(claims, steps, j, dir).Ready?
    ensures JudgementOf(claims, steps, i, dir).files !! JudgementOf(claims, steps, j, dir).files
  {
    JudgedStaysOwned(claims, steps, j + 1, dir);
    KeptRow(claims, steps, i, j + 1, dir);
    KeptRow(claims, steps, j, j + 1, dir);
  }

  lemma {:induction false} KeptRow<P>(claims: Claims<P>, steps: seq<Step<P>>, i: nat, n: nat, dir: P -> P)
    requires Selects(steps, claims) && i < n <= |steps| && JudgementOf(claims, steps, i, dir).Ready?
    ensures steps[i].patch in Judged(claims, steps, n, dir)
    ensures Judged(claims, steps, n, dir)[steps[i].patch] == JudgementOf(claims, steps, i, dir).files
  {
    if i < n - 1 {
      KeptRow(claims, steps, i, n - 1, dir);
    }
  }

  // A row of the judged copy is as it was unless a prepare before made the patch ready.
  lemma {:induction false} UnjudgedRow<P>(claims: Claims<P>, steps: seq<Step<P>>, n: nat, dir: P -> P, name: string)
    requires Selects(steps, claims) && n <= |steps| && name in claims
    requires forall i | 0 <= i < n && steps[i].patch == name :: !IsReady(claims, steps, i, dir)
    ensures name in Judged(claims, steps, n, dir) && Judged(claims, steps, n, dir)[name] == claims[name]
  {
    if n > 0 {
      UnjudgedRow(claims, steps, n - 1, dir, name);
      assert steps[n - 1].patch == name ==> !IsReady(claims, steps, n - 1, dir);
    }
  }

  // A refreshed row has no file of a row that no patch before it gave up.
  lemma ReadyAvoidsUnjudgedRows<P>(claims: Claims<P>, steps: seq<Step<P>>, j: nat, dir: P -> P, name: string)
    requires Selects(steps, claims) && Owned(claims) && j < |steps| && IsReady(claims, steps, j, dir)
    requires name in claims && name != steps[j].patch
    requires forall i | 0 <= i < j && steps[i].patch == name :: !IsReady(claims, steps, i, dir)
    ensures JudgementOf(claims, steps, j, dir).files !! claims[name]
  {
    UnjudgedRow(claims, steps, j, dir, name);
    forall file | file in JudgementOf(claims, steps, j, dir).files
      ensures file !in claims[name]
    {
      ReadyFiles(Judged(claims, steps, j, dir), steps[j], claims[steps[j].patch], dir, file);
    }
  }

  // The commit of a patch that was judged ready reaches the manifest on disk.
  ghost predicate Lasts<P>(claims: Claims<P>, steps: seq<Step<P>>, i: nat, dir: P -> P)
    requires i < |steps| && forall i | 0 <= i < |steps| :: steps[i].patch in claims
  {
    IsReady(claims, steps, i, dir) && steps[i].fault != BeforeWrite
  }

  lemma {:induction false} LandedRow<P>(start: State<P>, steps: seq<Step<P>>, n: nat, dir: P -> P, i: nat)
    requires Selects(steps, start.mirror) && i < n <= |steps| && Lasts(start.mirror, steps, i, dir)
    ensures var disk := CommittedUpTo(start, steps, n, dir).disk;
            steps[i].patch in disk && disk[steps[i].patch] == JudgementOf(start.mirror, steps, i, dir).files
  {
    if i < n - 1 {
      LandedRow(start, steps, n - 1, dir, i);
    }
  }

  lemma {:induction false} UnlandedRow<P>(start: State<P>, steps: seq<Step<P>>, n: nat, dir: P -> P, name: string)
    requires Selects(steps, start.mirror) && n <= |steps|
    requires forall i | 0 <= i < n && steps[i].patch == name :: !Lasts(start.mirror, steps, i, dir)
    ensures var disk := CommittedUpTo(start, steps, n, dir).disk;
            (name in disk <==> name in start.disk) && (name in disk ==> disk[name] == start.disk[name])
  {
    if n > 0 {
      UnlandedRow(start, steps, n - 1, dir, name);
      assert steps[n - 1].patch == name ==> !Lasts(start.mirror, steps, n - 1, dir);
    }
  }

  // Among the first `n` patches, no committed row holds a file of the old row of a patch that was
  // judged ready and whose commit failed before its write.
  ghost predicate FailuresAreClear<P>(claims: Claims<P>, steps: seq<Step<P>>, n: nat, dir: P -> P)
    requires n <= |steps| && forall i | 0 <= i < |steps| :: steps[i].patch in claims
  {
    forall i, j | 0 <= i < n && 0 <= j < n && IsReady(claims, steps, i, dir) && steps[i].fault == BeforeWrite
                  && Lasts(claims, steps, j, dir) ::
      JudgementOf(claims, steps, j, dir).files !! claims[steps[i].patch]
  }

  lemma LandedAvoidsOldRow<P>(start: State<P>, steps: seq<Step<P>>, n: nat, dir: P -> P, j: nat, name: string)
    requires Selects(steps, start.mirror) && Owned(start.mirror) && j < n <= |steps|
    requires FailuresAreClear(start.mirror, steps, n, dir) && Lasts(start.mirror, steps, j, dir)
    requires name in start.mirror && name != steps[j].patch
    requires forall i | 0 <= i < n && steps[i].patch == name :: !Lasts(start.mirror, steps, i, dir)
    ensures JudgementOf(start.mirror, steps, j, dir).files !! start.mirror[name]
  {
    if i: nat :| i < n && steps[i].patch == name && IsReady(start.mirror, steps, i, dir) {
      assert steps[i].fault == BeforeWrite;
    } else {
      ReadyAvoidsUnjudgedRows(start.mirror, steps, j, dir, name);
    }
  }

  // The row of one patch and another patch that landed.
  lemma LandedIsApart<P>(start: State<P>, steps: seq<Step<P>>, n: nat, dir: P -> P, j: nat, name: string)
    requires Selects(steps, start.mirror) && start.disk == start.mirror && Owned(start.disk) && j < n <= |steps|
    requires FailuresAreClear(start.mirror, steps, n, dir) && Lasts(start.mirror, steps, j, dir)
    requires name in start.disk && name != steps[j].patch
    ensures var disk := CommittedUpTo(start, steps, n, dir).disk;
            name in disk && disk[name] !! JudgementOf(start.mirror, steps, j, dir).files
  {
    if i: nat :| i < n && steps[i].patch == name && Lasts(start.mirror, steps, i, dir) {
      LandedRow(start, steps, n, dir, i);
      if i < j {
        ReadyRowsAreApart(start.mirror, steps, i, j, dir);
      } else {
        ReadyRowsAreApart(start.mirror, steps, j, i, dir);
      }
    } else {
      UnlandedRow(start, steps, n, dir, name);
      LandedAvoidsOldRow(start, steps, n, dir, j, name);
    }
  }

  lemma ClearRowsAreApart<P>(start: State<P>, steps: seq<Step<P>>, n: nat, dir: P -> P, a: string, b: string)
    requires Selects(steps, start.mirror) && start.disk == start.mirror && Owned(start.disk) && n <= |steps|
    requires FailuresAreClear(start.mirror, steps, n, dir) && a in start.disk && b in start.disk && a != b
    ensures var disk := CommittedUpTo(start, steps, n, dir).disk;
            a in disk && b in disk && disk[a] !! disk[b]
  {
    if i: nat :| i < n && steps[i].patch == a && Lasts(start.mirror, steps, i, dir) {
      LandedRow(start, steps, n, dir, i);
      LandedIsApart(start, steps, n, dir, i, b);
    } else if j: nat :| j < n && steps[j].patch == b && Lasts(start.mirror, steps, j, dir) {
      LandedRow(start, steps, n, dir, j);
      LandedIsApart(start, steps, n, dir, j, a);
    } else {
      UnlandedRow(start, steps, n, dir, a);
      UnlandedRow(start, steps, n, dir, b);
    }
  }

  lemma {:induction false} CommittedNames<P>(start: State<P>, steps: seq<Step<P>>, n: nat, dir: P -> P, name: string)
    requires Selects(steps, start.mirror) && start.disk == start.mirror && n <= |steps|
    ensures name in CommittedUpTo(start, steps, n, dir).disk <==> name in start.disk
  {
    if n > 0 {
      CommittedNames(start, steps, n - 1, dir, name);
    }
  }

  lemma ClearFailuresStayOwned<P>(start: State<P>, steps: seq<Step<P>>, n: nat, dir: P -> P)
    requires Selects(steps, start.mirror) && start.disk == start.mirror && Owned(start.disk) && n <= |steps|
    requires FailuresAreClear(start.mirror, steps, n, dir)
    ensures Owned(CommittedUpTo(start, steps, n, dir).disk)
  {
    var disk := CommittedUpTo(start, steps, n, dir).disk;
    forall a, b | a in disk && b in disk && a != b
      ensures disk[a] !! disk[b]
    {
      CommittedNames(start, steps, n, dir, a);
      CommittedNames(start, steps, n, dir, b);
      ClearRowsAreApart(start, steps, n, dir, a, b);
    }
  }

  lemma OwnedMeansClear<P>(start: State<P>, steps: seq<Step<P>>, n: nat, dir: P -> P, i: nat, j: nat)
    requires Selects(steps, start.mirror) && start.disk == start.mirror && i < n <= |steps| && j < n
    requires steps[i].fault == BeforeWrite && Lasts(start.mirror, steps, j, dir)
    requires Owned(CommittedUpTo(start, steps, n, dir).disk)
    ensures JudgementOf(start.mirror, steps, j, dir).files !! start.mirror[steps[i].patch]
  {
    LandedRow(start, steps, n, dir, j);
    UnlandedRow(start, steps, n, dir, steps[i].patch);
  }

  // Whatever the tree at every prepare and wherever commits fail, the judged-first run keeps one
  // owner a file exactly when no row it commits holds a file of a row it failed to replace.
  lemma JudgedFirstStaysOwnedExactly<P>(start: State<P>, steps: seq<Step<P>>, n: nat, dir: P -> P)
    requires Selects(steps, start.mirror) && start.disk == start.mirror && Owned(start.disk) && n <= |steps|
    ensures Owned(CommittedUpTo(start, steps, n, dir).disk) <==> FailuresAreClear(start.mirror, steps, n, dir)
  {
    if FailuresAreClear(start.mirror, steps, n, dir) {
      ClearFailuresStayOwned(start, steps, n, dir);
    } else if Owned(CommittedUpTo(start, steps, n, dir).disk) {
      forall i, j | 0 <= i < n && 0 <= j < n && IsReady(start.mirror, steps, i, dir) && steps[i].fault == BeforeWrite
                    && Lasts(start.mirror, steps, j, dir)
        ensures JudgementOf(start.mirror, steps, j, dir).files !! start.mirror[steps[i].patch]
      {
        OwnedMeansClear(start, steps, n, dir, i, j);
      }
    }
  }

  // One tree for the whole run, in which the retired paths were found back at HEAD or gone.
  ghost predicate Static<P>(steps: seq<Step<P>>, world: World<P>) {
    && world.dirty <= world.present + world.tracked
    && forall i | 0 <= i < |steps| :: steps[i].world == world && steps[i].options.expectRemoved !! Differs(world)
  }

  // In one tree, what a patch gives up has nothing to diff, so no later one adopts it.
  lemma ReadyAvoidsOldRows<P>(claims: Claims<P>, steps: seq<Step<P>>, i: nat, j: nat, world: World<P>, dir: P -> P)
    requires Selects(steps, claims) && Owned(claims) && Static(steps, world)
    requires i < |steps| && j < |steps| && i != j && IsReady(claims, steps, i, dir) && IsReady(claims, steps, j, dir)
    ensures JudgementOf(claims, steps, j, dir).files !! claims[steps[i].patch]
  {
    if j < i {
      ReadyAvoidsUnjudgedRows(claims, steps, j, dir, steps[i].patch);
    } else {
      KeptRow(claims, steps, i, j, dir);
      forall file | file in JudgementOf(claims, steps, j, dir).files
        ensures file !in claims[steps[i].patch]
      {
        ReadyFiles(Judged(claims, steps, j, dir), steps[j], claims[steps[j].patch], dir, file);
        if file in claims[steps[i].patch] {
          ReleasedFiles(Judged(claims, steps, i, dir), steps[i], claims[steps[i].patch], dir, file);
        }
      }
    }
  }

  // In particular always when the tree stands still, whichever commits fail.
  lemma JudgedFirstStaysOwned<P>(start: State<P>, steps: seq<Step<P>>, n: nat, world: World<P>, dir: P -> P)
    requires Selects(steps, start.mirror) && start.disk == start.mirror && Owned(start.disk)
    requires Static(steps, world) && n <= |steps|
    ensures Owned(CommittedUpTo(start, steps, n, dir).disk)
  {
    forall i, j | 0 <= i < n && 0 <= j < n && IsReady(start.mirror, steps, i, dir) && steps[i].fault == BeforeWrite
                  && Lasts(start.mirror, steps, j, dir)
      ensures JudgementOf(start.mirror, steps, j, dir).files !! start.mirror[steps[i].patch]
    {
      ReadyAvoidsOldRows(start.mirror, steps, i, j, world, dir);
    }
    JudgedFirstStaysOwnedExactly(start, steps, n, dir);
  }
}
