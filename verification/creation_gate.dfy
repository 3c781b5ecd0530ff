// The queue projection a commit has to pass, src/commands/re-export-lint.ts, and what it adds to
// single ownership: a file outside HEAD, which only a patch can create, keeps one owner.
module CreationGate {
  import opened Prelude
  import opened Ownership
  import opened OwnershipLaws

  // The files each patch's body creates, as the queue context holds them. `Owned(bodies)` says that
  // no file is created by two patches.
  type Bodies<P> = Claims<P>

  // What a refreshed body creates: files on disk that HEAD does not have.
  function CreatedBy<P>(files: set<P>, world: World<P>): set<P> {
    files * world.present - world.tracked
  }

  ghost function Creators<P(!new)>(bodies: Bodies<P>, file: P): set<string> {
    set name | name in bodies && file in bodies[name]
  }

  // The fingerprint of a duplicate creation names the file and all that create it, so an error is
  // new when that set is.
  ghost predicate IsNewDuplicate<P(!new)>(bodies: Bodies<P>, next: Bodies<P>, file: P) {
    |Creators(next, file)| > 1 && Creators(next, file) != Creators(bodies, file)
  }

  // The projected queue has an error of this rule that the queue does not have.
  ghost predicate Regresses<P(!new)>(bodies: Bodies<P>, next: Bodies<P>) {
    exists file :: IsNewDuplicate(bodies, next, file)
  }

  lemma SeveralCreators<P(!new)>(bodies: Bodies<P>, file: P, a: string, b: string)
    requires a in bodies && b in bodies && a != b && file in bodies[a] && file in bodies[b]
    ensures |Creators(bodies, file)| > 1
  {
    var creators := Creators(bodies, file);
    assert |creators - {a}| == |creators| - 1 && b in creators - {a};
  }

  // From a queue that creates no file twice, a body passes exactly when it creates none that another
  // patch creates.
  lemma PassesExactly<P(!new)>(bodies: Bodies<P>, patch: string, created: set<P>)
    requires Owned(bodies)
    ensures !Regresses(bodies, bodies[patch := created]) <==> Owned(bodies[patch := created])
  {
    var next := bodies[patch := created];
    if !Owned(next) {
      var a, b, file :| a in next && b in next && a != b && file in next[a] && file in next[b];
      SeveralCreators(next, file, a, b);
      assert a in Creators(next, file) && b in Creators(next, file);
      assert a !in Creators(bodies, file) || b !in Creators(bodies, file);
      assert IsNewDuplicate(bodies, next, file);
    } else if file :| IsNewDuplicate(bodies, next, file) {
      OneCreator(next, file);
    }
  }

  lemma OneCreator<P(!new)>(bodies: Bodies<P>, file: P)
    requires Owned(bodies)
    ensures |Creators(bodies, file)| <= 1
  {
    var creators := Creators(bodies, file);
    if a :| a in creators {
      assert creators == {a};
    }
  }

  lemma SharedFile<P>(claims: Claims<P>, a: string, b: string, file: P)
    requires a in claims && b in claims && a != b && file in claims[a] && file in claims[b]
    ensures !Owned(claims)
  {
  }

  // HEAD stays where it is, and nothing is listed as changed that is neither on disk nor in HEAD.
  ghost predicate OneHead<P>(steps: seq<Step<P>>, head: set<P>) {
    forall i | 0 <= i < |steps| ::
      steps[i].world.tracked == head && steps[i].world.dirty <= steps[i].world.present + head
  }

  // No file outside HEAD belongs to two patches.
  ghost predicate OwnedOutside<P>(claims: Claims<P>, head: set<P>) {
    forall a, b | a in claims && b in claims && a != b :: claims[a] * claims[b] <= head
  }

  // What a refresh adopts outside HEAD, its body creates.
  lemma AdoptedIsCreated<P>(claims: Claims<P>, step: Step<P>, previous: set<P>, dir: P -> P, file: P)
    requires step.world.dirty <= step.world.present + step.world.tracked
    requires Prepare(claims, step, previous, dir).Ready? && file in Prepare(claims, step, previous, dir).files
    requires file !in previous && file !in step.world.tracked
    ensures file in CreatedBy(Prepare(claims, step, previous, dir).files, step.world)
  {
    ReadyFiles(claims, step, previous, dir, file);
  }

  // ----- One patch at a time ----------------------------------------------------------------

  ghost function CreatedAt<P>(start: State<P>, steps: seq<Step<P>>, i: nat, dir: P -> P): set<P>
    requires i < |steps| && forall k | 0 <= k < |steps| :: steps[k].patch in start.mirror
    requires Lands(start, steps, i, dir)
  {
    var files := Prepare(InTurn(start, steps, i, dir).mirror, steps[i], start.mirror[steps[i].patch], dir).files;
    CreatedBy(files, steps[i].world)
  }

  // The queue context after the first `n` patches: refreshed right after a write, before anything
  // that may fail.
  ghost function BodiesInTurn<P>(start: State<P>, bodies: Bodies<P>, steps: seq<Step<P>>, n: nat, dir: P -> P):
      Bodies<P>
    requires n <= |steps| && forall k | 0 <= k < |steps| :: steps[k].patch in start.mirror
  {
    if n == 0 then bodies
    else if Lands(start, steps, n - 1, dir) then
      BodiesInTurn(start, bodies, steps, n - 1, dir)[steps[n - 1].patch := CreatedAt(start, steps, n - 1, dir)]
    else BodiesInTurn(start, bodies, steps, n - 1, dir)
  }

  // Without `--force-unsafe` no commit lands whose body brings in a duplicate creation.
  ghost predicate IsGated<P(!new)>(start: State<P>, bodies: Bodies<P>, steps: seq<Step<P>>, n: nat, dir: P -> P)
    requires n <= |steps| && forall k | 0 <= k < |steps| :: steps[k].patch in start.mirror
  {
    forall i | 0 <= i < n && Lands(start, steps, i, dir) ::
      !Regresses(BodiesInTurn(start, bodies, steps, i, dir), BodiesInTurn(start, bodies, steps, i + 1, dir))
  }

  lemma {:induction false} BodiesStayApart<P(!new)>(start: State<P>, bodies: Bodies<P>, steps: seq<Step<P>>, n: nat,
                                                    dir: P -> P)
    requires Selects(steps, start.mirror) && n <= |steps| && Owned(bodies) && IsGated(start, bodies, steps, n, dir)
    ensures Owned(BodiesInTurn(start, bodies, steps, n, dir))
  {
    if n > 0 {
      BodiesStayApart(start, bodies, steps, n - 1, dir);
      if Lands(start, steps, n - 1, dir) {
        PassesExactly(BodiesInTurn(start, bodies, steps, n - 1, dir), steps[n - 1].patch,
            CreatedAt(start, steps, n - 1, dir));
      }
    }
  }

  // A file outside HEAD that the in-memory row of its owner lacks is created by its owner's body.
  lemma {:induction false} LostSightOfIsCreated<P>(start: State<P>, bodies: Bodies<P>, steps: seq<Step<P>>, n: nat,
                                                   head: set<P>, dir: P -> P, name: string, file: P)
    requires Selects(steps, start.mirror) && start.disk == start.mirror && n <= |steps| && OneHead(steps, head)
    requires var state := InTurn(start, steps, n, dir);
             name in state.disk && file in state.disk[name] && file !in head
             && !(name in state.mirror && file in state.mirror[name])
    ensures var created := BodiesInTurn(start, bodies, steps, n, dir);
            name in created && file in created[name]
  {
    RowsWait(start, steps, n, name, dir);
    var state, step := InTurn(start, steps, n - 1, dir), steps[n - 1];
    if step.patch != name || !Lands(start, steps, n - 1, dir) {
      LostSightOfIsCreated(start, bodies, steps, n - 1, head, dir, name, file);
    } else {
      RowsWait(start, steps, n - 1, name, dir);
      AdoptedIsCreated(state.mirror, step, start.mirror[name], dir, file);
    }
  }

  // What a gated step takes over and the in-memory manifest lost sight of is in HEAD.
  lemma GatedStepTakesUpstream<P(!new)>(start: State<P>, bodies: Bodies<P>, steps: seq<Step<P>>, n: nat, head: set<P>,
                                        dir: P -> P, file: P)
    requires Selects(steps, start.mirror) && start.disk == start.mirror && n < |steps| && OneHead(steps, head)
    requires Owned(bodies) && IsGated(start, bodies, steps, n + 1, dir) && Lands(start, steps, n, dir)
    requires file in Candidates(steps[n], start.mirror[steps[n].patch], dir)
    requires file in Unknown(InTurn(start, steps, n, dir), steps[n].patch)
    ensures file in head
  {
    var state, step := InTurn(start, steps, n, dir), steps[n];
    if file !in head {
      var other :| other in state.disk && other != step.patch && file in state.disk[other];
      LostSightOfIsCreated(start, bodies, steps, n, head, dir, other, file);
      AdoptsCandidates(state.mirror, step, start.mirror[step.patch], dir, file);
      AdoptedIsCreated(state.mirror, step, start.mirror[step.patch], dir, file);
      SharedFile(BodiesInTurn(start, bodies, steps, n + 1, dir), step.patch, other, file);
      BodiesStayApart(start, bodies, steps, n + 1, dir);
    }
  }

  // The step lands nothing, or no candidate of its scan in HEAD is lost sight of.
  ghost predicate IsHarmlessUpstream<P>(start: State<P>, steps: seq<Step<P>>, i: nat, head: set<P>, dir: P -> P)
    requires i < |steps| && forall k | 0 <= k < |steps| :: steps[k].patch in start.mirror
  {
    Lands(start, steps, i, dir) ==>
      Candidates(steps[i], start.mirror[steps[i].patch], dir) * head
      !! Unknown(InTurn(start, steps, i, dir), steps[i].patch)
  }

  // Past the gate a run in turn doubles owners only through files that upstream has: it keeps one
  // owner a file exactly when no step that lands could adopt such a file that was lost sight of.
  lemma GatedTurnsStayOwnedExactly<P(!new)>(start: State<P>, bodies: Bodies<P>, steps: seq<Step<P>>, n: nat,
                                            head: set<P>, dir: P -> P)
    requires Selects(steps, start.mirror) && start.disk == start.mirror && Owned(start.disk) && n <= |steps|
    requires OneHead(steps, head) && Owned(bodies) && IsGated(start, bodies, steps, n, dir)
    ensures Owned(InTurn(start, steps, n, dir).disk)
       <==> forall i | 0 <= i < n :: IsHarmlessUpstream(start, steps, i, head, dir)
  {
    TurnsStayOwnedExactly(start, steps, n, dir);
    forall i | 0 <= i < n
      ensures IsHarmless(start, steps, i, dir) <==> IsHarmlessUpstream(start, steps, i, head, dir)
    {
      forall file | Lands(start, steps, i, dir) && file in Candidates(steps[i], start.mirror[steps[i].patch], dir)
                    && file in Unknown(InTurn(start, steps, i, dir), steps[i].patch)
        ensures file in head
      {
        GatedStepTakesUpstream(start, bodies, steps, i, head, dir, file);
      }
    }
  }

  lemma GatedStepOwnsCreations<P(!new)>(start: State<P>, bodies: Bodies<P>, steps: seq<Step<P>>, n: nat, head: set<P>,
                                        dir: P -> P)
    requires Selects(steps, start.mirror) && start.disk == start.mirror && n < |steps| && OneHead(steps, head)
    requires Owned(bodies) && IsGated(start, bodies, steps, n + 1, dir) && Lands(start, steps, n, dir)
    requires OwnedOutside(InTurn(start, steps, n, dir).disk, head)
    ensures OwnedOutside(InTurn(start, steps, n + 1, dir).disk, head)
  {
    var state, step := InTurn(start, steps, n, dir), steps[n];
    var previous := start.mirror[step.patch];
    var files := Prepare(state.mirror, step, previous, dir).files;
    RowsWait(start, steps, n, step.patch, dir);
    forall other, file | other in state.disk && other != step.patch && file in files && file in state.disk[other]
      ensures file in head
    {
      if file in previous {
        assert state.disk[step.patch] * state.disk[other] <= head;
      } else {
        AdoptsCandidates(state.mirror, step, previous, dir, file);
        GatedStepTakesUpstream(start, bodies, steps, n, head, dir, file);
      }
    }
    assert InTurn(start, steps, n + 1, dir).disk == state.disk[step.patch := files];
  }

  // A file that only patches create never gets two owners, whatever the trees, the scans and the
  // commits that fail.
  lemma {:induction false} GatedTurnsOwnCreations<P(!new)>(start: State<P>, bodies: Bodies<P>, steps: seq<Step<P>>,
                                                           n: nat, head: set<P>, dir: P -> P)
    requires Selects(steps, start.mirror) && start.disk == start.mirror && Owned(start.disk) && n <= |steps|
    requires OneHead(steps, head) && Owned(bodies) && IsGated(start, bodies, steps, n, dir)
    ensures OwnedOutside(InTurn(start, steps, n, dir).disk, head)
  {
    if n > 0 {
      GatedTurnsOwnCreations(start, bodies, steps, n - 1, head, dir);
      if Lands(start, steps, n - 1, dir) {
        GatedStepOwnsCreations(start, bodies, steps, n - 1, head, dir);
      }
    }
  }

  // ----- Judged first -----------------------------------------------------------------------

  ghost function CreatedWhenJudged<P>(claims: Claims<P>, steps: seq<Step<P>>, i: nat, dir: P -> P): set<P>
    requires i < |steps| && forall k | 0 <= k < |steps| :: steps[k].patch in claims
    requires Lasts(claims, steps, i, dir)
  {
    CreatedBy(JudgementOf(claims, steps, i, dir).files, steps[i].world)
  }

  // The queue context after the prepared patches among the first `n` are committed.
  ghost function BodiesCommitted<P>(claims: Claims<P>, bodies: Bodies<P>, steps: seq<Step<P>>, n: nat, dir: P -> P):
      Bodies<P>
    requires n <= |steps| && forall k | 0 <= k < |steps| :: steps[k].patch in claims
  {
    if n == 0 then bodies
    else if Lasts(claims, steps, n - 1, dir) then
      BodiesCommitted(claims, bodies, steps, n - 1, dir)[steps[n - 1].patch :=
          CreatedWhenJudged(claims, steps, n - 1, dir)]
    else BodiesCommitted(claims, bodies, steps, n - 1, dir)
  }

  ghost predicate IsGatedJudged<P(!new)>(claims: Claims<P>, bodies: Bodies<P>, steps: seq<Step<P>>, n: nat, dir: P -> P)
    requires n <= |steps| && forall k | 0 <= k < |steps| :: steps[k].patch in claims
  {
    forall i | 0 <= i < n && Lasts(claims, steps, i, dir) ::
      !Regresses(BodiesCommitted(claims, bodies, steps, i, dir), BodiesCommitted(claims, bodies, steps, i + 1, dir))
  }

  lemma {:induction false} CommittedBodiesStayApart<P(!new)>(claims: Claims<P>, bodies: Bodies<P>, steps: seq<Step<P>>,
                                                             n: nat, dir: P -> P)
    requires Selects(steps, claims) && n <= |steps| && Owned(bodies) && IsGatedJudged(claims, bodies, steps, n, dir)
    ensures Owned(BodiesCommitted(claims, bodies, steps, n, dir))
  {
    if n > 0 {
      CommittedBodiesStayApart(claims, bodies, steps, n - 1, dir);
      if Lasts(claims, steps, n - 1, dir) {
        PassesExactly(BodiesCommitted(claims, bodies, steps, n - 1, dir), steps[n - 1].patch,
            CreatedWhenJudged(claims, steps, n - 1, dir));
      }
    }
  }

  lemma {:induction false} LandedBody<P>(claims: Claims<P>, bodies: Bodies<P>, steps: seq<Step<P>>, n: nat, dir: P -> P,
                                         i: nat)
    requires Selects(steps, claims) && i < n <= |steps| && Lasts(claims, steps, i, dir)
    ensures var created := BodiesCommitted(claims, bodies, steps, n, dir);
            steps[i].patch in created && created[steps[i].patch] == CreatedWhenJudged(claims, steps, i, dir)
  {
    if i < n - 1 {
      LandedBody(claims, bodies, steps, n - 1, dir, i);
    }
  }

  lemma {:induction false} UnlandedBody<P>(claims: Claims<P>, bodies: Bodies<P>, steps: seq<Step<P>>, n: nat,
                                           dir: P -> P, name: string)
    requires Selects(steps, claims) && n <= |steps| && name in bodies
    requires forall i | 0 <= i < n && steps[i].patch == name :: !Lasts(claims, steps, i, dir)
    ensures var created := BodiesCommitted(claims, bodies, steps, n, dir);
            name in created && created[name] == bodies[name]
  {
    if n > 0 {
      UnlandedBody(claims, bodies, steps, n - 1, dir, name);
      assert steps[n - 1].patch == name ==> !Lasts(claims, steps, n - 1, dir);
    }
  }

  // A gated commit takes no file outside HEAD over from a patch whose body, left as it was, creates
  // that file.
  lemma GatedCommitLeavesCreations<P(!new)>(claims: Claims<P>, bodies: Bodies<P>, steps: seq<Step<P>>, n: nat,
                                            head: set<P>, dir: P -> P, j: nat, name: string, file: P)
    requires Selects(steps, claims) && Owned(claims) && OneHead(steps, head) && j < n <= |steps|
    requires Owned(bodies) && IsGatedJudged(claims, bodies, steps, n, dir) && Lasts(claims, steps, j, dir)
    requires name in claims && name != steps[j].patch && file in claims[name]
    requires forall i | 0 <= i < n && steps[i].patch == name :: !Lasts(claims, steps, i, dir)
    requires name in bodies && file in bodies[name] && file !in head
    ensures file !in JudgementOf(claims, steps, j, dir).files
  {
    if file in JudgementOf(claims, steps, j, dir).files {
      AdoptedIsCreated(Judged(claims, steps, j, dir), steps[j], claims[steps[j].patch], dir, file);
      LandedBody(claims, bodies, steps, n, dir, j);
      UnlandedBody(claims, bodies, steps, n, dir, name);
      CommittedBodiesStayApart(claims, bodies, steps, n, dir);
    }
  }

  // Among the first `n` patches, no committed row holds a file of the old row of a patch that was
  // judged ready and whose commit failed before its write, but for those only its body creates.
  ghost predicate FailuresAreClearUpstream<P>(claims: Claims<P>, bodies: Bodies<P>, steps: seq<Step<P>>, n: nat,
                                              head: set<P>, dir: P -> P)
    requires n <= |steps| && forall i | 0 <= i < |steps| :: steps[i].patch in claims
    requires claims.Keys <= bodies.Keys
  {
    forall i, j | 0 <= i < n && 0 <= j < n && IsReady(claims, steps, i, dir) && steps[i].fault == BeforeWrite
                  && Lasts(claims, steps, j, dir) ::
      JudgementOf(claims, steps, j, dir).files !! claims[steps[i].patch] - (bodies[steps[i].patch] - head)
  }

  lemma ClearUpstreamIsClear<P(!new)>(claims: Claims<P>, bodies: Bodies<P>, steps: seq<Step<P>>, n: nat, head: set<P>,
                                      dir: P -> P, i: nat, j: nat)
    requires Selects(steps, claims) && Owned(claims) && OneHead(steps, head) && i < n <= |steps| && j < n
    requires claims.Keys <= bodies.Keys && Owned(bodies) && IsGatedJudged(claims, bodies, steps, n, dir)
    requires steps[i].fault == BeforeWrite && Lasts(claims, steps, j, dir)
    requires JudgementOf(claims, steps, j, dir).files !! claims[steps[i].patch] - (bodies[steps[i].patch] - head)
    ensures JudgementOf(claims, steps, j, dir).files !! claims[steps[i].patch]
  {
    var name := steps[i].patch;
    forall file | file in claims[name] && file in bodies[name] - head
      ensures file !in JudgementOf(claims, steps, j, dir).files
    {
      GatedCommitLeavesCreations(claims, bodies, steps, n, head, dir, j, name, file);
    }
  }

  lemma GatedFailuresAreClear<P(!new)>(claims: Claims<P>, bodies: Bodies<P>, steps: seq<Step<P>>, n: nat, head: set<P>,
                                       dir: P -> P)
    requires Selects(steps, claims) && Owned(claims) && OneHead(steps, head) && n <= |steps|
    requires claims.Keys <= bodies.Keys && Owned(bodies) && IsGatedJudged(claims, bodies, steps, n, dir)
    ensures FailuresAreClear(claims, steps, n, dir) <==> FailuresAreClearUpstream(claims, bodies, steps, n, head, dir)
  {
    if FailuresAreClearUpstream(claims, bodies, steps, n, head, dir) {
      forall i, j | 0 <= i < n && 0 <= j < n && IsReady(claims, steps, i, dir) && steps[i].fault == BeforeWrite
                    && Lasts(claims, steps, j, dir)
        ensures JudgementOf(claims, steps, j, dir).files !! claims[steps[i].patch]
      {
        ClearUpstreamIsClear(claims, bodies, steps, n, head, dir, i, j);
      }
    }
  }

  // Past the gate the judged-first run keeps one owner a file exactly when no row it commits holds a
  // file of a row it failed to replace, other than one that row's own body creates.
  lemma GatedJudgedStaysOwnedExactly<P(!new)>(start: State<P>, bodies: Bodies<P>, steps: seq<Step<P>>, n: nat,
                                              head: set<P>, dir: P -> P)
    requires Selects(steps, start.mirror) && start.disk == start.mirror && Owned(start.disk) && n <= |steps|
    requires start.mirror.Keys <= bodies.Keys && OneHead(steps, head) && Owned(bodies)
    requires IsGatedJudged(start.mirror, bodies, steps, n, dir)
    ensures Owned(CommittedUpTo(start, steps, n, dir).disk)
       <==> FailuresAreClearUpstream(start.mirror, bodies, steps, n, head, dir)
  {
    JudgedFirstStaysOwnedExactly(start, steps, n, dir);
    GatedFailuresAreClear(start.mirror, bodies, steps, n, head, dir);
  }

  // Every file of a row that HEAD does not have is created by the patch's body.
  ghost predicate RowsAreCreated<P>(claims: Claims<P>, bodies: Bodies<P>, head: set<P>) {
    forall name | name in claims :: name in bodies && claims[name] - head <= bodies[name]
  }

  // So, from a queue whose rows and bodies agree, a file that only patches create never gets two
  // owners in this loop either, though the tree may move between the prepares.
  lemma GatedJudgedOwnsCreations<P(!new)>(start: State<P>, bodies: Bodies<P>, steps: seq<Step<P>>, n: nat,
                                          head: set<P>, dir: P -> P)
    requires Selects(steps, start.mirror) && start.disk == start.mirror && Owned(start.disk) && n <= |steps|
    requires RowsAreCreated(start.mirror, bodies, head) && OneHead(steps, head) && Owned(bodies)
    requires IsGatedJudged(start.mirror, bodies, steps, n, dir)
    ensures OwnedOutside(CommittedUpTo(start, steps, n, dir).disk, head)
  {
    var disk := CommittedUpTo(start, steps, n, dir).disk;
    forall a, b, file | a in disk && b in disk && a != b && file in disk[a] && file in disk[b]
      ensures file in head
    {
      CommittedNames(start, steps, n, dir, a);
      CommittedNames(start, steps, n, dir, b);
      if file !in head {
        SharedWasTakenOver(start, steps, n, dir, a, b, file);
        if j: nat :| j < n && steps[j].patch == b && Lasts(start.mirror, steps, j, dir) {
          LandedRow(start, steps, n, dir, j);
          GatedCommitLeavesCreations(start.mirror, bodies, steps, n, head, dir, j, a, file);
        } else {
          var i: nat :| i < n && steps[i].patch == a && Lasts(start.mirror, steps, i, dir);
          LandedRow(start, steps, n, dir, i);
          GatedCommitLeavesCreations(start.mirror, bodies, steps, n, head, dir, i, b, file);
        }
      }
    }
  }

  // Of two patches that share a file in the end, exactly one was committed.
  lemma SharedWasTakenOver<P>(start: State<P>, steps: seq<Step<P>>, n: nat, dir: P -> P, a: string, b: string, file: P)
    requires Selects(steps, start.mirror) && start.disk == start.mirror && Owned(start.disk) && n <= |steps|
    requires a in start.disk && b in start.disk && a != b
    requires var disk := CommittedUpTo(start, steps, n, dir).disk;
             a in disk && b in disk && file in disk[a] && file in disk[b]
    ensures IsCommitted(start, steps, n, dir, a) != IsCommitted(start, steps, n, dir, b)
    ensures !IsCommitted(start, steps, n, dir, a) ==> file in start.disk[a]
    ensures !IsCommitted(start, steps, n, dir, b) ==> file in start.disk[b]
  {
    if !IsCommitted(start, steps, n, dir, a) {
      UnlandedRow(start, steps, n, dir, a);
    }
    if !IsCommitted(start, steps, n, dir, b) {
      UnlandedRow(start, steps, n, dir, b);
    }
    if IsCommitted(start, steps, n, dir, a) && IsCommitted(start, steps, n, dir, b) {
      CommittedRowsAreApart(start, steps, n, dir, a, b);
    }
  }

  lemma CommittedRowsAreApart<P>(start: State<P>, steps: seq<Step<P>>, n: nat, dir: P -> P, a: string, b: string)
    requires Selects(steps, start.mirror) && Owned(start.mirror) && n <= |steps| && a != b
    requires IsCommitted(start, steps, n, dir, a) && IsCommitted(start, steps, n, dir, b)
    ensures var disk := CommittedUpTo(start, steps, n, dir).disk;
            a in disk && b in disk && disk[a] !! disk[b]
  {
    var i: nat :| i < n && steps[i].patch == a && Lasts(start.mirror, steps, i, dir);
    var j: nat :| j < n && steps[j].patch == b && Lasts(start.mirror, steps, j, dir);
    LandedRow(start, steps, n, dir, i);
    LandedRow(start, steps, n, dir, j);
    if i < j {
      ReadyRowsAreApart(start.mirror, steps, i, j, dir);
    } else {
      ReadyRowsAreApart(start.mirror, steps, j, i, dir);
    }
  }

  ghost predicate IsCommitted<P>(start: State<P>, steps: seq<Step<P>>, n: nat, dir: P -> P, name: string)
    requires n <= |steps| && forall i | 0 <= i < |steps| :: steps[i].patch in start.mirror
  {
    exists i | 0 <= i < n :: steps[i].patch == name && Lasts(start.mirror, steps, i, dir)
  }

  // ----- Two runs that pass the gate and double an owner ------------------------------------

  ghost predicate CreatesNothing<P>(bodies: Bodies<P>) {
    forall name | name in bodies :: bodies[name] == {}
  }

  // Trees without a file that HEAD does not have.
  ghost predicate OnlyUpstream<P>(steps: seq<Step<P>>) {
    forall i | 0 <= i < |steps| :: steps[i].world.present <= steps[i].world.tracked
  }

  lemma NothingCreatedPasses<P(!new)>(bodies: Bodies<P>, patch: string)
    requires CreatesNothing(bodies)
    ensures !Regresses(bodies, bodies[patch := {}]) && CreatesNothing(bodies[patch := {}])
  {
    PassesExactly(bodies, patch, {});
  }

  lemma {:induction false} UpstreamTurnsCreateNothing<P>(start: State<P>, bodies: Bodies<P>, steps: seq<Step<P>>,
                                                         n: nat, dir: P -> P)
    requires Selects(steps, start.mirror) && n <= |steps| && CreatesNothing(bodies) && OnlyUpstream(steps)
    ensures CreatesNothing(BodiesInTurn(start, bodies, steps, n, dir))
  {
    if n > 0 {
      UpstreamTurnsCreateNothing(start, bodies, steps, n - 1, dir);
    }
  }

  lemma UpstreamTurnsPass<P(!new)>(start: State<P>, bodies: Bodies<P>, steps: seq<Step<P>>, n: nat, dir: P -> P)
    requires Selects(steps, start.mirror) && n <= |steps| && CreatesNothing(bodies) && OnlyUpstream(steps)
    ensures IsGated(start, bodies, steps, n, dir)
  {
    forall i | 0 <= i < n && Lands(start, steps, i, dir)
      ensures !Regresses(BodiesInTurn(start, bodies, steps, i, dir), BodiesInTurn(start, bodies, steps, i + 1, dir))
    {
      UpstreamTurnsCreateNothing(start, bodies, steps, i, dir);
      assert CreatedAt(start, steps, i, dir) == {};
      NothingCreatedPasses(BodiesInTurn(start, bodies, steps, i, dir), steps[i].patch);
    }
  }

  lemma {:induction false} UpstreamCommitsCreateNothing<P>(claims: Claims<P>, bodies: Bodies<P>, steps: seq<Step<P>>,
                                                           n: nat, dir: P -> P)
    requires Selects(steps, claims) && n <= |steps| && CreatesNothing(bodies) && OnlyUpstream(steps)
    ensures CreatesNothing(BodiesCommitted(claims, bodies, steps, n, dir))
  {
    if n > 0 {
      UpstreamCommitsCreateNothing(claims, bodies, steps, n - 1, dir);
    }
  }

  lemma UpstreamCommitsPass<P(!new)>(claims: Claims<P>, bodies: Bodies<P>, steps: seq<Step<P>>, n: nat, dir: P -> P)
    requires Selects(steps, claims) && n <= |steps| && CreatesNothing(bodies) && OnlyUpstream(steps)
    ensures IsGatedJudged(claims, bodies, steps, n, dir)
  {
    forall i | 0 <= i < n && Lasts(claims, steps, i, dir)
      ensures !Regresses(BodiesCommitted(claims, bodies, steps, i, dir),
                         BodiesCommitted(claims, bodies, steps, i + 1, dir))
    {
      UpstreamCommitsCreateNothing(claims, bodies, steps, i, dir);
      assert CreatedWhenJudged(claims, steps, i, dir) == {};
      NothingCreatedPasses(BodiesCommitted(claims, bodies, steps, i, dir), steps[i].patch);
    }
  }

  function OneDirectory(path: int): int { 0 }

  function NoCreations(): Bodies<int> {
    map["a" := {}, "b" := {}]
  }

  // Two patches with one changed upstream file each, and a third one beside them.
  function TwoPatches(): Claims<int> {
    map["a" := {1}, "b" := {2}]
  }

  function FileBeside(): World<int> {
    World({1, 2, 3}, {1, 2, 3}, {1, 2, 3}, {})
  }

  function Broad(patch: string, removed: set<int>, world: World<int>, fault: Fault): Step<int> {
    Step(patch, Options(true, None, removed), world, Proceed, fault)
  }

  lemma BroadScanAdopts(patch: string, file: int, fault: Fault)
    requires (patch == "a" && file == 1) || (patch == "b" && file == 2)
    ensures Prepare(TwoPatches(), Broad(patch, {}, FileBeside(), fault), {file}, OneDirectory) == Ready({file, 3})
  {
    assert ClaimedByOthers(TwoPatches(), patch) == {1, 2} - {file} by {
      assert "a" in TwoPatches() && "b" in TwoPatches();
    }
    assert {file} - {} == {file} && OneDirectory(file) in Directories({file}, OneDirectory);
    assert BroadAdditions(TwoPatches(), patch, {file}, FileBeside(), OneDirectory) == {3};
    assert RemovedFiles({file}, FileBeside()) == {} && RemovedFiles({file, 3}, FileBeside()) == {};
  }

  function Failing(): seq<Step<int>> {
    [Broad("a", {}, FileBeside(), AfterWrite), Broad("b", {}, FileBeside(), NoFault)]
  }

  lemma BothAdopt()
    ensures InTurn(State(TwoPatches(), TwoPatches()), Failing(), 2, OneDirectory).disk
         == map["a" := {1, 3}, "b" := {2, 3}]
  {
    var start := State(TwoPatches(), TwoPatches());
    BroadScanAdopts("a", 1, AfterWrite);
    BroadScanAdopts("b", 2, NoFault);
    assert InTurn(start, Failing(), 1, OneDirectory) == State(start.disk["a" := {1, 3}], start.mirror);
  }

  lemma FailingIsARun()
    ensures Owned(TwoPatches()) && Selects(Failing(), TwoPatches()) && OneHead(Failing(), {1, 2, 3})
    ensures OnlyUpstream(Failing())
  {
  }

  // The first commit fails after its write; the second patch is scanned against the row it had
  // before, and both own the third file.
  lemma FailureAfterWriteDoublesOwners()
    ensures var start := State(TwoPatches(), TwoPatches());
            && Owned(start.disk) && Selects(Failing(), start.mirror) && OneHead(Failing(), {1, 2, 3})
            && IsGated(start, NoCreations(), Failing(), 2, OneDirectory)
            && !Owned(InTurn(start, Failing(), 2, OneDirectory).disk)
  {
    var start := State(TwoPatches(), TwoPatches());
    FailingIsARun();
    UpstreamTurnsPass(start, NoCreations(), Failing(), 2, OneDirectory);
    BothAdopt();
    SharedFile(InTurn(start, Failing(), 2, OneDirectory).disk, "a", "b", 3);
  }

  // Patch "a" retires upstream file 4, which is back at HEAD when "a" is judged and changed again
  // when "b" is.
  function Retiring(): Claims<int> {
    map["a" := {1, 4}, "b" := {2}]
  }

  function MovingTree(): seq<Step<int>> {
    [Broad("a", {4}, World({1, 2, 4}, {1, 2, 4}, {1, 2}, {}), BeforeWrite),
     Broad("b", {4}, World({1, 2, 4}, {1, 2, 4}, {1, 2, 4}, {}), NoFault)]
  }

  lemma RetiredIsReleased()
    ensures Prepare(Retiring(), MovingTree()[0], {1, 4}, OneDirectory) == Ready({1})
  {
    var world := MovingTree()[0].world;
    assert {1, 4} - {4} == {1};
    assert ClaimedByOthers(Retiring(), "a") == {2} by {
      assert "b" in Retiring();
    }
    assert BroadAdditions(Retiring(), "a", {1}, world, OneDirectory) == {};
    assert Updated({1}, {}, world) == {1} && RemovedFiles({1}, world) == {};
  }

  lemma ReleasedIsAdopted(claims: Claims<int>)
    requires claims == map["a" := {1}, "b" := {2}]
    ensures Prepare(claims, MovingTree()[1], {2}, OneDirectory) == Ready({2, 4})
  {
    var world := MovingTree()[1].world;
    assert {2} - {4} == {2} && OneDirectory(2) in Directories({2}, OneDirectory);
    assert ClaimedByOthers(claims, "b") == {1} by {
      assert "a" in claims;
    }
    assert BroadAdditions(claims, "b", {2}, world, OneDirectory) == {4};
    assert RemovedFiles({2}, world) == {} && RemovedFiles({2, 4}, world) == {};
  }

  lemma MovingTreeJudged()
    ensures JudgementOf(Retiring(), MovingTree(), 0, OneDirectory) == Ready({1})
    ensures JudgementOf(Retiring(), MovingTree(), 1, OneDirectory) == Ready({2, 4})
  {
    RetiredIsReleased();
    ReleasedIsAdopted(Retiring()["a" := {1}]);
  }

  lemma BothKeep()
    ensures CommittedUpTo(State(Retiring(), Retiring()), MovingTree(), 2, OneDirectory).disk
         == map["a" := {1, 4}, "b" := {2, 4}]
  {
    var start := State(Retiring(), Retiring());
    MovingTreeJudged();
    assert CommittedUpTo(start, MovingTree(), 1, OneDirectory) == start;
  }

  lemma MovingTreeIsARun()
    ensures Owned(Retiring()) && Selects(MovingTree(), Retiring()) && OneHead(MovingTree(), {1, 2, 4})
    ensures OnlyUpstream(MovingTree())
  {
  }

  // The commit of "a" fails before its write, that of "b" goes through, and both own the file.
  lemma MovingTreeDoublesOwners()
    ensures Owned(Retiring()) && Selects(MovingTree(), Retiring()) && OneHead(MovingTree(), {1, 2, 4})
    ensures IsGatedJudged(Retiring(), NoCreations(), MovingTree(), 2, OneDirectory)
    ensures !Owned(CommittedUpTo(State(Retiring(), Retiring()), MovingTree(), 2, OneDirectory).disk)
  {
    MovingTreeIsARun();
    UpstreamCommitsPass(Retiring(), NoCreations(), MovingTree(), 2, OneDirectory);
    BothKeep();
    SharedFile(CommittedUpTo(State(Retiring(), Retiring()), MovingTree(), 2, OneDirectory).disk, "a", "b", 4);
  }
}
