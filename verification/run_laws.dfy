// What the two loops of src/commands/re-export-each.ts write and report, told from the steps' gates,
// options, trees and faults.
module RunLaws {
  import opened Prelude
  import opened Ownership
  import opened PrepareLaws
  import opened ReExportRun

  // The gates let the patch through and it has something to write.
  ghost predicate Refreshes<P(!new)>(claims: Claims<P>, step: Step<P>, previous: set<P>, dir: P -> P) {
    step.verdict.Proceed? && HasADiff(claims, step, previous, dir)
  }

  ghost predicate HoldsDrift<P(!new)>(claims: Claims<P>, step: Step<P>, previous: set<P>, dir: P -> P) {
    step.verdict.RefuseDrift? && HasADiff(claims, step, previous, dir)
  }

  ghost function WantedRow<P(!new)>(claims: Claims<P>, step: Step<P>, previous: set<P>, dir: P -> P): set<P> {
    set file | file in previous + step.world.present + step.world.dirty && IsWanted(claims, step, previous, dir, file)
  }

  lemma ReadyExactly<P(!new)>(claims: Claims<P>, step: Step<P>, previous: set<P>, dir: P -> P)
    ensures var judgement := Prepare(claims, step, previous, dir);
            && (judgement.Ready? <==> Refreshes(claims, step, previous, dir))
            && (judgement.Ready? ==> judgement.files == WantedRow(claims, step, previous, dir))
            && (judgement.DriftRefused? <==> HoldsDrift(claims, step, previous, dir))
            && (judgement.Threw? <==> Throws(claims, step, previous, dir))
  {
    PrepareExactly(claims, step, previous, dir);
    if Prepare(claims, step, previous, dir).Ready? {
      forall file | IsWanted(claims, step, previous, dir, file)
        ensures file in previous + step.world.present + step.world.dirty
      {
        if IsNamed(step, file) && step.options.scan && file !in previous {
          assert file in step.world.present;
        }
      }
    }
  }

  // ----- The lists --------------------------------------------------------------------------

  lemma {:induction false} PickIsSomes<P>(steps: seq<Step<P>>, statuses: seq<Status>, n: nat, which: Status)
    requires n <= |steps| && n <= |statuses|
    ensures Pick(steps, statuses, n, which)
         == Somes(seq(n, i requires 0 <= i < n => if statuses[i] == which then Some(steps[i].patch) else None))
  {
    if n > 0 {
      PickIsSomes(steps, statuses, n - 1, which);
      var before := seq(n - 1, i requires 0 <= i < n - 1 =>
        if statuses[i] == which then Some(steps[i].patch) else None);
      var last := if statuses[n - 1] == which then Some(steps[n - 1].patch) else None;
      SomesAppend(before, last);
      assert seq(n, i requires 0 <= i < n => if statuses[i] == which then Some(steps[i].patch) else None)
          == before + [last];
    }
  }

  // The patches, in queue order, whose step does so.
  ghost function Those<P>(steps: seq<Step<P>>, does: seq<bool>): seq<string>
    requires |does| == |steps|
  {
    Somes(seq(|steps|, i requires 0 <= i < |steps| => if does[i] then Some(steps[i].patch) else None))
  }

  lemma PickIsThose<P>(steps: seq<Step<P>>, statuses: seq<Status>, which: Status, does: seq<bool>)
    requires |steps| == |statuses| == |does|
    requires forall i | 0 <= i < |steps| :: does[i] <==> statuses[i] == which
    ensures Pick(steps, statuses, |steps|, which) == Those(steps, does)
  {
    PickIsSomes(steps, statuses, |steps|, which);
    assert seq(|steps|, i requires 0 <= i < |steps| => if statuses[i] == which then Some(steps[i].patch) else None)
        == seq(|steps|, i requires 0 <= i < |steps| => if does[i] then Some(steps[i].patch) else None);
  }

  // ----- One patch at a time ----------------------------------------------------------------

  // Step `i` meets the store as the steps before left it.
  ghost predicate RefreshesInTurn<P(!new)>(start: State<P>, steps: seq<Step<P>>, i: nat, dir: P -> P)
    requires i < |steps| && forall k | 0 <= k < |steps| :: steps[k].patch in start.mirror
  {
    Refreshes(InTurn(start, steps, i, dir).mirror, steps[i], start.mirror[steps[i].patch], dir)
  }

  // It writes its row unless its commit fails before that, and the in-memory row unless it fails at
  // all; everything else stays as it was.
  lemma TurnExactly<P(!new)>(start: State<P>, steps: seq<Step<P>>, i: nat, dir: P -> P)
    requires i < |steps| && forall k | 0 <= k < |steps| :: steps[k].patch in start.mirror
    ensures var before, after, step := InTurn(start, steps, i, dir), InTurn(start, steps, i + 1, dir), steps[i];
            var row := WantedRow(before.mirror, step, start.mirror[step.patch], dir);
            && after.disk == (if RefreshesInTurn(start, steps, i, dir) && !step.fault.BeforeWrite?
                              then before.disk[step.patch := row] else before.disk)
            && after.mirror == (if RefreshesInTurn(start, steps, i, dir) && step.fault.NoFault?
                                then before.mirror[step.patch := row] else before.mirror)
  {
    ReadyExactly(InTurn(start, steps, i, dir).mirror, steps[i], start.mirror[steps[i].patch], dir);
  }

  // The lists of a run in turn: written is what was refreshed without a fault, failed what threw or
  // was refreshed with one.
  lemma TurnListsExactly<P(!new)>(start: State<P>, steps: seq<Step<P>>, dir: P -> P)
    requires forall k | 0 <= k < |steps| :: steps[k].patch in start.mirror
    ensures var outcome := TurnOutcome(start, steps, |steps|, dir);
            && outcome.heldBack == []
            && outcome.written == Those(steps, seq(|steps|, i requires 0 <= i < |steps| =>
                 RefreshesInTurn(start, steps, i, dir) && steps[i].fault.NoFault?))
            && outcome.failed == Those(steps, seq(|steps|, i requires 0 <= i < |steps| =>
                 (RefreshesInTurn(start, steps, i, dir) && !steps[i].fault.NoFault?)
                 || Throws(InTurn(start, steps, i, dir).mirror, steps[i], start.mirror[steps[i].patch], dir)))
  {
    var statuses := TurnStatuses(start, steps, |steps|, dir);
    forall i | 0 <= i < |steps|
      ensures statuses[i] == Wrote <==> RefreshesInTurn(start, steps, i, dir) && steps[i].fault.NoFault?
      ensures statuses[i] == CommitFailed <==>
        || (RefreshesInTurn(start, steps, i, dir) && !steps[i].fault.NoFault?)
        || Throws(InTurn(start, steps, i, dir).mirror, steps[i], start.mirror[steps[i].patch], dir)
    {
      ReadyExactly(InTurn(start, steps, i, dir).mirror, steps[i], start.mirror[steps[i].patch], dir);
    }
    PickIsThose(steps, statuses, Wrote, seq(|steps|, i requires 0 <= i < |steps| =>
      RefreshesInTurn(start, steps, i, dir) && steps[i].fault.NoFault?));
    PickIsThose(steps, statuses, CommitFailed, seq(|steps|, i requires 0 <= i < |steps| =>
      (RefreshesInTurn(start, steps, i, dir) && !steps[i].fault.NoFault?)
      || Throws(InTurn(start, steps, i, dir).mirror, steps[i], start.mirror[steps[i].patch], dir)));
  }

  // ----- Judged first -----------------------------------------------------------------------

  // The rows later steps are judged against.
  ghost function RowsJudged<P(!new)>(claims: Claims<P>, steps: seq<Step<P>>, n: nat, dir: P -> P): Claims<P>
    requires n <= |steps| && forall k | 0 <= k < |steps| :: steps[k].patch in claims
  {
    if n == 0 then claims
    else
      var rows, step := RowsJudged(claims, steps, n - 1, dir), steps[n - 1];
      if Refreshes(rows, step, claims[step.patch], dir) then
        rows[step.patch := WantedRow(rows, step, claims[step.patch], dir)]
      else rows
  }

  ghost predicate IsPrepared<P(!new)>(claims: Claims<P>, steps: seq<Step<P>>, i: nat, dir: P -> P)
    requires i < |steps| && forall k | 0 <= k < |steps| :: steps[k].patch in claims
  {
    Refreshes(RowsJudged(claims, steps, i, dir), steps[i], claims[steps[i].patch], dir)
  }

  ghost predicate ThrowsJudged<P(!new)>(claims: Claims<P>, steps: seq<Step<P>>, i: nat, dir: P -> P)
    requires i < |steps| && forall k | 0 <= k < |steps| :: steps[k].patch in claims
  {
    Throws(RowsJudged(claims, steps, i, dir), steps[i], claims[steps[i].patch], dir)
  }

  // Some patch with a diff is refused for drift.
  ghost predicate SomeDrift<P(!new)>(claims: Claims<P>, steps: seq<Step<P>>, dir: P -> P)
    requires forall k | 0 <= k < |steps| :: steps[k].patch in claims
  {
    exists i | 0 <= i < |steps| :: HoldsDrift(RowsJudged(claims, steps, i, dir), steps[i], claims[steps[i].patch], dir)
  }

  lemma {:induction false} JudgedRows<P(!new)>(claims: Claims<P>, steps: seq<Step<P>>, n: nat, dir: P -> P)
    requires n <= |steps| && forall k | 0 <= k < |steps| :: steps[k].patch in claims
    ensures Judged(claims, steps, n, dir) == RowsJudged(claims, steps, n, dir)
  {
    if n > 0 {
      JudgedRows(claims, steps, n - 1, dir);
      ReadyExactly(RowsJudged(claims, steps, n - 1, dir), steps[n - 1], claims[steps[n - 1].patch], dir);
    }
  }

  lemma JudgementExactly<P(!new)>(claims: Claims<P>, steps: seq<Step<P>>, i: nat, dir: P -> P)
    requires i < |steps| && forall k | 0 <= k < |steps| :: steps[k].patch in claims
    ensures var judgement, rows := JudgementOf(claims, steps, i, dir), RowsJudged(claims, steps, i, dir);
            && (judgement.Ready? <==> IsPrepared(claims, steps, i, dir))
            && (judgement.Ready? ==> judgement.files == WantedRow(rows, steps[i], claims[steps[i].patch], dir))
            && (judgement.DriftRefused? <==> HoldsDrift(rows, steps[i], claims[steps[i].patch], dir))
            && (judgement.Threw? <==> ThrowsJudged(claims, steps, i, dir))
  {
    JudgedRows(claims, steps, i, dir);
    ReadyExactly(RowsJudged(claims, steps, i, dir), steps[i], claims[steps[i].patch], dir);
  }

  lemma DriftExactly<P(!new)>(claims: Claims<P>, steps: seq<Step<P>>, dir: P -> P)
    requires forall k | 0 <= k < |steps| :: steps[k].patch in claims
    ensures RefusesDrift(claims, steps, |steps|, dir) <==> SomeDrift(claims, steps, dir)
  {
    forall i | 0 <= i < |steps|
      ensures JudgementOf(claims, steps, i, dir).DriftRefused?
         <==> HoldsDrift(RowsJudged(claims, steps, i, dir), steps[i], claims[steps[i].patch], dir)
    {
      JudgementExactly(claims, steps, i, dir);
    }
  }

  // A prepared patch is committed as it was judged.
  lemma CommitExactly<P(!new)>(start: State<P>, steps: seq<Step<P>>, i: nat, dir: P -> P)
    requires i < |steps| && forall k | 0 <= k < |steps| :: steps[k].patch in start.mirror
    ensures var before, after := CommittedUpTo(start, steps, i, dir), CommittedUpTo(start, steps, i + 1, dir);
            var step := steps[i];
            var row := WantedRow(RowsJudged(start.mirror, steps, i, dir), step, start.mirror[step.patch], dir);
            && after.disk == (if IsPrepared(start.mirror, steps, i, dir) && !step.fault.BeforeWrite?
                              then before.disk[step.patch := row] else before.disk)
            && after.mirror == (if IsPrepared(start.mirror, steps, i, dir) && step.fault.NoFault?
                                then before.mirror[step.patch := row] else before.mirror)
  {
    JudgementExactly(start.mirror, steps, i, dir);
  }

  lemma JudgedStatuses<P(!new)>(claims: Claims<P>, steps: seq<Step<P>>, i: nat, dir: P -> P)
    requires i < |steps| && forall k | 0 <= k < |steps| :: steps[k].patch in claims
    ensures var prepare := PrepareStatuses(claims, steps, |steps|, dir)[i];
            && (prepare == Prepared <==> IsPrepared(claims, steps, i, dir))
            && (prepare == PrepareFailed <==> ThrowsJudged(claims, steps, i, dir))
    ensures var commit := CommitStatuses(claims, steps, |steps|, dir)[i];
            && (commit == Wrote <==> IsPrepared(claims, steps, i, dir) && steps[i].fault.NoFault?)
            && (commit == CommitFailed <==> IsPrepared(claims, steps, i, dir) && !steps[i].fault.NoFault?)
  {
    JudgementExactly(claims, steps, i, dir);
  }

  ghost function PreparedThose<P(!new)>(claims: Claims<P>, steps: seq<Step<P>>, dir: P -> P): seq<string>
    requires forall k | 0 <= k < |steps| :: steps[k].patch in claims
  {
    Those(steps, seq(|steps|, i requires 0 <= i < |steps| => IsPrepared(claims, steps, i, dir)))
  }

  ghost function CommittedThose<P(!new)>(claims: Claims<P>, steps: seq<Step<P>>, dir: P -> P, done: bool): seq<string>
    requires forall k | 0 <= k < |steps| :: steps[k].patch in claims
  {
    Those(steps, seq(|steps|, i requires 0 <= i < |steps| =>
      IsPrepared(claims, steps, i, dir) && steps[i].fault.NoFault? == done))
  }

  ghost function ThrownThose<P(!new)>(claims: Claims<P>, steps: seq<Step<P>>, dir: P -> P): seq<string>
    requires forall k | 0 <= k < |steps| :: steps[k].patch in claims
  {
    Those(steps, seq(|steps|, i requires 0 <= i < |steps| => ThrowsJudged(claims, steps, i, dir)))
  }

  // The lists of a judged run: when some patch is refused for drift nothing is written and every
  // patch that was ready is held back; otherwise those are written or fail with their fault.
  lemma JudgedListsExactly<P(!new)>(claims: Claims<P>, steps: seq<Step<P>>, dir: P -> P)
    requires forall k | 0 <= k < |steps| :: steps[k].patch in claims
    ensures JudgedOutcome(claims, steps, dir)
         == if SomeDrift(claims, steps, dir) then
              Outcome([], ThrownThose(claims, steps, dir), PreparedThose(claims, steps, dir))
            else
              Outcome(CommittedThose(claims, steps, dir, true),
                      ThrownThose(claims, steps, dir) + CommittedThose(claims, steps, dir, false), [])
  {
    var prepares, commits := PrepareStatuses(claims, steps, |steps|, dir), CommitStatuses(claims, steps, |steps|, dir);
    DriftExactly(claims, steps, dir);
    forall i | 0 <= i < |steps|
      ensures prepares[i] == Prepared <==> IsPrepared(claims, steps, i, dir)
      ensures prepares[i] == PrepareFailed <==> ThrowsJudged(claims, steps, i, dir)
      ensures commits[i] == Wrote <==> IsPrepared(claims, steps, i, dir) && steps[i].fault.NoFault?
      ensures commits[i] == CommitFailed <==> IsPrepared(claims, steps, i, dir) && !steps[i].fault.NoFault?
    {
      JudgedStatuses(claims, steps, i, dir);
    }
    PickIsThose(steps, prepares, Prepared,
        seq(|steps|, i requires 0 <= i < |steps| => IsPrepared(claims, steps, i, dir)));
    PickIsThose(steps, prepares, PrepareFailed,
        seq(|steps|, i requires 0 <= i < |steps| => ThrowsJudged(claims, steps, i, dir)));
    PickIsThose(steps, commits, Wrote, seq(|steps|, i requires 0 <= i < |steps| =>
      IsPrepared(claims, steps, i, dir) && steps[i].fault.NoFault? == true));
    PickIsThose(steps, commits, CommitFailed, seq(|steps|, i requires 0 <= i < |steps| =>
      IsPrepared(claims, steps, i, dir) && steps[i].fault.NoFault? == false));
  }

  // ----- Held back --------------------------------------------------------------------------

  ghost predicate KeepsRow<P>(before: State<P>, after: State<P>, name: string) {
    && (name in after.disk <==> name in before.disk) && (name in after.mirror <==> name in before.mirror)
    && (name in before.disk ==> after.disk[name] == before.disk[name])
    && (name in before.mirror ==> after.mirror[name] == before.mirror[name])
  }

  // A patch whose gates do not let it through keeps its row on disk and in memory.
  lemma {:induction false} TurnsKeepHeldBack<P(!new)>(start: State<P>, steps: seq<Step<P>>, n: nat, dir: P -> P,
                                                      name: string)
    requires n <= |steps| && forall k | 0 <= k < |steps| :: steps[k].patch in start.mirror
    requires forall i | 0 <= i < n && steps[i].patch == name :: !steps[i].verdict.Proceed?
    ensures KeepsRow(start, InTurn(start, steps, n, dir), name)
  {
    if n > 0 {
      TurnsKeepHeldBack(start, steps, n - 1, dir, name);
      TurnExactly(start, steps, n - 1, dir);
      assert steps[n - 1].patch == name ==> !steps[n - 1].verdict.Proceed?;
    }
  }

  // So it does when all are judged first.
  lemma {:induction false} CommitsKeepHeldBack<P(!new)>(start: State<P>, steps: seq<Step<P>>, n: nat, dir: P -> P,
                                                        name: string)
    requires n <= |steps| && forall k | 0 <= k < |steps| :: steps[k].patch in start.mirror
    requires forall i | 0 <= i < n && steps[i].patch == name :: !steps[i].verdict.Proceed?
    ensures KeepsRow(start, CommittedUpTo(start, steps, n, dir), name)
  {
    if n > 0 {
      CommitsKeepHeldBack(start, steps, n - 1, dir, name);
      CommitExactly(start, steps, n - 1, dir);
      assert steps[n - 1].patch == name ==> !steps[n - 1].verdict.Proceed?;
    }
  }
}
