// The verdict of src/commands/check-report.ts over the results of the check's steps.
module CheckReport {
  import opened Prelude
  import opened Schedule
  import opened CheckRun

  datatype Reason = StepFailures | LockTimeout | SkippedSteps

  datatype Verdict = Verdict(passed: bool, reason: Option<Reason>, failed: seq<string>, skipped: seq<string>,
      steps: nat)

  const LOCK_TIMEOUT_EXIT := 15

  predicate Failed(result: StepResult) {
    result.status == Fail
  }

  // A step skipped for want of anything to run.
  predicate IsGap(result: StepResult) {
    result.status == Skipped && result.skipKind != Some(Config)
  }

  function Filter(results: seq<StepResult>, keep: StepResult -> bool): (kept: seq<StepResult>)
    ensures forall result :: result in kept <==> result in results && keep(result)
  {
    if results == [] then [] else (if keep(results[0]) then [results[0]] else []) + Filter(results[1..], keep)
  }

  function ResultNames(results: seq<StepResult>): seq<string> {
    seq(|results|, i requires 0 <= i < |results| => results[i].name)
  }

  function JudgeCheck(results: seq<StepResult>, failOnSkipped: bool): Verdict {
    var failures := Filter(results, Failed);
    var gaps := if failOnSkipped then Filter(results, IsGap) else [];
    var skipped := Filter(results, (result: StepResult) => result.status == Skipped);
    Verdict(
      failures == [] && gaps == [],
      if failures != [] then
        if forall result | result in failures :: result.exitCode == Some(LOCK_TIMEOUT_EXIT) then Some(LockTimeout)
        else Some(StepFailures)
      else if gaps != [] then Some(SkippedSteps)
      else None,
      ResultNames(failures + gaps),
      ResultNames(skipped),
      |results|)
  }

  // What a result makes of the check.
  predicate CountsAgainst(result: StepResult, failOnSkipped: bool) {
    Failed(result) || (failOnSkipped && IsGap(result))
  }

  // Some step failed; every step that failed ran into the lock.
  ghost predicate SomeFailed(results: seq<StepResult>) {
    exists result :: result in results && Failed(result)
  }

  ghost predicate AllLocked(results: seq<StepResult>) {
    forall result | result in results && Failed(result) :: result.exitCode == Some(LOCK_TIMEOUT_EXIT)
  }

  ghost predicate SomeGap(results: seq<StepResult>) {
    exists result :: result in results && IsGap(result)
  }

  lemma SomeKept(results: seq<StepResult>, keep: StepResult -> bool)
    ensures Filter(results, keep) != [] <==> exists result :: result in results && keep(result)
  {
    if Filter(results, keep) != [] {
      assert Filter(results, keep)[0] in Filter(results, keep);
    }
  }

  lemma JudgedByItsResults(results: seq<StepResult>, failOnSkipped: bool)
    ensures var verdict := JudgeCheck(results, failOnSkipped);
            && (verdict.passed <==> forall result | result in results :: !CountsAgainst(result, failOnSkipped))
            && (verdict.passed <==> verdict.failed == [])
            && (verdict.passed <==> verdict.reason.None?)
            && (verdict.reason == Some(LockTimeout) <==> SomeFailed(results) && AllLocked(results))
            && (verdict.reason == Some(StepFailures) <==> SomeFailed(results) && !AllLocked(results))
            && (verdict.reason == Some(SkippedSteps) <==> !SomeFailed(results) && failOnSkipped && SomeGap(results))
  {
    SomeKept(results, Failed);
    SomeKept(results, IsGap);
  }

  lemma {:induction false} AllInPlanOrder(plans: seq<StepPlan>, finished: set<string>, run: StepPlan -> StepResult)
    requires Names(plans) <= finished
    ensures |InPlanOrder(plans, finished, run)| == |plans|
    ensures forall i | 0 <= i < |plans| :: InPlanOrder(plans, finished, run)[i] == run(plans[i])
  {
    if plans != [] {
      assert plans[0] in plans && forall plan | plan in plans[1..] :: plan in plans;
      AllInPlanOrder(plans[1..], finished, run);
    }
  }

  // The verdict read off the plan: it speaks of every step, passes exactly when none counts
  // against the check, and blames the locks exactly when steps failed and all that did gave up on
  // a lock.
  ghost predicate SpeaksForThePlan(plans: seq<StepPlan>, run: StepPlan -> StepResult, failOnSkipped: bool,
                                   verdict: Verdict) {
    && verdict.steps == |plans|
    && (verdict.passed <==> forall i | 0 <= i < |plans| :: !CountsAgainst(run(plans[i]), failOnSkipped))
    && (verdict.reason == Some(LockTimeout) <==>
          && (exists i :: 0 <= i < |plans| && Failed(run(plans[i])))
          && forall i | 0 <= i < |plans| && Failed(run(plans[i])) :: run(plans[i]).exitCode == Some(15))
  }

  lemma JudgedStepByStep(plans: seq<StepPlan>, finished: set<string>, run: StepPlan -> StepResult, failOnSkipped: bool)
    requires Names(plans) <= finished
    ensures SpeaksForThePlan(plans, run, failOnSkipped, JudgeCheck(InPlanOrder(plans, finished, run), failOnSkipped))
  {
    var results := InPlanOrder(plans, finished, run);
    AllInPlanOrder(plans, finished, run);
    JudgedByItsResults(results, failOnSkipped);
    forall i | 0 <= i < |plans|
      ensures run(plans[i]) in results
    {
      assert results[i] == run(plans[i]);
    }
    forall result | result in results
      ensures exists i :: 0 <= i < |plans| && run(plans[i]) == result
    {
      var i :| 0 <= i < |results| && results[i] == result;
    }
  }

  // The results are those the scheduler's loop returns: it left no step of an acyclic plan out.
  lemma VerdictOnAcyclicPlan(plans: seq<StepPlan>, run: StepPlan -> StepResult, failOnSkipped: bool,
                             results: seq<StepResult>)
    requires DistinctNames(plans) && Acyclic(Waits(plans))
    requires results == InPlanOrder(plans, Runnable(Waits(plans)), run)
    ensures SpeaksForThePlan(plans, run, failOnSkipped, JudgeCheck(results, failOnSkipped))
  {
    AcyclicRunsAll(plans);
    JudgedStepByStep(plans, Names(plans), run, failOnSkipped);
  }

  lemma AcyclicRunsAll(plans: seq<StepPlan>)
    requires Acyclic(Waits(plans))
    ensures Runnable(Waits(plans)) == Names(plans)
  {
    WaitsIsPlan(plans);
    AllRunExactlyWhenAcyclic(Waits(plans));
  }
}
