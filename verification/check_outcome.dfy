// What a check does and says, told from the steps' `after` lists and from their results.
module CheckOutcome {
  import opened Prelude
  import opened Schedule
  import opened CheckRun
  import opened CheckReport

  // ----- Order ------------------------------------------------------------------------------

  // A step waits on exactly the steps of the plan that it names in `after`.
  lemma WaitsExactly(plans: seq<StepPlan>, name: string, other: string)
    ensures name in Waits(plans) <==> exists i | 0 <= i < |plans| :: plans[i].name == name
    ensures name in Waits(plans) && other in Waits(plans)[name]
       <==> && (exists i | 0 <= i < |plans| :: plans[i].name == name && other in plans[i].after)
            && (exists i | 0 <= i < |plans| :: plans[i].name == other)
  {
    forall step
      ensures step in Names(plans) <==> exists i | 0 <= i < |plans| :: plans[i].name == step
    {
      if step in Names(plans) {
        var plan :| plan in plans && plan.name == step;
        var i :| 0 <= i < |plans| && plans[i] == plan;
        assert plans[i].name == step;
      }
      if i: nat :| i < |plans| && plans[i].name == step {
        assert plans[i] in plans;
      }
    }
    if name in Waits(plans) && other in Waits(plans)[name] {
      var plan :| plan in plans && plan.name == name && other in plan.after && other in Names(plans);
      var i :| 0 <= i < |plans| && plans[i] == plan;
      assert plans[i].name == name && other in plans[i].after;
    }
    if i: nat :| i < |plans| && plans[i].name == name && other in plans[i].after {
      assert plans[i] in plans;
      assert other in Names(plans) ==> other in WaitsOf(plans, name);
    }
  }

  // In every state of a run at most the allowed number of steps is running, and a step that started
  // did so after every step of the plan it names in `after` had finished.
  lemma AfterIsHonoured(plans: seq<StepPlan>, jobs: int, states: seq<State<string>>, k: nat, i: nat, other: string)
    requires IsRun(Waits(plans), Slots(jobs), states) && k < |states| && i < |plans|
    requires other in plans[i].after && exists j | 0 <= j < |plans| :: plans[j].name == other
    ensures |states[k].running| <= if jobs < 1 then 1 else jobs
    ensures plans[i].name in states[k].running || plans[i].name in states[k].finished ==> other in states[k].finished
  {
    RunsAreSafe(Waits(plans), Slots(jobs), states, k);
    WaitsExactly(plans, plans[i].name, other);
    assert plans[i].name == plans[i].name && other in plans[i].after;
  }

  // The results are those of the finished steps, in plan order.
  lemma {:induction false} ResultsAreThose(plans: seq<StepPlan>, finished: set<string>, run: StepPlan -> StepResult)
    ensures InPlanOrder(plans, finished, run)
         == Somes(seq(|plans|, i requires 0 <= i < |plans| =>
              if plans[i].name in finished then Some(run(plans[i])) else None))
  {
    if plans != [] {
      var rest := plans[1..];
      ResultsAreThose(rest, finished, run);
      var results := seq(|plans|, i requires 0 <= i < |plans| =>
        if plans[i].name in finished then Some(run(plans[i])) else None);
      assert results[1..] == seq(|rest|, i requires 0 <= i < |rest| =>
          if rest[i].name in finished then Some(run(rest[i])) else None);
    }
  }

  // ----- Verdict ----------------------------------------------------------------------------

  function NamesWhere(results: seq<StepResult>, keep: StepResult -> bool): seq<string> {
    Somes(seq(|results|, i requires 0 <= i < |results| => if keep(results[i]) then Some(results[i].name) else None))
  }

  lemma {:induction false} FilteredNames(results: seq<StepResult>, keep: StepResult -> bool)
    ensures ResultNames(Filter(results, keep)) == NamesWhere(results, keep)
  {
    if results != [] {
      var rest := results[1..];
      FilteredNames(rest, keep);
      var names := seq(|results|, i requires 0 <= i < |results| =>
        if keep(results[i]) then Some(results[i].name) else None);
      assert names[1..] == seq(|rest|, i requires 0 <= i < |rest| =>
          if keep(rest[i]) then Some(rest[i].name) else None);
      NamesSplit(if keep(results[0]) then [results[0]] else [], Filter(rest, keep));
    }
  }

  lemma NamesSplit(front: seq<StepResult>, back: seq<StepResult>)
    ensures ResultNames(front + back) == ResultNames(front) + ResultNames(back)
  {
  }

  predicate DidFail(result: StepResult) {
    result.status == Fail
  }

  predicate WasSkipped(result: StepResult) {
    result.status == Status.Skipped
  }

  predicate HadNothingToRun(result: StepResult) {
    result.status == Status.Skipped && result.skipKind != Some(Config)
  }

  // The lists of the verdict: failed steps in order and then, where gaps count, those skipped for
  // want of anything to run; every skipped step; and how many results there were.
  lemma ListsExactly(results: seq<StepResult>, failOnSkipped: bool)
    ensures var verdict := JudgeCheck(results, failOnSkipped);
            && verdict.failed == NamesWhere(results, DidFail)
                                 + (if failOnSkipped then NamesWhere(results, HadNothingToRun) else [])
            && verdict.skipped == NamesWhere(results, WasSkipped)
            && verdict.steps == |results|
  {
    SameFilter(results, Failed, DidFail);
    SameFilter(results, IsGap, HadNothingToRun);
    SameFilter(results, (result: StepResult) => result.status == Status.Skipped, WasSkipped);
    FilteredNames(results, DidFail);
    FilteredNames(results, HadNothingToRun);
    FilteredNames(results, WasSkipped);
    NamesSplit(Filter(results, Failed), if failOnSkipped then Filter(results, IsGap) else []);
  }

  lemma {:induction false} SameFilter(results: seq<StepResult>, keep: StepResult -> bool, same: StepResult -> bool)
    requires forall result :: keep(result) == same(result)
    ensures Filter(results, keep) == Filter(results, same)
  {
    if results != [] {
      SameFilter(results[1..], keep, same);
    }
  }
}
