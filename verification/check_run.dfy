// The loop of src/commands/check-run.ts, driving the schedule with its pending list and its maps
// of running and finished steps.
module CheckRun {
  import opened Prelude
  import opened Schedule

  datatype Status = Pass | Fail | Skipped

  datatype SkipKind = Config | Unavailable

  datatype StepPlan = StepPlan(name: string, after: seq<string>)

  datatype StepResult = StepResult(name: string, status: Status, skipKind: Option<SkipKind>, exitCode: Option<int>)

  function Names(plans: seq<StepPlan>): set<string> {
    set plan | plan in plans :: plan.name
  }

  ghost predicate DistinctNames(plans: seq<StepPlan>) {
    forall i, j | 0 <= i < j < |plans| :: plans[i].name != plans[j].name
  }

  // Every step the plan runs `after`, if in the plan at all, is among `finished`.
  predicate Ready(names: set<string>, finished: set<string>, plan: StepPlan) {
    forall dependency | dependency in plan.after :: dependency !in names || dependency in finished
  }

  function Slots(jobs: int): (slots: nat)
    ensures 1 <= slots && jobs <= slots && (slots == 1 || slots == jobs)
  {
    if jobs < 1 then 1 else jobs
  }

  // The in-plan steps a step runs after.
  ghost function Waits(plans: seq<StepPlan>): map<string, set<string>> {
    map plan | plan in plans :: plan.name := WaitsOf(plans, plan.name)
  }

  ghost function WaitsOf(plans: seq<StepPlan>, name: string): set<string> {
    set plan, dependency |
      plan in plans && plan.name == name && dependency in plan.after && dependency in Names(plans) :: dependency
  }

  lemma WaitsIsPlan(plans: seq<StepPlan>)
    ensures IsPlan(Waits(plans)) && Waits(plans).Keys == Names(plans)
  {
  }

  lemma ReadyMeansWaitsDone(plans: seq<StepPlan>, finished: set<string>, plan: StepPlan)
    requires DistinctNames(plans) && plan in plans
    ensures Ready(Names(plans), finished, plan) <==> Waits(plans)[plan.name] <= finished
  {
    assert forall other | other in plans && other.name == plan.name :: other == plan;
  }

  // The pending list: steps of the plan, none twice.
  ghost predicate Waiting(plans: seq<StepPlan>, pending: seq<StepPlan>) {
    DistinctNames(pending) && forall i | 0 <= i < |pending| :: pending[i] in plans
  }

  lemma RemovedName(plans: seq<StepPlan>, pending: seq<StepPlan>, i: nat)
    requires Waiting(plans, pending) && i < |pending|
    ensures Waiting(plans, pending[..i] + pending[i + 1..])
    ensures Names(pending[..i] + pending[i + 1..]) == Names(pending) - {pending[i].name}
  {
    var rest := pending[..i] + pending[i + 1..];
    forall name | name in Names(pending) && name != pending[i].name
      ensures name in Names(rest)
    {
      var k :| 0 <= k < |pending| && pending[k].name == name;
      assert rest[if k < i then k else k - 1] == pending[k];
    }
    forall k | 0 <= k < |rest|
      ensures rest[k] == pending[if k < i then k else k + 1]
    {
    }
  }

  // ----- The loop ---------------------------------------------------------------------------

  // The running steps, by name.
  ghost predicate RunsItsNames(plans: seq<StepPlan>, running: map<string, StepPlan>) {
    forall name | name in running :: running[name] in plans && running[name].name == name
  }

  lemma StartedName(plans: seq<StepPlan>, running: map<string, StepPlan>, plan: StepPlan)
    requires RunsItsNames(plans, running) && plan in plans
    ensures RunsItsNames(plans, running[plan.name := plan])
    ensures running[plan.name := plan].Keys == running.Keys + {plan.name}
  {
  }

  // The loop's variables are the last state of a run of the schedule.
  ghost predicate Tracks(plans: seq<StepPlan>, jobs: int, pending: seq<StepPlan>, running: map<string, StepPlan>,
                         finished: set<string>, states: seq<State<string>>) {
    && DistinctNames(plans) && Waiting(plans, pending)
    && IsRun(Waits(plans), Slots(jobs), states)
    && |states| <= 2 * |Names(plans)| + 1
    && states[|states| - 1] == State(Names(pending), running.Keys, finished)
    && RunsItsNames(plans, running)
  }

  lemma InitialTracks(plans: seq<StepPlan>, jobs: int)
    requires DistinctNames(plans)
    ensures Tracks(plans, jobs, plans, map[], {}, [Initial(Waits(plans))])
  {
    WaitsIsPlan(plans);
  }

  lemma RunIsShort(plans: seq<StepPlan>, jobs: int, states: seq<State<string>>)
    requires IsRun(Waits(plans), Slots(jobs), states)
    ensures |states| <= 2 * |Names(plans)| + 1
  {
    WaitsIsPlan(plans);
    RunsEnd(Waits(plans), Slots(jobs), states, |states| - 1);
  }

  lemma StartTracks(plans: seq<StepPlan>, jobs: int, pending: seq<StepPlan>, running: map<string, StepPlan>,
                    finished: set<string>, states: seq<State<string>>, i: nat) returns (next: State<string>)
    requires Tracks(plans, jobs, pending, running, finished, states)
    requires i < |pending| && |running| < Slots(jobs) && Ready(Names(plans), finished, pending[i])
    ensures Tracks(plans, jobs, pending[..i] + pending[i + 1..], running[pending[i].name := pending[i]], finished,
                   states + [next])
  {
    var last, plan := states[|states| - 1], pending[i];
    next := State(last.pending - {plan.name}, last.running + {plan.name}, finished);
    RemovedName(plans, pending, i);
    StepStarts(plans, jobs, last, next, plan);
    RunExtends(Waits(plans), Slots(jobs), states, next);
    StartedName(plans, running, plan);
    RunIsShort(plans, jobs, states + [next]);
  }

  lemma StepStarts(plans: seq<StepPlan>, jobs: int, before: State<string>, after: State<string>, plan: StepPlan)
    requires DistinctNames(plans) && plan in plans && plan.name in before.pending
    requires |before.running| < Slots(jobs) && Ready(Names(plans), before.finished, plan)
    requires after == State(before.pending - {plan.name}, before.running + {plan.name}, before.finished)
    ensures Next(Waits(plans), Slots(jobs), before, after)
  {
    ReadyMeansWaitsDone(plans, before.finished, plan);
    assert Starts(Waits(plans), Slots(jobs), before, after, plan.name);
  }

  lemma CompletionTracks(plans: seq<StepPlan>, jobs: int, pending: seq<StepPlan>, running: map<string, StepPlan>,
                         finished: set<string>, states: seq<State<string>>, done: set<string>)
      returns (next: State<string>)
    requires Tracks(plans, jobs, pending, running, finished, states)
    requires done != {} && done <= running.Keys
    ensures Tracks(plans, jobs, pending, running - done, finished + done, states + [next])
  {
    var last := states[|states| - 1];
    next := State(last.pending, last.running - done, finished + done);
    assert Completes(last, next, done);
    RunExtends(Waits(plans), Slots(jobs), states, next);
    assert (running - done).Keys == running.Keys - done;
    RunIsShort(plans, jobs, states + [next]);
  }

  lemma HaltTracks(plans: seq<StepPlan>, jobs: int, pending: seq<StepPlan>, running: map<string, StepPlan>,
                   finished: set<string>, states: seq<State<string>>)
    requires Tracks(plans, jobs, pending, running, finished, states) && running == map[]
    requires forall i | 0 <= i < |pending| :: !Ready(Names(plans), finished, pending[i])
    ensures Halted(Waits(plans), states[|states| - 1])
    ensures finished == Runnable(Waits(plans))
  {
    forall name | name in Names(pending) && name in Waits(plans)
      ensures !(Waits(plans)[name] <= finished)
    {
      var i :| 0 <= i < |pending| && pending[i].name == name;
      ReadyMeansWaitsDone(plans, finished, pending[i]);
    }
    HaltedRunsFinishTheSameSteps(Waits(plans), Slots(jobs), states);
  }

  // Of the first `cut` waiting steps, those that are not ready, and then the rest.
  function Left(names: set<string>, finished: set<string>, waiting: seq<StepPlan>, cut: nat): seq<StepPlan>
    requires cut <= |waiting|
  {
    Unready(names, finished, waiting, cut) + waiting[cut..]
  }

  function Unready(names: set<string>, finished: set<string>, waiting: seq<StepPlan>, cut: nat): seq<StepPlan>
    requires cut <= |waiting|
  {
    Somes(seq(cut, i requires 0 <= i < cut => if Ready(names, finished, waiting[i]) then None else Some(waiting[i])))
  }

  // The steps among them that are started.
  function Launched(names: set<string>, finished: set<string>, waiting: seq<StepPlan>, cut: nat): set<string>
    requires cut <= |waiting|
  {
    set i | 0 <= i < cut && Ready(names, finished, waiting[i]) :: waiting[i].name
  }

  lemma LeftNext(names: set<string>, finished: set<string>, waiting: seq<StepPlan>, cut: nat)
    requires cut < |waiting|
    ensures var before, after := Unready(names, finished, waiting, cut), Unready(names, finished, waiting, cut + 1);
            var left := Left(names, finished, waiting, cut);
            && left[|before|] == waiting[cut]
            && (if Ready(names, finished, waiting[cut]) then
                  && after == before
                  && Left(names, finished, waiting, cut + 1) == left[..|before|] + left[|before| + 1..]
                  && Launched(names, finished, waiting, cut + 1)
                     == Launched(names, finished, waiting, cut) + {waiting[cut].name}
                else
                  && after == before + [waiting[cut]]
                  && Left(names, finished, waiting, cut + 1) == left
                  && Launched(names, finished, waiting, cut + 1) == Launched(names, finished, waiting, cut))
  {
    var parts := seq(cut, i requires 0 <= i < cut =>
      if Ready(names, finished, waiting[i]) then None else Some(waiting[i]));
    var last := if Ready(names, finished, waiting[cut]) then None else Some(waiting[cut]);
    SomesAppend(parts, last);
    assert seq(cut + 1, i requires 0 <= i < cut + 1 =>
        if Ready(names, finished, waiting[i]) then None else Some(waiting[i])) == parts + [last];
    assert waiting[cut..] == [waiting[cut]] + waiting[cut + 1..];
  }

  // The pass has looked at the first `cut` waiting steps and stands at `index` of what is left.
  ghost predicate Filling(names: set<string>, finished: set<string>, waiting: seq<StepPlan>,
                          started: map<string, StepPlan>, cut: nat, index: nat, pending: seq<StepPlan>,
                          running: map<string, StepPlan>) {
    && cut <= |waiting| && index == |Unready(names, finished, waiting, cut)|
    && pending == Left(names, finished, waiting, cut)
    && running.Keys == started.Keys + Launched(names, finished, waiting, cut)
  }

  lemma FillingNext(names: set<string>, finished: set<string>, waiting: seq<StepPlan>, started: map<string, StepPlan>,
                    cut: nat, index: nat, pending: seq<StepPlan>, running: map<string, StepPlan>)
    requires Filling(names, finished, waiting, started, cut, index, pending, running) && index < |pending|
    ensures var plan := pending[index];
            if Ready(names, finished, plan) then
              Filling(names, finished, waiting, started, cut + 1, index, pending[..index] + pending[index + 1..],
                      running[plan.name := plan])
            else Filling(names, finished, waiting, started, cut + 1, index + 1, pending, running)
  {
    assert cut < |waiting|;
    LeftNext(names, finished, waiting, cut);
  }

  // The pass ended somewhere: what came before was started when ready, the rest was not looked at.
  ghost predicate FilledInOrder(names: set<string>, finished: set<string>, waiting: seq<StepPlan>,
                                started: map<string, StepPlan>, pending: seq<StepPlan>,
                                running: map<string, StepPlan>) {
    exists cut: nat | cut <= |waiting| ::
      && pending == Left(names, finished, waiting, cut)
      && running.Keys == started.Keys + Launched(names, finished, waiting, cut)
  }

  // What the pass keeps, after looking at the first `cut` waiting steps.
  ghost predicate InPass(plans: seq<StepPlan>, jobs: int, finished: set<string>, waiting: seq<StepPlan>,
                         started: map<string, StepPlan>, cut: nat, index: nat, pending: seq<StepPlan>,
                         running: map<string, StepPlan>, states: seq<State<string>>) {
    && Filling(Names(plans), finished, waiting, started, cut, index, pending, running)
    && Tracks(plans, jobs, pending, running, finished, states)
    && index <= |pending| && forall i | 0 <= i < index :: !Ready(Names(plans), finished, pending[i])
  }

  lemma PassNext(plans: seq<StepPlan>, jobs: int, finished: set<string>, waiting: seq<StepPlan>,
                 started: map<string, StepPlan>, cut: nat, index: nat, pending: seq<StepPlan>,
                 running: map<string, StepPlan>, states: seq<State<string>>)
      returns (next: seq<State<string>>)
    requires InPass(plans, jobs, finished, waiting, started, cut, index, pending, running, states)
    requires index < |pending| && |running| < Slots(jobs)
    ensures |states| <= |next|
    ensures var plan := pending[index];
            if Ready(Names(plans), finished, plan) then
              InPass(plans, jobs, finished, waiting, started, cut + 1, index, pending[..index] + pending[index + 1..],
                     running[plan.name := plan], next)
            else InPass(plans, jobs, finished, waiting, started, cut + 1, index + 1, pending, running, next)
  {
    FillingNext(Names(plans), finished, waiting, started, cut, index, pending, running);
    next := states;
    if Ready(Names(plans), finished, pending[index]) {
      var state := StartTracks(plans, jobs, pending, running, finished, states, index);
      next := states + [state];
    }
  }

  // Starts ready steps in plan order until the slots are full or nothing pending is ready.
  method Fill(plans: seq<StepPlan>, jobs: int, waiting: seq<StepPlan>, started: map<string, StepPlan>,
              finished: map<string, StepResult>, ghost before: seq<State<string>>)
      returns (pending: seq<StepPlan>, running: map<string, StepPlan>, ghost states: seq<State<string>>)
    requires Tracks(plans, jobs, waiting, started, finished.Keys, before)
    ensures Tracks(plans, jobs, pending, running, finished.Keys, states) && |before| <= |states|
    ensures |running| < Slots(jobs) ==> forall i | 0 <= i < |pending| :: !Ready(Names(plans), finished.Keys, pending[i])
    ensures FilledInOrder(Names(plans), finished.Keys, waiting, started, pending, running)
  {
    pending, running, states := waiting, started, before;
    ghost var cut: nat := 0;
    var index := 0;
    while index < |pending| && |running| < Slots(jobs)
      invariant InPass(plans, jobs, finished.Keys, waiting, started, cut, index, pending, running, states)
      invariant |before| <= |states|
      decreases |pending| - index
    {
      var plan := pending[index];
      states := PassNext(plans, jobs, finished.Keys, waiting, started, cut, index, pending, running, states);
      cut := cut + 1;
      if !Ready(Names(plans), finished.Keys, plan) {
        index := index + 1;
      } else {
        pending := pending[..index] + pending[index + 1..];
        running := running[plan.name := plan];
      }
    }
  }

  // `plans.flatMap` over the results: the finished steps' results, in plan order.
  function InPlanOrder(plans: seq<StepPlan>, finished: set<string>, run: StepPlan -> StepResult): seq<StepResult> {
    if plans == [] then []
    else (if plans[0].name in finished then [run(plans[0])] else []) + InPlanOrder(plans[1..], finished, run)
  }

  // `run` is what each step's child process comes to. The results are those of the least closed
  // set of steps, whatever completes when; `states` is the run the loop took.
  method RunCheckSteps(plans: seq<StepPlan>, jobs: int, run: StepPlan -> StepResult)
      returns (results: seq<StepResult>, ghost states: seq<State<string>>)
    requires DistinctNames(plans)
    ensures IsRun(Waits(plans), Slots(jobs), states) && Halted(Waits(plans), states[|states| - 1])
    ensures results == InPlanOrder(plans, Runnable(Waits(plans)), run)
  {
    var finished, pending;
    finished, pending, states := RunToTheEnd(plans, jobs, run);
    HaltTracks(plans, jobs, pending, map[], finished.Keys, states);
    results := Collect(plans, finished, run);
  }

  method RunToTheEnd(plans: seq<StepPlan>, jobs: int, run: StepPlan -> StepResult)
      returns (finished: map<string, StepResult>, pending: seq<StepPlan>, ghost states: seq<State<string>>)
    requires DistinctNames(plans)
    ensures Tracks(plans, jobs, pending, map[], finished.Keys, states) && ResultsOf(plans, finished, run)
    ensures forall i | 0 <= i < |pending| :: !Ready(Names(plans), finished.Keys, pending[i])
  {
    finished, pending := map[], plans;
    var running: map<string, StepPlan> := map[];
    InitialTracks(plans, jobs);
    states := [Initial(Waits(plans))];
    while pending != [] || running != map[]
      invariant Tracks(plans, jobs, pending, running, finished.Keys, states)
      invariant ResultsOf(plans, finished, run)
      decreases 2 * |Names(plans)| + 1 - |states|
    {
      pending, running, states := Fill(plans, jobs, pending, running, finished, states);
      if |running| == 0 {
        break;
      }
      // The race of the running steps: some of them complete before the loop goes on.
      var done :| done != {} && done <= running.Keys;
      ghost var next := CompletionTracks(plans, jobs, pending, running, finished.Keys, states, done);
      ResultsMerge(plans, running, finished, run, done);
      finished := finished + (map name | name in done :: run(running[name]));
      running := running - done;
      states := states + [next];
    }
  }

  ghost predicate ResultsOf(plans: seq<StepPlan>, finished: map<string, StepResult>, run: StepPlan -> StepResult) {
    forall plan | plan in plans && plan.name in finished :: finished[plan.name] == run(plan)
  }

  lemma ResultsMerge(plans: seq<StepPlan>, running: map<string, StepPlan>, finished: map<string, StepResult>,
                     run: StepPlan -> StepResult, done: set<string>)
    requires DistinctNames(plans) && ResultsOf(plans, finished, run) && done <= running.Keys
    requires forall name | name in running :: running[name] in plans && running[name].name == name
    ensures var merged := finished + (map name | name in done :: run(running[name]));
            ResultsOf(plans, merged, run) && merged.Keys == finished.Keys + done
  {
    forall plan | plan in plans && plan.name in done
      ensures running[plan.name] == plan
    {
    }
  }

  lemma NextInPlanOrder(plans: seq<StepPlan>, finished: set<string>, run: StepPlan -> StepResult, i: nat,
                        results: seq<StepResult>)
    requires i < |plans|
    ensures results + InPlanOrder(plans[i..], finished, run)
         == (if plans[i].name in finished then results + [run(plans[i])] else results)
            + InPlanOrder(plans[i + 1..], finished, run)
  {
    assert plans[i..][0] == plans[i] && plans[i..][1..] == plans[i + 1..];
  }

  method Collect(plans: seq<StepPlan>, finished: map<string, StepResult>, run: StepPlan -> StepResult)
      returns (results: seq<StepResult>)
    requires ResultsOf(plans, finished, run)
    ensures results == InPlanOrder(plans, finished.Keys, run)
  {
    results := [];
    for i := 0 to |plans|
      invariant results + InPlanOrder(plans[i..], finished.Keys, run) == InPlanOrder(plans, finished.Keys, run)
    {
      NextInPlanOrder(plans, finished.Keys, run, i, results);
      if plans[i].name in finished {
        results := results + [finished[plans[i].name]];
      }
    }
  }
}
