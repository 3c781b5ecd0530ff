// The scheduler of src/commands/check-run.ts as a transition system: steps wait on other steps,
// start while a slot is free, and complete in any order.
module Schedule {

  // Each step of the plan with the in-plan steps it waits on.
  ghost predicate IsPlan<N>(waits: map<N, set<N>>) {
    forall step | step in waits :: waits[step] <= waits.Keys
  }

  datatype State<N> = State(pending: set<N>, running: set<N>, finished: set<N>)

  function Initial<N>(waits: map<N, set<N>>): State<N> {
    State(waits.Keys, {}, {})
  }

  ghost predicate Starts<N>(waits: map<N, set<N>>, slots: nat, before: State<N>, after: State<N>, step: N) {
    && step in before.pending && step in waits
    && |before.running| < slots
    && waits[step] <= before.finished
    && after == State(before.pending - {step}, before.running + {step}, before.finished)
  }

  ghost predicate Completes<N>(before: State<N>, after: State<N>, done: set<N>) {
    && done != {} && done <= before.running
    && after == State(before.pending, before.running - done, before.finished + done)
  }

  ghost predicate Next<N(!new)>(waits: map<N, set<N>>, slots: nat, before: State<N>, after: State<N>) {
    || (exists step :: Starts(waits, slots, before, after, step))
    || (exists done :: Completes(before, after, done))
  }

  ghost predicate IsRun<N(!new)>(waits: map<N, set<N>>, slots: nat, states: seq<State<N>>) {
    && states != []
    && states[0] == Initial(waits)
    && forall k | 0 < k < |states| :: Next(waits, slots, states[k - 1], states[k])
  }

  lemma RunExtends<N(!new)>(waits: map<N, set<N>>, slots: nat, states: seq<State<N>>, next: State<N>)
    requires IsRun(waits, slots, states) && Next(waits, slots, states[|states| - 1], next)
    ensures IsRun(waits, slots, states + [next])
  {
  }

  // No step can start and none is running.
  ghost predicate Halted<N>(waits: map<N, set<N>>, state: State<N>) {
    state.running == {} && forall step | step in state.pending && step in waits :: !(waits[step] <= state.finished)
  }

  // ----- The least closed set ---------------------------------------------------------------

  // `steps` holds every step whose waited-on steps it holds.
  ghost predicate Closed<N>(waits: map<N, set<N>>, steps: set<N>) {
    forall step | step in waits && waits[step] <= steps :: step in steps
  }

  // The steps every closed set holds.
  ghost function Runnable<N(!new)>(waits: map<N, set<N>>): set<N> {
    set step | step in waits && forall steps | Closed(waits, steps) :: step in steps
  }

  lemma RunnableIsClosed<N(!new)>(waits: map<N, set<N>>)
    ensures Closed(waits, Runnable(waits))
  {
    forall step | step in waits && waits[step] <= Runnable(waits)
      ensures step in Runnable(waits)
    {
      forall steps | Closed(waits, steps)
        ensures step in steps
      {
        assert waits[step] <= steps;
      }
    }
  }

  // ----- Safety in every reachable state ----------------------------------------------------

  // Every step of the plan is in exactly one of the three sets.
  ghost predicate Partitions<N(!new)>(waits: map<N, set<N>>, state: State<N>) {
    && (forall step :: step in state.pending || step in state.running || step in state.finished <==> step in waits)
    && (forall step | step in state.pending :: step !in state.running && step !in state.finished)
    && (forall step | step in state.running :: step !in state.finished)
  }

  ghost predicate Safe<N(!new)>(waits: map<N, set<N>>, slots: nat, state: State<N>) {
    && Partitions(waits, state)
    // no more steps run than there are slots
    && |state.running| <= slots
    // what a started step waits on has finished, and only steps of the least closed set start
    && (forall step | step in state.running || step in state.finished ::
          step in waits && waits[step] <= state.finished && step in Runnable(waits))
  }

  // Each transition lowers twice the pending steps plus the running ones.
  function Work<N>(state: State<N>): nat {
    2 * |state.pending| + |state.running|
  }

  lemma Move<N>(from: set<N>, to: set<N>, moved: set<N>)
    requires moved <= from && forall step | step in moved :: step !in to
    ensures |from - moved| == |from| - |moved| && |to + moved| == |to| + |moved|
  {
    assert from == (from - moved) + moved;
  }

  lemma StartIsSafe<N(!new)>(waits: map<N, set<N>>, slots: nat, before: State<N>, after: State<N>, step: N)
    requires Safe(waits, slots, before) && Starts(waits, slots, before, after, step)
    ensures Safe(waits, slots, after) && Work(after) < Work(before)
  {
    RunnableIsClosed(waits);
    assert waits[step] <= Runnable(waits);
    Move(before.pending, before.running, {step});
  }

  lemma CompletionIsSafe<N(!new)>(waits: map<N, set<N>>, slots: nat, before: State<N>, after: State<N>, done: set<N>)
    requires Safe(waits, slots, before) && Completes(before, after, done)
    ensures Safe(waits, slots, after) && Work(after) < Work(before)
  {
    assert Partitions(waits, after);
    assert Work(after) < Work(before) && |after.running| <= |before.running| by {
      Move(before.running, before.finished, done);
    }
    forall step | step in after.running || step in after.finished
      ensures step in waits && waits[step] <= after.finished && step in Runnable(waits)
    {
      assert step in before.running || step in before.finished;
    }
  }

  lemma NextIsSafe<N(!new)>(waits: map<N, set<N>>, slots: nat, before: State<N>, after: State<N>)
    requires Safe(waits, slots, before) && Next(waits, slots, before, after)
    ensures Safe(waits, slots, after) && Work(after) < Work(before)
  {
    if step :| Starts(waits, slots, before, after, step) {
      StartIsSafe(waits, slots, before, after, step);
    } else {
      var done :| Completes(before, after, done);
      CompletionIsSafe(waits, slots, before, after, done);
    }
  }

  lemma {:induction false} RunsAreSafe<N(!new)>(waits: map<N, set<N>>, slots: nat, states: seq<State<N>>, k: nat)
    requires IsRun(waits, slots, states) && k < |states|
    ensures Safe(waits, slots, states[k])
  {
    if k > 0 {
      RunsAreSafe(waits, slots, states, k - 1);
      NextIsSafe(waits, slots, states[k - 1], states[k]);
    }
  }

  // A run has at most two transitions for each step of the plan.
  lemma {:induction false} RunsEnd<N(!new)>(waits: map<N, set<N>>, slots: nat, states: seq<State<N>>, k: nat)
    requires IsRun(waits, slots, states) && k < |states|
    ensures k + Work(states[k]) <= 2 * |waits.Keys|
  {
    if k > 0 {
      RunsEnd(waits, slots, states, k - 1);
      RunsAreSafe(waits, slots, states, k - 1);
      NextIsSafe(waits, slots, states[k - 1], states[k]);
    }
  }

  // Whatever the order of completion and the number of slots, a run that can go no further has
  // finished exactly the least closed set of steps.
  lemma HaltedRunsFinishTheSameSteps<N(!new)>(waits: map<N, set<N>>, slots: nat, states: seq<State<N>>)
    requires IsRun(waits, slots, states) && Halted(waits, states[|states| - 1])
    ensures states[|states| - 1].finished == Runnable(waits)
  {
    var last := states[|states| - 1];
    RunsAreSafe(waits, slots, states, |states| - 1);
    assert Closed(waits, last.finished);
  }

  // With a slot to use, no state is stuck: either nothing is left to do or some step can be taken.
  lemma HaltsOrGoesOn<N(!new)>(waits: map<N, set<N>>, slots: nat, state: State<N>) returns (after: State<N>)
    requires slots > 0
    ensures Halted(waits, state) || Next(waits, slots, state, after)
  {
    after := state;
    if state.running != {} {
      after := State(state.pending, state.running - state.running, state.finished + state.running);
      assert Completes(state, after, state.running);
    } else if step :| step in state.pending && step in waits && waits[step] <= state.finished {
      after := State(state.pending - {step}, state.running + {step}, state.finished);
      assert Starts(waits, slots, state, after, step);
    }
  }

  // A halted run leaves a step out only when it waits on another step left out.
  lemma StuckStepsWaitOnStuckSteps<N(!new)>(waits: map<N, set<N>>, slots: nat, states: seq<State<N>>, step: N)
    requires IsPlan(waits) && IsRun(waits, slots, states) && Halted(waits, states[|states| - 1])
    requires step in states[|states| - 1].pending
    ensures step in waits && exists other :: other in waits[step] && other in states[|states| - 1].pending
  {
    var last := states[|states| - 1];
    RunsAreSafe(waits, slots, states, |states| - 1);
    var other :| other in waits[step] && other !in last.finished;
  }

  // ----- Acyclic plans ----------------------------------------------------------------------

  // Steps of the plan, each waiting on the one after it.
  ghost predicate IsChain<N>(waits: map<N, set<N>>, chain: seq<N>) {
    && (forall k | 0 <= k < |chain| :: chain[k] in waits)
    && (forall k | 0 < k < |chain| :: chain[k] in waits[chain[k - 1]])
  }

  // No step waits on itself, directly or through others.
  ghost predicate Acyclic<N(!new)>(waits: map<N, set<N>>) {
    forall chain | IsChain(waits, chain) && 1 < |chain| :: chain[0] != chain[|chain| - 1]
  }

  // Every step of the set waits on another one of it.
  ghost predicate IsStuck<N>(waits: map<N, set<N>>, stuck: set<N>) {
    forall step | step in stuck :: step in waits && !(waits[step] !! stuck)
  }

  lemma LeftOutIsStuck<N(!new)>(waits: map<N, set<N>>)
    requires IsPlan(waits)
    ensures IsStuck(waits, waits.Keys - Runnable(waits))
  {
    RunnableIsClosed(waits);
    forall step | step in waits && step !in Runnable(waits)
      ensures !(waits[step] !! waits.Keys - Runnable(waits))
    {
      var other :| other in waits[step] && other !in Runnable(waits);
    }
  }

  // So it holds chains of any length.
  lemma {:induction false} StuckChain<N>(waits: map<N, set<N>>, stuck: set<N>, step: N, n: nat)
      returns (chain: seq<N>)
    requires IsStuck(waits, stuck) && step in stuck
    ensures |chain| == n + 1 && chain[0] == step && IsChain(waits, chain)
  {
    if n == 0 {
      chain := [step];
    } else {
      var other :| other in waits[step] && other in stuck;
      var rest := StuckChain(waits, stuck, other, n - 1);
      chain := [step] + rest;
    }
  }

  lemma {:induction false} DistinctAreFew<N>(chain: seq<N>, steps: set<N>)
    requires forall k | 0 <= k < |chain| :: chain[k] in steps
    requires forall j, k | 0 <= j < k < |chain| :: chain[j] != chain[k]
    ensures |chain| <= |steps|
  {
    if chain != [] {
      var first := chain[0];
      forall k | 0 <= k < |chain[1..]|
        ensures chain[1..][k] in steps - {first}
      {
        assert chain[0] != chain[k + 1];
      }
      DistinctAreFew(chain[1..], steps - {first});
    }
  }

  lemma RepeatIsACycle<N(!new)>(waits: map<N, set<N>>, chain: seq<N>, j: nat, k: nat)
    requires IsChain(waits, chain) && j < k < |chain| && chain[j] == chain[k]
    ensures !Acyclic(waits)
  {
    var cycle := chain[j..k + 1];
    assert IsChain(waits, cycle) && 1 < |cycle|;
    assert cycle[0] == cycle[|cycle| - 1];
  }

  lemma AcyclicStepsRun<N(!new)>(waits: map<N, set<N>>, step: N)
    requires IsPlan(waits) && Acyclic(waits) && step in waits
    ensures step in Runnable(waits)
  {
    if step !in Runnable(waits) {
      LeftOutIsStuck(waits);
      var chain := StuckChain(waits, waits.Keys - Runnable(waits), step, |waits.Keys|);
      if forall j, k | 0 <= j < k < |chain| :: chain[j] != chain[k] {
        DistinctAreFew(chain, waits.Keys);
      } else {
        var j, k :| 0 <= j < k < |chain| && chain[j] == chain[k];
        RepeatIsACycle(waits, chain, j, k);
      }
    }
  }

  // The steps that can finish within `k` waves.
  ghost function Wave<N(!new)>(waits: map<N, set<N>>, k: nat): set<N> {
    if k == 0 then {} else set step | step in waits && waits[step] <= Wave(waits, k - 1)
  }

  lemma {:induction false} WavesGrow<N(!new)>(waits: map<N, set<N>>, j: nat, k: nat)
    requires j <= k
    ensures Wave(waits, j) <= Wave(waits, k)
  {
    if 0 < j {
      WavesGrow(waits, j - 1, k - 1);
    }
  }

  ghost predicate InWave<N(!new)>(waits: map<N, set<N>>, step: N, k: nat) {
    step in Wave(waits, k)
  }

  lemma {:induction false} CommonWave<N(!new)>(waits: map<N, set<N>>, steps: set<N>) returns (k: nat)
    requires forall step | step in steps :: exists j: nat :: InWave(waits, step, j)
    ensures steps <= Wave(waits, k)
  {
    if steps == {} {
      k := 0;
    } else {
      var step :| step in steps;
      var j: nat :| InWave(waits, step, j);
      var rest := CommonWave(waits, steps - {step});
      k := if j < rest then rest else j;
      WavesGrow(waits, j, k);
      WavesGrow(waits, rest, k);
    }
  }

  lemma WavesReachRunnable<N(!new)>(waits: map<N, set<N>>) returns (k: nat)
    ensures Runnable(waits) <= Wave(waits, k)
  {
    var reached := set step | step in waits && exists j: nat :: InWave(waits, step, j);
    forall step | step in waits && waits[step] <= reached
      ensures step in reached
    {
      var j := CommonWave(waits, waits[step]);
      assert InWave(waits, step, j + 1);
    }
    assert Closed(waits, reached);
    k := CommonWave(waits, reached);
  }

  ghost function FirstWave<N(!new)>(waits: map<N, set<N>>, step: N, k: nat): (first: nat)
    requires step in Wave(waits, k)
    ensures 0 < first <= k && step in Wave(waits, first) && step !in Wave(waits, first - 1)
    decreases k
  {
    if step in Wave(waits, k - 1) then FirstWave(waits, step, k - 1) else k
  }

  lemma {:induction false} FirstWavesRise<N(!new)>(waits: map<N, set<N>>, step: N, other: N, k: nat)
    requires step in Wave(waits, k) && other in Wave(waits, k)
    requires step in waits && other in waits[step]
    ensures FirstWave(waits, other, k) < FirstWave(waits, step, k)
  {
    var first, second := FirstWave(waits, other, k), FirstWave(waits, step, k);
    assert other in Wave(waits, second - 1);
    if second <= first {
      WavesGrow(waits, second - 1, first - 1);
    }
  }

  // Waiting lowers the first wave a step is in.
  lemma {:induction false} ChainsDescend<N(!new)>(waits: map<N, set<N>>, chain: seq<N>, k: nat)
    requires IsChain(waits, chain) && 1 < |chain| && forall i | 0 <= i < |chain| :: chain[i] in Wave(waits, k)
    ensures FirstWave(waits, chain[|chain| - 1], k) < FirstWave(waits, chain[0], k)
  {
    var n := |chain| - 1;
    assert chain[n] in waits[chain[n - 1]];
    FirstWavesRise(waits, chain[n - 1], chain[n], k);
    if 1 < n {
      ChainsDescend(waits, chain[..n], k);
    }
  }

  // Every step of the plan can run exactly when no step waits on itself through others.
  lemma AllRunExactlyWhenAcyclic<N(!new)>(waits: map<N, set<N>>)
    requires IsPlan(waits)
    ensures Runnable(waits) == waits.Keys <==> Acyclic(waits)
  {
    if Acyclic(waits) {
      forall step | step in waits
        ensures step in Runnable(waits)
      {
        AcyclicStepsRun(waits, step);
      }
    }
    if Runnable(waits) == waits.Keys {
      var k := WavesReachRunnable(waits);
      forall chain | IsChain(waits, chain) && 1 < |chain|
        ensures chain[0] != chain[|chain| - 1]
      {
        ChainsDescend(waits, chain, k);
      }
    }
  }
}
