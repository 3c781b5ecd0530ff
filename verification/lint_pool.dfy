// The bounded worker pool of src/commands/lint-per-patch.ts: workers that share one index, each
// taking the next patch, linting it and storing the outcome in that patch's slot.
module LintPool {
  import opened Prelude

  const PER_PATCH_LINT_CONCURRENCY: nat := 8

  // A worker at the head of its loop, at work on a slot before or after it asked for the queue-wide
  // program, or finished.
  datatype Worker = AtLoop | Linting(slot: nat) | Slicing(slot: nat) | Finished

  // `builds` counts how often the queue-wide program was built.
  datatype Pool<R> = Pool(index: nat, workers: seq<Worker>, slots: seq<Option<R>>, builds: nat)

  datatype Action = Claim | Stop | NeedProgram | Fill

  function WorkerCount(n: nat): (count: nat)
    ensures count <= n && count <= PER_PATCH_LINT_CONCURRENCY
    ensures count == n || count == PER_PATCH_LINT_CONCURRENCY
  {
    if n < PER_PATCH_LINT_CONCURRENCY then n else PER_PATCH_LINT_CONCURRENCY
  }

  function Start<R>(n: nat): Pool<R> {
    Pool(0, seq(WorkerCount(n), _ => AtLoop), seq(n, _ => None), 0)
  }

  // One step of worker `w`; `lint` is the outcome of a slot and `needs` whether it takes the
  // program, which the first worker to ask builds and every other one shares.
  ghost predicate Steps<R>(lint: nat -> R, needs: nat -> bool, before: Pool<R>, w: nat, action: Action, after: Pool<R>)
    requires w < |before.workers|
  {
    match action
    case Claim =>
      && before.workers[w] == AtLoop && before.index < |before.slots|
      && after == before.(index := before.index + 1, workers := before.workers[w := Linting(before.index)])
    case Stop =>
      && before.workers[w] == AtLoop && before.index >= |before.slots|
      && after == before.(workers := before.workers[w := Finished])
    case NeedProgram =>
      && before.workers[w].Linting? && needs(before.workers[w].slot)
      && after == before.(workers := before.workers[w := Slicing(before.workers[w].slot)],
                          builds := if before.builds == 0 then 1 else before.builds)
    case Fill =>
      && IsBusy(before.workers[w]) && (before.workers[w].Linting? ==> !needs(before.workers[w].slot))
      && before.workers[w].slot < |before.slots|
      && after == before.(workers := before.workers[w := AtLoop],
                          slots := before.slots[before.workers[w].slot := Some(lint(before.workers[w].slot))])
  }

  predicate IsBusy(worker: Worker) {
    worker.Linting? || worker.Slicing?
  }

  // ----- What every reachable state keeps ---------------------------------------------------

  ghost predicate Works<R>(pool: Pool<R>, i: nat) {
    exists w | 0 <= w < |pool.workers| :: IsBusy(pool.workers[w]) && pool.workers[w].slot == i
  }

  // No two workers hold one slot, and a held slot is taken and still empty.
  ghost predicate HoldsApart<R>(pool: Pool<R>) {
    && pool.index <= |pool.slots|
    && (forall w | 0 <= w < |pool.workers| && IsBusy(pool.workers[w]) ::
          pool.workers[w].slot < pool.index && pool.slots[pool.workers[w].slot].None?)
    && (forall v, w | 0 <= v < w < |pool.workers| && IsBusy(pool.workers[v]) && IsBusy(pool.workers[w]) ::
          pool.workers[v].slot != pool.workers[w].slot)
  }

  // A filled slot was taken and holds its own outcome; a taken empty one is in a worker's hands.
  ghost predicate FillsRightly<R>(lint: nat -> R, pool: Pool<R>) {
    && (forall i | 0 <= i < |pool.slots| && pool.slots[i].Some? :: i < pool.index && pool.slots[i].value == lint(i))
    && (forall i | 0 <= i < pool.index && i < |pool.slots| && pool.slots[i].None? :: Works(pool, i))
  }

  ghost predicate BuildsOnce<R>(pool: Pool<R>) {
    && pool.builds <= 1
    && forall w | 0 <= w < |pool.workers| && pool.workers[w].Slicing? :: pool.builds == 1
  }

  ghost predicate Safe<R>(lint: nat -> R, n: nat, pool: Pool<R>) {
    && |pool.slots| == n && |pool.workers| == WorkerCount(n)
    && (forall w | 0 <= w < |pool.workers| && pool.workers[w].Finished? :: pool.index == n)
    && HoldsApart(pool) && FillsRightly(lint, pool) && BuildsOnce(pool)
  }

  lemma StartIsSafe<R>(lint: nat -> R, n: nat)
    ensures Safe(lint, n, Start(n))
  {
  }

  lemma HoldsStayApart<R>(lint: nat -> R, needs: nat -> bool, before: Pool<R>, w: nat, action: Action, after: Pool<R>)
    requires HoldsApart(before) && FillsRightly(lint, before)
    requires w < |before.workers| && Steps(lint, needs, before, w, action, after)
    ensures HoldsApart(after)
  {
  }

  lemma FillsStayRight<R>(lint: nat -> R, needs: nat -> bool, before: Pool<R>, w: nat, action: Action, after: Pool<R>)
    requires HoldsApart(before) && FillsRightly(lint, before)
    requires w < |before.workers| && Steps(lint, needs, before, w, action, after)
    ensures FillsRightly(lint, after)
  {
    forall i | 0 <= i < after.index && i < |after.slots| && after.slots[i].None?
      ensures Works(after, i)
    {
      if action.Claim? && i == before.index {
        assert IsBusy(after.workers[w]);
      } else {
        var v :| 0 <= v < |before.workers| && IsBusy(before.workers[v]) && before.workers[v].slot == i;
        assert IsBusy(after.workers[v]) && after.workers[v].slot == i;
      }
    }
  }

  lemma StepIsSafe<R>(lint: nat -> R, needs: nat -> bool, n: nat, before: Pool<R>, w: nat, action: Action,
                      after: Pool<R>)
    requires Safe(lint, n, before) && w < |before.workers| && Steps(lint, needs, before, w, action, after)
    ensures Safe(lint, n, after)
  {
    HoldsStayApart(lint, needs, before, w, action, after);
    FillsStayRight(lint, needs, before, w, action, after);
  }

  // A filled slot is never filled again.
  lemma SlotsAreKept<R>(lint: nat -> R, needs: nat -> bool, n: nat, before: Pool<R>, w: nat, action: Action,
                        after: Pool<R>, i: nat)
    requires Safe(lint, n, before) && w < |before.workers| && Steps(lint, needs, before, w, action, after)
    requires i < n && before.slots[i].Some?
    ensures action.Fill? ==> before.workers[w].slot != i
    ensures after.slots[i] == before.slots[i]
  {
  }

  // ----- Whole runs -------------------------------------------------------------------------

  ghost predicate Next<R>(lint: nat -> R, needs: nat -> bool, before: Pool<R>, after: Pool<R>) {
    exists w, action | 0 <= w < |before.workers| :: Steps(lint, needs, before, w, action, after)
  }

  ghost predicate IsRun<R>(lint: nat -> R, needs: nat -> bool, n: nat, pools: seq<Pool<R>>) {
    && pools != [] && pools[0] == Start(n)
    && forall k | 0 < k < |pools| :: Next(lint, needs, pools[k - 1], pools[k])
  }

  lemma {:induction false} RunsAreSafe<R>(lint: nat -> R, needs: nat -> bool, n: nat, pools: seq<Pool<R>>, k: nat)
    requires IsRun(lint, needs, n, pools) && k < |pools|
    ensures Safe(lint, n, pools[k])
  {
    if k == 0 {
      StartIsSafe(lint, n);
    } else {
      RunsAreSafe(lint, needs, n, pools, k - 1);
      assert Next(lint, needs, pools[k - 1], pools[k]);
      var w, action :| 0 <= w < |pools[k - 1].workers| && Steps(lint, needs, pools[k - 1], w, action, pools[k]);
      StepIsSafe(lint, needs, n, pools[k - 1], w, action, pools[k]);
    }
  }

  ghost predicate AllFinished<R>(pool: Pool<R>) {
    forall w | 0 <= w < |pool.workers| :: pool.workers[w].Finished?
  }

  // What linting the patches one by one leaves.
  function Serial<R>(lint: nat -> R, n: nat): seq<Option<R>> {
    seq(n, i requires 0 <= i < n => Some(lint(i)))
  }

  // However the workers interleave, when all have finished every slot holds what a serial run
  // computes for it; never more than eight are at work, and the program is built at most once.
  lemma RunsFillEverySlot<R>(lint: nat -> R, needs: nat -> bool, n: nat, pools: seq<Pool<R>>)
    requires IsRun(lint, needs, n, pools)
    ensures var last := pools[|pools| - 1];
            && (AllFinished(last) ==> last.slots == Serial(lint, n))
            && |last.workers| <= 8 && last.builds <= 1
  {
    var last := pools[|pools| - 1];
    RunsAreSafe(lint, needs, n, pools, |pools| - 1);
    if AllFinished(last) && n > 0 {
      assert last.workers[0].Finished?;
      forall i | 0 <= i < n
        ensures last.slots[i] == Some(lint(i))
      {
        assert !Works(last, i);
      }
    }
  }

  // Until all have finished, some worker can step.
  lemma SomeWorkerSteps<R>(lint: nat -> R, needs: nat -> bool, n: nat, pool: Pool<R>) returns (after: Pool<R>)
    requires Safe(lint, n, pool) && !AllFinished(pool)
    ensures Next(lint, needs, pool, after)
  {
    var w :| 0 <= w < |pool.workers| && !pool.workers[w].Finished?;
    var action := if pool.workers[w].AtLoop? then (if pool.index < n then Claim else Stop)
                  else if pool.workers[w].Linting? && needs(pool.workers[w].slot) then NeedProgram
                  else Fill;
    match action {
      case Claim => after := pool.(index := pool.index + 1, workers := pool.workers[w := Linting(pool.index)]);
      case Stop => after := pool.(workers := pool.workers[w := Finished]);
      case NeedProgram =>
        after := pool.(workers := pool.workers[w := Slicing(pool.workers[w].slot)],
                       builds := if pool.builds == 0 then 1 else pool.builds);
      case Fill =>
        after := pool.(workers := pool.workers[w := AtLoop],
                       slots := pool.slots[pool.workers[w].slot := Some(lint(pool.workers[w].slot))]);
    }
    assert Steps(lint, needs, pool, w, action, after);
  }

  // ----- Every run ends ---------------------------------------------------------------------

  function Weight(worker: Worker): nat {
    match worker
    case AtLoop => 1
    case Linting(_) => 4
    case Slicing(_) => 3
    case Finished => 0
  }

  function Weights(workers: seq<Worker>, n: nat): nat
    requires n <= |workers|
  {
    if n == 0 then 0 else Weights(workers, n - 1) + Weight(workers[n - 1])
  }

  function WorkLeft<R>(pool: Pool<R>): int {
    4 * (|pool.slots| - pool.index) + Weights(pool.workers, |pool.workers|)
  }

  lemma {:induction false} OneWeightChanges(workers: seq<Worker>, w: nat, worker: Worker, n: nat)
    requires w < |workers| && n <= |workers|
    ensures Weights(workers[w := worker], n)
        == Weights(workers, n) + if w < n then Weight(worker) - Weight(workers[w]) else 0
  {
    if n > 0 {
      OneWeightChanges(workers, w, worker, n - 1);
    }
  }

  lemma EveryStepWorks<R>(lint: nat -> R, needs: nat -> bool, before: Pool<R>, w: nat, action: Action, after: Pool<R>)
    requires w < |before.workers| && Steps(lint, needs, before, w, action, after)
    ensures WorkLeft(after) < WorkLeft(before)
  {
    OneWeightChanges(before.workers, w, after.workers[w], |before.workers|);
  }

  // No run takes more than five steps a patch and one a worker.
  lemma {:induction false} RunsEnd<R>(lint: nat -> R, needs: nat -> bool, n: nat, pools: seq<Pool<R>>, k: nat)
    requires IsRun(lint, needs, n, pools) && k < |pools|
    ensures k + WorkLeft(pools[k]) <= WorkLeft(pools[0])
  {
    if k > 0 {
      RunsEnd(lint, needs, n, pools, k - 1);
      assert Next(lint, needs, pools[k - 1], pools[k]);
      var w, action :| 0 <= w < |pools[k - 1].workers| && Steps(lint, needs, pools[k - 1], w, action, pools[k]);
      EveryStepWorks(lint, needs, pools[k - 1], w, action, pools[k]);
    }
  }
}
