// Per-patch lint outcomes, their cache, and the rows assembled from them:
// src/commands/lint-per-patch.ts and src/commands/lint-per-run-checkjs.ts.
module LintRows {
  import opened Prelude
  import LintPool

  // ----- One patch --------------------------------------------------------------------------

  // What a fresh lint of a patch finds. A patch whose files are absent, or whose diff is empty, is
  // skipped.
  datatype Lint<T> = NoDiff | Linted(issues: seq<T>, suppressed: seq<T>, lines: nat)

  // A cache entry, with the key of the inputs it was made from.
  datatype Entry<K, T> = Entry(key: K, issues: seq<T>, suppressed: seq<T>, lines: nat)

  type Cache<K, T> = map<string, Entry<K, T>>

  datatype PatchResult<K, T> =
    | Skipped
    | Cached(issues: seq<T>, suppressed: seq<T>, lines: nat)
    | Fresh(issues: seq<T>, suppressed: seq<T>, lines: nat, cacheWrite: Option<K>)

  // The patch as it stands: its filename, whether any of its files is present, and everything else
  // that the lint and the key read.
  datatype Subject<I> = Subject(filename: string, present: bool, inputs: I)

  // The rules and the cache key, as functions of a patch and its inputs. Equal keys of one patch
  // stand for equal findings.
  ghost predicate KeyIsFaithful<I(!new), K, T>(lint: (string, I) -> Lint<T>, key: (string, I) -> K) {
    forall name: string, a: I, b: I :: key(name, a) == key(name, b) ==> lint(name, a) == lint(name, b)
  }

  // `lintQueuedPatch`; no cache is `None`.
  function LintQueuedPatch<I, K(==), T>(subject: Subject<I>, cache: Option<Cache<K, T>>,
                                    lint: (string, I) -> Lint<T>, key: (string, I) -> K): PatchResult<K, T> {
    if !subject.present then Skipped
    else
      var cacheKey := key(subject.filename, subject.inputs);
      if cache.Some? && subject.filename in cache.value && cache.value[subject.filename].key == cacheKey then
        var entry := cache.value[subject.filename];
        Cached(entry.issues, entry.suppressed, entry.lines)
      else
        match lint(subject.filename, subject.inputs)
        case NoDiff => Skipped
        case Linted(issues, suppressed, lines) =>
          Fresh(issues, suppressed, lines, if cache.Some? then Some(cacheKey) else None)
  }

  // Every entry was made by a lint of inputs with its key.
  ghost predicate IsSound<I(!new), K, T>(cache: Cache<K, T>, lint: (string, I) -> Lint<T>, key: (string, I) -> K) {
    forall name | name in cache :: Stands(name, cache[name], lint, key)
  }

  ghost predicate Stands<I(!new), K, T>(name: string, entry: Entry<K, T>, lint: (string, I) -> Lint<T>,
                           key: (string, I) -> K) {
    exists inputs: I :: key(name, inputs) == entry.key
        && lint(name, inputs) == Linted(entry.issues, entry.suppressed, entry.lines)
  }

  // What a result says, whichever way it came about.
  function Finding<K, T>(result: PatchResult<K, T>): Lint<T> {
    match result
    case Skipped => NoDiff
    case Cached(issues, suppressed, lines) => Linted(issues, suppressed, lines)
    case Fresh(issues, suppressed, lines, _) => Linted(issues, suppressed, lines)
  }

  lemma CachedIsFresh<I(!new), K, T>(subject: Subject<I>, cache: Option<Cache<K, T>>, lint: (string, I) -> Lint<T>,
                        key: (string, I) -> K)
    requires KeyIsFaithful(lint, key) && (cache.Some? ==> IsSound(cache.value, lint, key))
    ensures Finding(LintQueuedPatch(subject, cache, lint, key))
        == Finding(LintQueuedPatch<I, K, T>(subject, None, lint, key))
  {
    if LintQueuedPatch(subject, cache, lint, key).Cached? {
      var entry := cache.value[subject.filename];
      assert Stands(subject.filename, entry, lint, key);
      var inputs: I :| key(subject.filename, inputs) == entry.key
                       && lint(subject.filename, inputs) == Linted(entry.issues, entry.suppressed, entry.lines);
    }
  }

  // ----- Assembly ---------------------------------------------------------------------------

  datatype Totals = Totals(linted: nat, skipped: nat, reused: nat, suppressed: nat, dirty: bool)

  // Whether the run-level findings are out before patch `n`.
  predicate Emitted<K, T>(results: seq<PatchResult<K, T>>, n: nat)
    requires n <= |results|
  {
    exists i | 0 <= i < n :: !results[i].Skipped?
  }

  // The rows of the first `n` patches. `render` gives a patch's own rows, with its filename before
  // each issue and a notice for every ceiling it no longer needs.
  function Rows<K, T>(results: seq<PatchResult<K, T>>, n: nat, global: seq<T>,
                      render: (nat, Lint<T>) -> seq<T>): seq<T>
    requires n <= |results|
  {
    if n == 0 then []
    else
      var rows := Rows(results, n - 1, global, render);
      if results[n - 1].Skipped? then rows
      else rows + (if Emitted(results, n - 1) then [] else global) + render(n - 1, Finding(results[n - 1]))
  }

  function Written<K, T>(cache: Cache<K, T>, subjects: seq<string>, results: seq<PatchResult<K, T>>, n: nat)
      : Cache<K, T>
    requires n <= |results| && n <= |subjects|
  {
    if n == 0 then cache
    else
      var before, result := Written(cache, subjects, results, n - 1), results[n - 1];
      if result.Fresh? && result.cacheWrite.Some? then
        before[subjects[n - 1] := Entry(result.cacheWrite.value, result.issues, result.suppressed, result.lines)]
      else before
  }

  function Count<K, T>(results: seq<PatchResult<K, T>>, n: nat): (totals: Totals)
    requires n <= |results|
    ensures totals.linted + totals.skipped == n && totals.reused <= totals.linted
  {
    if n == 0 then Totals(0, 0, 0, 0, false)
    else
      var totals, result := Count(results, n - 1), results[n - 1];
      if result.Skipped? then totals.(skipped := totals.skipped + 1)
      else
        Totals(totals.linted + 1, totals.skipped,
               totals.reused + (if result.Cached? then 1 else 0),
               totals.suppressed + |result.suppressed|,
               totals.dirty || (result.Fresh? && result.cacheWrite.Some?))
  }

  // Applies the results in patch order. `global` is what `getGlobal` answers, or nothing without
  // checkJs; `cache` is left as it was when there is none.
  method ApplyPerPatchResults<K, T>(subjects: seq<string>, results: seq<PatchResult<K, T>>, global: seq<T>,
                                    cache: Cache<K, T>, render: (nat, Lint<T>) -> seq<T>)
    returns (issues: seq<T>, written: Cache<K, T>, totals: Totals)
    requires |subjects| == |results|
    ensures issues == Rows(results, |results|, global, render)
    ensures written == Written(cache, subjects, results, |results|)
    ensures totals == Count(results, |results|)
  {
    issues, written, totals := [], cache, Totals(0, 0, 0, 0, false);
    var globalCheckJsEmitted := false;
    for i := 0 to |results|
      invariant globalCheckJsEmitted <==> Emitted(results, i)
      invariant issues == Rows(results, i, global, render)
      invariant written == Written(cache, subjects, results, i)
      invariant totals == Count(results, i)
    {
      var result := results[i];
      if result.Skipped? {
        totals := totals.(skipped := totals.skipped + 1);
        continue;
      }
      if !globalCheckJsEmitted {
        globalCheckJsEmitted := true;
        issues := issues + global;
      }
      if result.Fresh? && result.cacheWrite.Some? {
        written := written[subjects[i] :=
            Entry(result.cacheWrite.value, result.issues, result.suppressed, result.lines)];
        totals := totals.(dirty := true);
      }
      issues := issues + render(i, Finding(result));
      totals := totals.(suppressed := totals.suppressed + |result.suppressed|);
      if result.Cached? {
        totals := totals.(reused := totals.reused + 1);
      }
      totals := totals.(linted := totals.linted + 1);
    }
  }

  // The results of a run, as the pool leaves them.
  function Results<I, K(==), T>(subjects: seq<Subject<I>>, cache: Option<Cache<K, T>>,
                                lint: (string, I) -> Lint<T>, key: (string, I) -> K): (results: seq<PatchResult<K, T>>)
    ensures |results| == |subjects|
  {
    seq(|subjects|, i requires 0 <= i < |subjects| => LintQueuedPatch(subjects[i], cache, lint, key))
  }

  lemma {:induction false} SameFindingsSameRows<J, K, T>(left: seq<PatchResult<J, T>>,
                                                         right: seq<PatchResult<K, T>>, n: nat, global: seq<T>,
                                                         render: (nat, Lint<T>) -> seq<T>)
    requires n <= |left| == |right|
    requires forall i | 0 <= i < |left| :: Finding(left[i]) == Finding(right[i])
    ensures Rows(left, n, global, render) == Rows(right, n, global, render)
    ensures Emitted(left, n) <==> Emitted(right, n)
  {
    if n > 0 {
      SameFindingsSameRows(left, right, n - 1, global, render);
      assert Finding(left[n - 1]) == Finding(right[n - 1]);
      EmittedNext(left, n);
      EmittedNext(right, n);
    }
  }

  lemma EmittedNext<K, T>(results: seq<PatchResult<K, T>>, n: nat)
    requires 0 < n <= |results|
    ensures Emitted(results, n) <==> Emitted(results, n - 1) || !results[n - 1].Skipped?
  {
    if Emitted(results, n) && results[n - 1].Skipped? {
      var i :| 0 <= i < n && !results[i].Skipped?;
      assert i < n - 1;
    }
  }

  // A run over a cache reports exactly the rows of a run without one: whichever patches were
  // answered from the cache, and in whatever order the workers filled their slots.
  lemma {:induction false} CachedRunReportsTheSame<I(!new), K, T>(subjects: seq<Subject<I>>, cache: Cache<K, T>,
                                               lint: (string, I) -> Lint<T>, key: (string, I) -> K,
                                               needs: nat -> bool, pools: seq<LintPool.Pool<PatchResult<K, T>>>,
                                               slot: nat -> PatchResult<K, T>, global: seq<T>,
                                               render: (nat, Lint<T>) -> seq<T>,
                                               results: seq<PatchResult<K, T>>)
    requires KeyIsFaithful(lint, key) && IsSound(cache, lint, key)
    requires forall i | 0 <= i < |subjects| :: slot(i) == LintQueuedPatch(subjects[i], Some(cache), lint, key)
    requires LintPool.IsRun(slot, needs, |subjects|, pools) && LintPool.AllFinished(pools[|pools| - 1])
    requires |results| == |subjects|
    requires forall i | 0 <= i < |subjects| && i < |pools[|pools| - 1].slots| ::
        pools[|pools| - 1].slots[i] == Some(results[i])
    ensures Rows(results, |results|, global, render)
         == Rows(Results<I, K, T>(subjects, None, lint, key), |subjects|, global, render)
  {
    LintPool.RunsFillEverySlot(slot, needs, |subjects|, pools);
    var cold := Results<I, K, T>(subjects, None, lint, key);
    forall i | 0 <= i < |subjects|
      ensures Finding(results[i]) == Finding(cold[i])
    {
      assert pools[|pools| - 1].slots[i] == Some(slot(i));
      CachedIsFresh(subjects[i], Some(cache), lint, key);
    }
    SameFindingsSameRows(results, cold, |subjects|, global, render);
  }

  // The run-level findings come once, before the rows of the first patch that was not skipped, and
  // not at all when every patch was.
  lemma {:induction false} GlobalsComeOnce<K, T>(results: seq<PatchResult<K, T>>, n: nat, global: seq<T>,
                                                 render: (nat, Lint<T>) -> seq<T>)
    requires n <= |results|
    ensures Rows(results, n, global, render)
        == (if Emitted(results, n) then global else []) + Rows(results, n, [], render)
  {
    if n > 0 {
      GlobalsComeOnce(results, n - 1, global, render);
      EmittedNext(results, n);
      if !Emitted(results, n - 1) {
        SkippedHaveNoRows(results, n - 1, global, render);
        SkippedHaveNoRows(results, n - 1, [], render);
      }
    }
  }

  lemma {:induction false} SkippedHaveNoRows<K, T>(results: seq<PatchResult<K, T>>, n: nat, global: seq<T>,
                                                   render: (nat, Lint<T>) -> seq<T>)
    requires n <= |results| && !Emitted(results, n)
    ensures Rows(results, n, global, render) == []
  {
    if n > 0 {
      EmittedNext(results, n);
      SkippedHaveNoRows(results, n - 1, global, render);
    }
  }

  // The entries a run writes are sound again, so the next run reports the same once more.
  lemma {:induction false} WrittenIsSound<I(!new), K, T>(cache: Cache<K, T>, subjects: seq<Subject<I>>,
                                            names: seq<string>,
                                                         lint: (string, I) -> Lint<T>, key: (string, I) -> K, n: nat)
    requires IsSound(cache, lint, key) && n <= |subjects| == |names|
    requires forall i | 0 <= i < |subjects| :: names[i] == subjects[i].filename
    ensures IsSound(Written(cache, names, Results(subjects, Some(cache), lint, key), n), lint, key)
  {
    if n > 0 {
      WrittenIsSound(cache, subjects, names, lint, key, n - 1);
      var result := LintQueuedPatch(subjects[n - 1], Some(cache), lint, key);
      if result.Fresh? {
        var inputs := subjects[n - 1].inputs;
        assert key(names[n - 1], inputs) == result.cacheWrite.value
            && lint(names[n - 1], inputs) == Linted(result.issues, result.suppressed, result.lines);
      }
    }
  }
}
