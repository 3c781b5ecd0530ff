// What a per-patch lint run reports, counts and caches, told result by result.
module LintReport {
  import opened Prelude
  import opened LintRows
  import LintPool

  // ----- Rows -------------------------------------------------------------------------------

  // The rows of one patch: nothing when it was skipped.
  function PatchRows<K, T>(results: seq<PatchResult<K, T>>, i: nat, render: (nat, Lint<T>) -> seq<T>): seq<T>
    requires i < |results|
  {
    if results[i].Skipped? then [] else render(i, Finding(results[i]))
  }

  function AllPatchRows<K, T>(results: seq<PatchResult<K, T>>, n: nat, render: (nat, Lint<T>) -> seq<T>): seq<seq<T>>
    requires n <= |results|
  {
    seq(n, i requires 0 <= i < n => PatchRows(results, i, render))
  }

  lemma {:induction false} RowsAreFlat<K, T>(results: seq<PatchResult<K, T>>, n: nat, render: (nat, Lint<T>) -> seq<T>)
    requires n <= |results|
    ensures Rows(results, n, [], render) == Flatten(AllPatchRows(results, n, render))
  {
    if n > 0 {
      RowsAreFlat(results, n - 1, render);
      FlattenAppend(AllPatchRows(results, n - 1, render), PatchRows(results, n - 1, render));
      assert AllPatchRows(results, n, render)
          == AllPatchRows(results, n - 1, render) + [PatchRows(results, n - 1, render)];
    }
  }

  // The report: the run-level findings once when any patch was looked at, then every patch's own
  // rows in order.
  lemma ReportExactly<K, T>(results: seq<PatchResult<K, T>>, global: seq<T>, render: (nat, Lint<T>) -> seq<T>)
    ensures Rows(results, |results|, global, render)
         == (if exists i | 0 <= i < |results| :: !results[i].Skipped? then global else [])
            + Flatten(AllPatchRows(results, |results|, render))
  {
    GlobalsComeOnce(results, |results|, global, render);
    RowsAreFlat(results, |results|, render);
  }

  lemma {:induction false} FlattenSplits<T>(parts: seq<seq<T>>, i: nat)
    requires i < |parts|
    ensures Flatten(parts) == Flatten(parts[..i]) + parts[i] + Flatten(parts[i + 1..])
  {
    if i == 0 {
      assert parts[..0] == [];
    } else {
      FlattenSplits(parts[1..], i - 1);
      assert parts[1..][..i - 1] == parts[1..i] && parts[1..][i - 1 + 1..] == parts[i + 1..];
      assert parts[..i][1..] == parts[1..i] && parts[..i][0] == parts[0];
    }
  }

  // Every patch that was looked at has its findings in the report, between those of the patches
  // before and of those behind it.
  lemma PatchIsReported<K, T>(results: seq<PatchResult<K, T>>, global: seq<T>, render: (nat, Lint<T>) -> seq<T>, i: nat)
    requires i < |results| && !results[i].Skipped?
    ensures var parts := AllPatchRows(results, |results|, render);
            Rows(results, |results|, global, render)
            == global + Flatten(parts[..i]) + render(i, Finding(results[i])) + Flatten(parts[i + 1..])
  {
    var parts := AllPatchRows(results, |results|, render);
    ReportExactly(results, global, render);
    FlattenSplits(parts, i);
  }

  // ----- One patch --------------------------------------------------------------------------

  // A patch is answered from the cache exactly when it is present and its entry has its key; it is
  // skipped exactly when none of its files is present or, not so answered, it has no diff.
  lemma LintExactly<I, K, T>(subject: Subject<I>, cache: Option<Cache<K, T>>, lint: (string, I) -> Lint<T>,
                             key: (string, I) -> K)
    ensures var result, name := LintQueuedPatch(subject, cache, lint, key), subject.filename;
            var hit := subject.present && cache.Some? && name in cache.value
                       && cache.value[name].key == key(name, subject.inputs);
            && (result.Cached? <==> hit)
            && (hit ==>
                  var entry := cache.value[name];
                  result == Cached(entry.issues, entry.suppressed, entry.lines))
            && (result.Skipped? <==> !subject.present || (!hit && lint(name, subject.inputs).NoDiff?))
            && (result.Fresh? ==>
                  && Finding(result) == lint(name, subject.inputs)
                  && result.cacheWrite == if cache.Some? then Some(key(name, subject.inputs)) else None)
  {
  }

  // What a patch comes to: what its lint finds, whether that was looked up or not.
  function Verdict<I, T>(subject: Subject<I>, lint: (string, I) -> Lint<T>): Lint<T> {
    if subject.present then lint(subject.filename, subject.inputs) else NoDiff
  }

  lemma FindingExactly<I(!new), K, T>(subject: Subject<I>, cache: Option<Cache<K, T>>, lint: (string, I) -> Lint<T>,
                                      key: (string, I) -> K)
    requires KeyIsFaithful(lint, key) && (cache.Some? ==> IsSound(cache.value, lint, key))
    ensures Finding(LintQueuedPatch(subject, cache, lint, key)) == Verdict(subject, lint)
  {
    CachedIsFresh(subject, cache, lint, key);
    LintExactly<I, K, T>(subject, None, lint, key);
  }

  // The rows that the lints of all patches call for.
  function VerdictRows<I, T>(subjects: seq<Subject<I>>, lint: (string, I) -> Lint<T>,
                             render: (nat, Lint<T>) -> seq<T>): seq<seq<T>> {
    seq(|subjects|, i requires 0 <= i < |subjects| =>
      if Verdict(subjects[i], lint).NoDiff? then [] else render(i, Verdict(subjects[i], lint)))
  }

  lemma RowsOfVerdicts<I(!new), K, T>(subjects: seq<Subject<I>>, results: seq<PatchResult<K, T>>,
                                      lint: (string, I) -> Lint<T>, global: seq<T>, render: (nat, Lint<T>) -> seq<T>)
    requires |results| == |subjects|
    requires forall i | 0 <= i < |subjects| :: Finding(results[i]) == Verdict(subjects[i], lint)
    ensures Rows(results, |results|, global, render)
         == (if exists i | 0 <= i < |subjects| :: !Verdict(subjects[i], lint).NoDiff? then global else [])
            + Flatten(VerdictRows(subjects, lint, render))
  {
    ReportExactly(results, global, render);
    forall i | 0 <= i < |subjects|
      ensures results[i].Skipped? <==> Verdict(subjects[i], lint).NoDiff?
    {
      assert Finding(results[i]) == Verdict(subjects[i], lint);
    }
    assert AllPatchRows(results, |results|, render) == VerdictRows(subjects, lint, render);
  }

  // A whole run, workers, cache and assembly: whatever the interleaving and whichever patches the
  // cache answers, the report is what the lints of the patches call for, in patch order.
  lemma RunReportsEveryLint<I(!new), K, T>(subjects: seq<Subject<I>>, cache: Option<Cache<K, T>>,
                                           lint: (string, I) -> Lint<T>, key: (string, I) -> K, needs: nat -> bool,
                                           pools: seq<LintPool.Pool<PatchResult<K, T>>>, slot: nat -> PatchResult<K, T>,
                                           global: seq<T>, render: (nat, Lint<T>) -> seq<T>,
                                           results: seq<PatchResult<K, T>>)
    requires KeyIsFaithful(lint, key) && (cache.Some? ==> IsSound(cache.value, lint, key))
    requires forall i | 0 <= i < |subjects| :: slot(i) == LintQueuedPatch(subjects[i], cache, lint, key)
    requires LintPool.IsRun(slot, needs, |subjects|, pools) && LintPool.AllFinished(pools[|pools| - 1])
    requires |results| == |subjects|
    requires forall i | 0 <= i < |subjects| && i < |pools[|pools| - 1].slots| ::
        pools[|pools| - 1].slots[i] == Some(results[i])
    ensures Rows(results, |results|, global, render)
         == (if exists i | 0 <= i < |subjects| :: !Verdict(subjects[i], lint).NoDiff? then global else [])
            + Flatten(VerdictRows(subjects, lint, render))
  {
    LintPool.RunsFillEverySlot(slot, needs, |subjects|, pools);
    forall i | 0 <= i < |subjects|
      ensures Finding(results[i]) == Verdict(subjects[i], lint)
    {
      assert pools[|pools| - 1].slots[i] == Some(slot(i));
      FindingExactly(subjects[i], cache, lint, key);
    }
    RowsOfVerdicts(subjects, results, lint, global, render);
  }

  // ----- Tallies ----------------------------------------------------------------------------

  function Where<K, T>(results: seq<PatchResult<K, T>>, n: nat, holds: PatchResult<K, T> -> bool): set<nat>
    requires n <= |results|
  {
    set i: nat | i < n && holds(results[i])
  }

  lemma WhereNext<K, T>(results: seq<PatchResult<K, T>>, n: nat, holds: PatchResult<K, T> -> bool)
    requires n < |results|
    ensures |Where(results, n + 1, holds)| == |Where(results, n, holds)| + if holds(results[n]) then 1 else 0
  {
    var before := Where(results, n, holds);
    assert Where(results, n + 1, holds) == if holds(results[n]) then before + {n} else before;
  }

  function Suppressed<K, T>(results: seq<PatchResult<K, T>>, n: nat): seq<seq<T>>
    requires n <= |results|
  {
    seq(n, i requires 0 <= i < n => if results[i].Skipped? then [] else results[i].suppressed)
  }

  // The totals count the results: those looked at and skipped, those answered from the cache, the
  // suppressed findings, and whether any entry is to be written.
  lemma CountExactly<K, T>(results: seq<PatchResult<K, T>>, n: nat)
    requires n <= |results|
    ensures var totals := Count(results, n);
            && totals.linted == |Where(results, n, (result: PatchResult<K, T>) => !result.Skipped?)|
            && totals.skipped == |Where(results, n, (result: PatchResult<K, T>) => result.Skipped?)|
            && totals.reused == |Where(results, n, (result: PatchResult<K, T>) => result.Cached?)|
            && totals.suppressed == |Flatten(Suppressed(results, n))|
            && (totals.dirty <==> exists i | 0 <= i < n :: results[i].Fresh? && results[i].cacheWrite.Some?)
  {
    CountsWhere(results, n, (result: PatchResult<K, T>) => !result.Skipped?,
        (result: PatchResult<K, T>) => result.Skipped?, (result: PatchResult<K, T>) => result.Cached?);
    CountsSuppressed(results, n);
  }

  lemma {:induction false} CountsWhere<K, T>(results: seq<PatchResult<K, T>>, n: nat,
                                             linted: PatchResult<K, T> -> bool, skipped: PatchResult<K, T> -> bool,
                                             cached: PatchResult<K, T> -> bool)
    requires n <= |results|
    requires forall result :: linted(result) == !result.Skipped? && skipped(result) == result.Skipped?
                              && cached(result) == result.Cached?
    ensures Count(results, n).linted == |Where(results, n, linted)|
    ensures Count(results, n).skipped == |Where(results, n, skipped)|
    ensures Count(results, n).reused == |Where(results, n, cached)|
  {
    if n == 0 {
      assert Where(results, 0, linted) == {} && Where(results, 0, skipped) == {} && Where(results, 0, cached) == {};
    } else {
      CountsWhere(results, n - 1, linted, skipped, cached);
      WhereNext(results, n - 1, linted);
      WhereNext(results, n - 1, skipped);
      WhereNext(results, n - 1, cached);
    }
  }

  lemma {:induction false} CountsSuppressed<K, T>(results: seq<PatchResult<K, T>>, n: nat)
    requires n <= |results|
    ensures Count(results, n).suppressed == |Flatten(Suppressed(results, n))|
    ensures Count(results, n).dirty <==> exists i | 0 <= i < n :: results[i].Fresh? && results[i].cacheWrite.Some?
  {
    if n > 0 {
      CountsSuppressed(results, n - 1);
      SuppressedNext(results, n - 1);
    }
  }

  lemma SuppressedNext<K, T>(results: seq<PatchResult<K, T>>, n: nat)
    requires n < |results|
    ensures |Flatten(Suppressed(results, n + 1))|
         == |Flatten(Suppressed(results, n))| + if results[n].Skipped? then 0 else |results[n].suppressed|
  {
    var last := if results[n].Skipped? then [] else results[n].suppressed;
    FlattenAppend(Suppressed(results, n), last);
    assert Suppressed(results, n + 1) == Suppressed(results, n) + [last];
  }

  // ----- The cache --------------------------------------------------------------------------

  // Result `i` writes the entry of this patch.
  ghost predicate WritesEntry<K, T>(subjects: seq<string>, results: seq<PatchResult<K, T>>, i: nat, name: string)
    requires i < |results| && i < |subjects|
  {
    subjects[i] == name && results[i].Fresh? && results[i].cacheWrite.Some?
  }

  // A patch that no result writes keeps the entry it had.
  lemma {:induction false} UnwrittenStays<K, T>(cache: Cache<K, T>, subjects: seq<string>,
                                                results: seq<PatchResult<K, T>>, n: nat, name: string)
    requires n <= |results| && n <= |subjects|
    requires forall i | 0 <= i < n :: !WritesEntry(subjects, results, i, name)
    ensures var written := Written(cache, subjects, results, n);
            (name in written <==> name in cache) && (name in cache ==> written[name] == cache[name])
  {
    if n > 0 {
      UnwrittenStays(cache, subjects, results, n - 1, name);
      assert !WritesEntry(subjects, results, n - 1, name);
    }
  }

  // Any other has the last entry written for it.
  lemma {:induction false} LastWriteStands<K, T>(cache: Cache<K, T>, subjects: seq<string>,
                                                 results: seq<PatchResult<K, T>>, n: nat, name: string, i: nat)
    requires i < n <= |results| && n <= |subjects| && WritesEntry(subjects, results, i, name)
    requires forall j | i < j < n :: !WritesEntry(subjects, results, j, name)
    ensures var written, result := Written(cache, subjects, results, n), results[i];
            name in written
            && written[name] == Entry(result.cacheWrite.value, result.issues, result.suppressed, result.lines)
  {
    if i < n - 1 {
      LastWriteStands(cache, subjects, results, n - 1, name, i);
      assert !WritesEntry(subjects, results, n - 1, name);
    }
  }
}
