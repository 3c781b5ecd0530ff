// The once-per-run checkJs program of src/commands/lint-per-run-checkjs.ts: built on first use,
// merged by file from the module pass and the test-script pass, sliced by owning patch.
module CheckJs {
  import opened Prelude

  // Findings by file, and those of the run as a whole.
  datatype Grouped<F, T> = Grouped(byFile: map<F, seq<T>>, global: seq<T>)

  function At<F, T>(byFile: map<F, seq<T>>, file: F): seq<T> {
    if file in byFile then byFile[file] else []
  }

  // `[...map]` of a map: its keys once each, with their values.
  ghost predicate AreEntries<F, T>(entries: seq<F>, byFile: map<F, seq<T>>) {
    && (forall i | 0 <= i < |entries| :: entries[i] in byFile)
    && (forall file | file in byFile :: file in entries)
    && (forall i, j | 0 <= i < j < |entries| :: entries[i] != entries[j])
  }

  // The merge after the first `n` entries of the second pass.
  function Merged<F, T>(byFile: map<F, seq<T>>, tests: map<F, seq<T>>, entries: seq<F>, n: nat): map<F, seq<T>>
    requires n <= |entries| && forall i | 0 <= i < |entries| :: entries[i] in tests
  {
    if n == 0 then byFile
    else
      var merged, rel := Merged(byFile, tests, entries, n - 1), entries[n - 1];
      merged[rel := At(merged, rel) + tests[rel]]
  }

  lemma {:induction false} OtherFilesStay<F, T>(byFile: map<F, seq<T>>, tests: map<F, seq<T>>, entries: seq<F>,
                                                n: nat, file: F)
    requires n <= |entries| && AreEntries(entries, tests) && !Listed(entries, n, file)
    ensures At(Merged(byFile, tests, entries, n), file) == At(byFile, file)
  {
    if n > 0 {
      ListedNext(entries, n, file);
      OtherFilesStay(byFile, tests, entries, n - 1, file);
    }
  }

  lemma {:induction false} ListedFilesGrow<F, T>(byFile: map<F, seq<T>>, tests: map<F, seq<T>>, entries: seq<F>,
                                                 n: nat, file: F)
    requires n <= |entries| && AreEntries(entries, tests) && Listed(entries, n, file)
    ensures file in tests && At(Merged(byFile, tests, entries, n), file) == At(byFile, file) + tests[file]
  {
    ListedNext(entries, n, file);
    if entries[n - 1] == file {
      OtherFilesStay(byFile, tests, entries, n - 1, file);
    } else {
      ListedFilesGrow(byFile, tests, entries, n - 1, file);
    }
  }

  // Merging keeps every finding of both passes, file by file, the module pass first.
  lemma MergeKeepsBoth<F, T>(byFile: map<F, seq<T>>, tests: map<F, seq<T>>, entries: seq<F>, file: F)
    requires AreEntries(entries, tests)
    ensures At(Merged(byFile, tests, entries, |entries|), file) == At(byFile, file) + At(tests, file)
  {
    if Listed(entries, |entries|, file) {
      ListedFilesGrow(byFile, tests, entries, |entries|, file);
    } else {
      OtherFilesStay(byFile, tests, entries, |entries|, file);
      assert file !in tests;
    }
  }

  method MergeGrouped<F(==), T>(sys: Grouped<F, T>, tests: Grouped<F, T>,
                        entries: seq<F>) returns (merged: Grouped<F, T>)
    requires forall i | 0 <= i < |entries| :: entries[i] in tests.byFile
    ensures merged == Grouped(Merged(sys.byFile, tests.byFile, entries, |entries|), sys.global + tests.global)
  {
    var byFile := sys.byFile;
    for i := 0 to |entries|
      invariant byFile == Merged(sys.byFile, tests.byFile, entries, i)
    {
      var rel := entries[i];
      byFile := byFile[rel := At(byFile, rel) + tests.byFile[rel]];
    }
    return Grouped(byFile, sys.global + tests.global);
  }

  class PerRunCheckJs<F(==), T> {
    var grouped: Option<Grouped<F, T>>
    var builds: nat

    constructor ()
      ensures grouped.None? && builds == 0
    {
      grouped, builds := None, 0;
    }

    ghost predicate Valid(built: Grouped<F, T>)
      reads this
    {
      (grouped.None? && builds == 0) || (grouped == Some(built) && builds == 1)
    }

    // `built` is what building the program yields.
    method GetGrouped(built: Grouped<F, T>) returns (result: Grouped<F, T>)
      requires Valid(built)
      modifies this
      ensures Valid(built) && builds == 1 && result == built
    {
      if grouped.None? {
        grouped := Some(built);
        builds := builds + 1;
      }
      result := grouped.value;
    }

    // Asked before any build, the run-level findings come from a probe that builds nothing.
    method GetGlobal(built: Grouped<F, T>, probe: seq<T>) returns (global: seq<T>)
      requires Valid(built)
      ensures global == if builds == 0 then probe else built.global
    {
      global := if grouped.Some? then grouped.value.global else probe;
    }
  }
}
