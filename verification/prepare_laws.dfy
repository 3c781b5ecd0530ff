// What a refresh comes to, told from its gates' answers, its options and the tree, and what a whole
// run writes.
module PrepareLaws {
  import opened Prelude
  import opened Ownership

  // ----- One prepare ------------------------------------------------------------------------

  // A file the tree or HEAD still has, and one with something to diff against HEAD.
  predicate IsThere<P>(world: World<P>, file: P) {
    file in world.present || file in world.tracked
  }

  predicate IsChanged<P>(world: World<P>, file: P) {
    file in world.dirty || (file in world.present && file !in world.tracked)
  }

  predicate IsRetained<P>(step: Step<P>, previous: set<P>, file: P) {
    file in previous && file !in step.options.expectRemoved
  }

  predicate IsClaimed<P>(claims: Claims<P>, patch: string, file: P) {
    exists name | name in claims && name != patch :: file in claims[name]
  }

  // A changed file that git does not ignore, right in the directory of a file the patch retains.
  ghost predicate IsBeside<P(!new)>(step: Step<P>, previous: set<P>, dir: P -> P, file: P) {
    && (file in step.world.dirty
        || (file in step.world.present && file !in step.world.tracked && file !in step.world.ignored))
    && exists other :: IsRetained(step, previous, other) && dir(other) == dir(file)
  }

  // The files of the refreshed row.
  ghost predicate IsWanted<P(!new)>(claims: Claims<P>, step: Step<P>, previous: set<P>, dir: P -> P, file: P) {
    if IsRetained(step, previous, file) then !step.options.scan || IsThere(step.world, file)
    else if !step.options.scan then false
    else if step.options.scanFiles.Some? then file in step.options.scanFiles.value
    else IsBeside(step, previous, dir, file) && !IsClaimed(claims, step.patch, file)
  }

  predicate IsNamed<P(==)>(step: Step<P>, file: P) {
    step.options.scanFiles.Some? && file in step.options.scanFiles.value
  }

  // A targeted scan refuses a named file that another patch claims or that is not on disk.
  ghost predicate ScanRefuses<P(!new)>(claims: Claims<P>, step: Step<P>) {
    step.options.scan && exists file :: IsNamed(step, file)
                                        && (IsClaimed(claims, step.patch, file) || file !in step.world.present)
  }

  // Some file of the new row is left to look at; every named addition has something to diff; so has
  // some file of the row.
  ghost predicate SomeThere<P(!new)>(claims: Claims<P>, step: Step<P>, previous: set<P>, dir: P -> P) {
    exists file :: IsWanted(claims, step, previous, dir, file) && IsThere(step.world, file)
  }

  ghost predicate NamedDiffer<P(!new)>(step: Step<P>, previous: set<P>) {
    forall file | IsNamed(step, file) && file !in previous :: IsChanged(step.world, file)
  }

  ghost predicate SomeDiffers<P(!new)>(claims: Claims<P>, step: Step<P>, previous: set<P>, dir: P -> P) {
    exists file :: IsWanted(claims, step, previous, dir, file) && IsChanged(step.world, file)
  }

  // All a refresh needs but for the gates' answer.
  ghost predicate HasADiff<P(!new)>(claims: Claims<P>, step: Step<P>, previous: set<P>, dir: P -> P) {
    && !ScanRefuses(claims, step) && SomeThere(claims, step, previous, dir)
    && NamedDiffer(step, previous) && SomeDiffers(claims, step, previous, dir)
  }

  ghost predicate Throws<P(!new)>(claims: Claims<P>, step: Step<P>, previous: set<P>, dir: P -> P) {
    || ScanRefuses(claims, step) || step.verdict.Throw?
    || (!step.verdict.Skip? && SomeThere(claims, step, previous, dir) && !NamedDiffer(step, previous))
  }

  lemma ScanExactly<P(!new)>(claims: Claims<P>, step: Step<P>, previous: set<P>, dir: P -> P)
    ensures var retained := previous - step.options.expectRemoved;
            var updated := if step.options.scan then
                             Scanned(claims, step.patch, retained, step.options, step.world, dir)
                           else Some(retained);
            && (updated.None? <==> ScanRefuses(claims, step))
            && (updated.Some? ==>
                  forall file :: file in updated.value <==> IsWanted(claims, step, previous, dir, file))
  {
    var retained := previous - step.options.expectRemoved;
    forall file
      ensures file in ClaimedByOthers(claims, step.patch) <==> IsClaimed(claims, step.patch, file)
      ensures file in retained <==> IsRetained(step, previous, file)
    {
    }
    if step.options.scan && step.options.scanFiles.Some? {
      NamedScan(claims, step);
    }
    forall file
      ensures file in Discovered(step.world) && dir(file) in Directories(retained, dir)
         <==> IsBeside(step, previous, dir, file)
    {
      if file in Discovered(step.world) && dir(file) in Directories(retained, dir) {
        var other :| other in retained && dir(other) == dir(file);
        assert IsRetained(step, previous, other);
      }
    }
  }

  lemma NamedScan<P(!new)>(claims: Claims<P>, step: Step<P>)
    requires step.options.scan && step.options.scanFiles.Some?
    ensures var named := Elements(step.options.scanFiles.value);
            !(named !! ClaimedByOthers(claims, step.patch)) || !(named <= step.world.present)
            <==> ScanRefuses(claims, step)
  {
    var named := Elements(step.options.scanFiles.value);
    if !(named !! ClaimedByOthers(claims, step.patch)) {
      var file :| file in named && file in ClaimedByOthers(claims, step.patch);
      assert IsNamed(step, file) && IsClaimed(claims, step.patch, file);
    }
    if !(named <= step.world.present) {
      var file :| file in named && file !in step.world.present;
      assert IsNamed(step, file);
    }
    if ScanRefuses(claims, step) {
      var file :| IsNamed(step, file) && (IsClaimed(claims, step.patch, file) || file !in step.world.present);
      assert file in named;
    }
  }

  // Each of the four ends of a prepare, and the row of the one that is ready.
  lemma PrepareExactly<P(!new)>(claims: Claims<P>, step: Step<P>, previous: set<P>, dir: P -> P)
    ensures var judgement := Prepare(claims, step, previous, dir);
            && (judgement.Ready? <==> step.verdict.Proceed? && HasADiff(claims, step, previous, dir))
            && (judgement.DriftRefused? <==> step.verdict.RefuseDrift? && HasADiff(claims, step, previous, dir))
            && (judgement.Threw? <==> Throws(claims, step, previous, dir))
            && (judgement.Ready? ==>
                  forall file :: file in judgement.files <==> IsWanted(claims, step, previous, dir, file))
  {
    var retained := previous - step.options.expectRemoved;
    var updated := if step.options.scan then Scanned(claims, step.patch, retained, step.options, step.world, dir)
                   else Some(retained);
    ScanExactly(claims, step, previous, dir);
    if updated.Some? {
      RowIsJudged(claims, step, previous, dir, updated.value);
    }
  }

  lemma RowIsJudged<P(!new)>(claims: Claims<P>, step: Step<P>, previous: set<P>, dir: P -> P, row: set<P>)
    requires forall file :: file in row <==> IsWanted(claims, step, previous, dir, file)
    ensures row <= RemovedFiles(row, step.world) <==> !SomeThere(claims, step, previous, dir)
    ensures row !! Differs(step.world) <==> !SomeDiffers(claims, step, previous, dir)
    ensures step.options.scanFiles.Some? ==>
              (Elements(step.options.scanFiles.value) - previous <= Differs(step.world)
               <==> NamedDiffer(step, previous))
  {
    forall file
      ensures file in Differs(step.world) <==> IsChanged(step.world, file)
      ensures file in RemovedFiles(row, step.world) <==> file in row && !IsThere(step.world, file)
    {
    }
    if !(row <= RemovedFiles(row, step.world)) {
      var file :| file in row && file !in RemovedFiles(row, step.world);
      assert IsWanted(claims, step, previous, dir, file) && IsThere(step.world, file);
    }
    if !(row !! Differs(step.world)) {
      var file :| file in row && file in Differs(step.world);
      assert IsWanted(claims, step, previous, dir, file) && IsChanged(step.world, file);
    }
    if step.options.scanFiles.Some? && NamedDiffer(step, previous) {
      forall file | file in Elements(step.options.scanFiles.value) && file !in previous
        ensures file in Differs(step.world)
      {
        assert IsNamed(step, file);
      }
    }
    if step.options.scanFiles.Some? && Elements(step.options.scanFiles.value) - previous <= Differs(step.world) {
      forall file | IsNamed(step, file) && file !in previous
        ensures IsChanged(step.world, file)
      {
        assert file in Elements(step.options.scanFiles.value);
      }
    }
  }
}
