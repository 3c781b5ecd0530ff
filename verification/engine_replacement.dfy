// The forced engine replacement of src/commands/download.ts, with a failure possible at every step.
module EngineReplacement {
  import opened Prelude

  // A tree on disk: the engine as it was or the new one, or either with part of it missing.
  datatype Tree = Previous | Damaged | New | DamagedNew

  // What is at engine/, at the replacement path and at the backup path, and whether state.json names
  // the new version and furnace-state.json was cleared.
  datatype Site = Site(engine: Option<Tree>, replacement: Option<Tree>, backup: Option<Tree>, stamped: bool,
      furnaceCleared: bool)

  // The steps that fail: downloading and extracting; moving the engine aside, moving the replacement
  // in, moving the engine back; removing the replacement; initialising git, restoring
  // patch-touched files, clearing furnace state, stamping, reporting; removing the backup; and the
  // two steps of the restore, removing the new engine and moving the backup back. A removal that
  // fails may have removed part of the tree before, or nothing: `dropDamages` and `wipeDamages`.
  datatype Faults = Faults(extract: bool, setAside: bool, activate: bool, undo: bool, sweep: bool,
                           init: bool, clean: bool, clear: bool, stamp: bool, note: bool,
                           drop: bool, dropDamages: bool, wipe: bool, wipeDamages: bool, putBack: bool)

  // What the disk looked like at the start and after every completed step.
  type Log = sites: seq<Site> | sites != [] witness [Site(None, None, None, false, false)]

  datatype Trace = Trace(log: Log, ok: bool)

  function Top(log: Log): Site { log[|log| - 1] }

  // `rename(engine, backup)`, `rename(replacement, engine)` and `rename(backup, engine)`.
  function SetAside(log: Log): Log { log + [Top(log).(backup := Top(log).engine, engine := None)] }

  function MoveIn(log: Log): Log { log + [Top(log).(engine := Top(log).replacement, replacement := None)] }

  function PutBack(log: Log): Log { log + [Top(log).(engine := Top(log).backup, backup := None)] }

  // `activateReplacementEngine`
  function Activate(log: Log, faults: Faults): Trace {
    if faults.setAside then Trace(log, false)
    else if !faults.activate then Trace(MoveIn(SetAside(log)), true)
    else Trace(if faults.undo then SetAside(log) else PutBack(SetAside(log)), false)
  }

  // `restorePreviousEngine`
  function Restore(log: Log, faults: Faults): Log {
    if faults.wipe then if faults.wipeDamages then log + [Top(log).(engine := Some(DamagedNew))] else log
    else
      var wiped := log + [Top(log).(engine := None)];
      if faults.putBack then wiped else PutBack(wiped)
  }

  // The steps up to the report that `initializeDownloadedEngine` takes on an activated replacement.
  function Settle(log: Log, faults: Faults): Trace {
    if faults.init || faults.clean || faults.clear then Trace(log, false)
    else
      var cleared := log + [Top(log).(furnaceCleared := true)];
      if faults.stamp then Trace(cleared, false)
      else Trace(cleared + [Top(cleared).(stamped := true)], !faults.note)
  }

  // Removing the backup.
  function Drop(log: Log, faults: Faults): Log {
    if faults.drop && !faults.dropDamages then log
    else log + [Top(log).(backup := if faults.drop then Some(Damaged) else None)]
  }

  function Initialize(log: Log, faults: Faults): Trace {
    var settled := Settle(log, faults);
    if !settled.ok then Trace(Restore(settled.log, faults), false)
    else
      var dropped := Drop(settled.log, faults);
      if faults.drop then Trace(Restore(dropped, faults), false) else Trace(dropped, true)
  }

  function Extract(log: Log, faults: Faults): Log {
    log + [Top(log).(replacement := Some(if faults.extract then DamagedNew else New))]
  }

  function Sweep(log: Log, faults: Faults): Log {
    if faults.sweep then log else log + [Top(log).(replacement := None)]
  }

  // The replacement branch of `downloadCommand`.
  function Replace(log: Log, faults: Faults): Trace {
    var extracted := Extract(log, faults);
    var activated := if faults.extract then Trace(extracted, false) else Activate(extracted, faults);
    if activated.ok then Initialize(activated.log, faults) else Trace(Sweep(activated.log, faults), false)
  }

  // ----- What survives ----------------------------------------------------------------------

  // The previous tree, whole.
  predicate Survives(site: Site) {
    site.engine == Some(Previous) || site.backup == Some(Previous)
  }

  ghost predicate Survived(log: Log) {
    forall k | 0 <= k < |log| :: Survives(log[k])
  }

  predicate IsStart(site: Site) {
    site.engine == Some(Previous) && site.replacement.None? && site.backup.None?
  }

  // The engine set aside and the new one in its place.
  predicate IsActivated(site: Site) {
    site.engine == Some(New) && site.replacement.None? && site.backup == Some(Previous)
  }

  // Whether the run gets as far as removing the backup.
  predicate Drops(faults: Faults) {
    && !faults.extract && !faults.setAside && !faults.activate
    && !faults.init && !faults.clean && !faults.clear && !faults.stamp && !faults.note
  }

  // Whether it takes anything from the backup.
  predicate TakesBackup(faults: Faults) {
    Drops(faults) && (!faults.drop || faults.dropDamages)
  }

  lemma ActivateSurvives(log: Log, faults: Faults)
    requires Survived(log) && Top(log).engine == Some(Previous) && Top(log).replacement == Some(New)
    ensures var activated := Activate(log, faults);
            && Survived(activated.log) && Top(activated.log).stamped == Top(log).stamped
            && activated.ok == (!faults.setAside && !faults.activate)
            && (activated.ok ==> IsActivated(Top(activated.log)))
            && (!activated.ok ==> (Top(activated.log).engine == Some(Previous) <==> faults.setAside || !faults.undo))
  {
  }

  lemma RestoreSurvives(log: Log, faults: Faults)
    requires Survived(log) && IsActivated(Top(log))
    ensures Survived(Restore(log, faults)) && Top(Restore(log, faults)).stamped == Top(log).stamped
    ensures Top(Restore(log, faults)).engine == Some(Previous) <==> !faults.wipe && !faults.putBack
  {
  }

  lemma SettleSurvives(log: Log, faults: Faults)
    requires Survived(log) && IsActivated(Top(log))
    ensures var settled := Settle(log, faults);
            var stamps := !faults.init && !faults.clean && !faults.clear && !faults.stamp;
            && Survived(settled.log) && IsActivated(Top(settled.log))
            && (Top(settled.log).stamped <==> Top(log).stamped || stamps)
            && settled.ok == (stamps && !faults.note)
            && (stamps ==> Top(settled.log).furnaceCleared)
  {
  }

  // A backup that lost anything leaves a step without the previous tree.
  lemma TakenBackupIsSeen(log: Log, faults: Faults)
    requires Survived(log) && IsActivated(Top(log))
    ensures !faults.drop || faults.dropDamages ==> !Survives(Drop(log, faults)[|log|])
    ensures !faults.drop || faults.dropDamages ==> !Survived(Restore(Drop(log, faults), faults))
    ensures faults.drop && !faults.dropDamages ==> Survived(Restore(Drop(log, faults), faults))
  {
    if faults.drop && !faults.dropDamages {
      RestoreSurvives(log, faults);
    } else {
      assert Restore(Drop(log, faults), faults)[|log|] == Drop(log, faults)[|log|];
    }
  }

  // The previous tree is whole at one of the two paths after every single step, whatever fails, the
  // recovery included, exactly when the run takes nothing from the backup.
  lemma SurvivesExactly(log: Log, faults: Faults)
    requires Survived(log) && IsStart(Top(log))
    ensures Survived(Replace(log, faults).log) <==> !TakesBackup(faults)
    ensures Replace(log, faults).ok <==> Drops(faults) && !faults.drop
  {
    if !faults.extract {
      ActivateSurvives(Extract(log, faults), faults);
      var activated := Activate(Extract(log, faults), faults);
      if activated.ok {
        SettleSurvives(activated.log, faults);
        var settled := Settle(activated.log, faults);
        if settled.ok {
          TakenBackupIsSeen(settled.log, faults);
        } else {
          RestoreSurvives(settled.log, faults);
        }
      }
    }
  }

  // Whether every step of the recovery that ran went through.
  predicate RecoveryWorks(faults: Faults) {
    faults.extract || faults.setAside || (if faults.activate then !faults.undo else !faults.wipe && !faults.putBack)
  }

  // A failure that took nothing from the backup ends with the previous engine back in place exactly
  // when the recovery went through.
  lemma RestoredExactly(log: Log, faults: Faults)
    requires Survived(log) && IsStart(Top(log)) && !TakesBackup(faults)
    ensures Top(Replace(log, faults).log).engine == Some(Previous) <==> RecoveryWorks(faults)
  {
    if !faults.extract {
      ActivateSurvives(Extract(log, faults), faults);
      var activated := Activate(Extract(log, faults), faults);
      if activated.ok {
        SettleSurvives(activated.log, faults);
        RestoreSurvives(Settle(activated.log, faults).log, faults);
      }
    }
  }

  // Another attempt works beside other names for the replacement and the backup.
  function Attempts(log: Log, attempts: seq<Faults>, n: nat): Log
    requires n <= |attempts|
  {
    if n == 0 then log
    else
      var before := Attempts(log, attempts, n - 1);
      Replace(before + [Top(before).(replacement := None)], attempts[n - 1]).log
  }

  lemma RecoveredHasNoBackup(log: Log, faults: Faults)
    requires Survived(log) && IsStart(Top(log)) && !TakesBackup(faults) && RecoveryWorks(faults)
    ensures Top(Replace(log, faults).log).backup.None?
  {
  }

  // However often the replacement is tried again, failed attempts that recover never leave a step
  // without the previous tree, and leave it at engine/.
  lemma {:induction false} AttemptsSurvive(log: Log, attempts: seq<Faults>, n: nat)
    requires Survived(log) && Top(log).engine == Some(Previous) && Top(log).backup.None? && n <= |attempts|
    requires forall i | 0 <= i < n :: !TakesBackup(attempts[i]) && RecoveryWorks(attempts[i])
    ensures Survived(Attempts(log, attempts, n))
    ensures Top(Attempts(log, attempts, n)).engine == Some(Previous) && Top(Attempts(log, attempts, n)).backup.None?
  {
    if n > 0 {
      AttemptsSurvive(log, attempts, n - 1);
      var before := Attempts(log, attempts, n - 1);
      var start := before + [Top(before).(replacement := None)];
      SurvivesExactly(start, attempts[n - 1]);
      RestoredExactly(start, attempts[n - 1]);
      RecoveredHasNoBackup(start, attempts[n - 1]);
    }
  }

  // A run that gets to the removal has kept the previous tree until then, and the new engine is in
  // place and stamped.
  lemma SurvivesUntilTheDrop(log: Log, faults: Faults) returns (settled: Log)
    requires Survived(log) && IsStart(Top(log)) && Drops(faults)
    ensures Survived(settled) && IsActivated(Top(settled)) && Top(settled).stamped && Top(settled).furnaceCleared
    ensures Replace(log, faults)
         == if faults.drop then Trace(Restore(Drop(settled, faults), faults), false)
             else Trace(Drop(settled, faults), true)
  {
    ActivateSurvives(Extract(log, faults), faults);
    var activated := Activate(Extract(log, faults), faults);
    SettleSurvives(activated.log, faults);
    settled := Settle(activated.log, faults).log;
  }

  // A run that succeeds leaves the new engine, stamped, and nothing beside it.
  lemma SuccessIsComplete(log: Log, faults: Faults)
    requires Survived(log) && IsStart(Top(log)) && Replace(log, faults).ok
    ensures var final := Top(Replace(log, faults).log);
            && final.engine == Some(New) && final.backup.None? && final.replacement.None?
            && final.stamped && final.furnaceCleared && Drops(faults) && !faults.drop
  {
    if Drops(faults) {
      var settled := SurvivesUntilTheDrop(log, faults);
    } else {
      SurvivesExactly(log, faults);
    }
  }

  // A tree with nothing missing, old or new.
  predicate IsWhole(tree: Option<Tree>) {
    tree == Some(Previous) || tree == Some(New)
  }

  // The exception: a backup removal that fails in part sends the run into the restore. It ends with a
  // whole tree at neither path exactly when the restore then gets at the new engine, whether it
  // removes it, or fails to and leaves part of it, and whether or not what is left of the old one is
  // put back.
  lemma FailedDropLosesBoth(log: Log, faults: Faults)
    requires Survived(log) && IsStart(Top(log))
    ensures var final := Top(Replace(log, faults).log);
            !IsWhole(final.engine) && !IsWhole(final.backup)
            <==> Drops(faults) && faults.drop && faults.dropDamages && (!faults.wipe || faults.wipeDamages)
    ensures Drops(faults) && faults.drop ==> Top(Replace(log, faults).log).stamped
  {
    if Drops(faults) {
      var settled := SurvivesUntilTheDrop(log, faults);
    } else {
      SurvivesExactly(log, faults);
      assert Survives(Top(Replace(log, faults).log));
    }
  }

  // The previous engine comes back whole under a state that names the new one exactly when a step
  // after the stamp fails, which takes nothing from the backup, and the restore goes through.
  lemma StampOutlivesTheRestore(log: Log, faults: Faults)
    requires Survived(log) && IsStart(Top(log)) && !Top(log).stamped
    ensures var final := Top(Replace(log, faults).log);
            final.stamped && final.engine == Some(Previous) <==>
              && !faults.extract && !faults.setAside && !faults.activate && !faults.init && !faults.clean
              && !faults.clear && !faults.stamp && (faults.note || (faults.drop && !faults.dropDamages))
              && !faults.wipe && !faults.putBack
  {
    if Drops(faults) {
      var settled := SurvivesUntilTheDrop(log, faults);
    } else if !faults.extract {
      ActivateSurvives(Extract(log, faults), faults);
      var activated := Activate(Extract(log, faults), faults);
      if activated.ok {
        SettleSurvives(activated.log, faults);
        RestoreSurvives(Settle(activated.log, faults).log, faults);
      }
    }
  }

  // Nothing is left at the replacement path exactly when the new engine was moved in or the failed one
  // could be removed there; a failed download leaves part of one.
  lemma SweptExactly(log: Log, faults: Faults)
    requires Survived(log) && IsStart(Top(log))
    ensures var final, movedIn := Top(Replace(log, faults).log),
              !faults.extract && !faults.setAside && !faults.activate;
            && (final.replacement.None? <==> movedIn || !faults.sweep)
            && (!movedIn && faults.sweep ==>
                  final.replacement == Some(if faults.extract then DamagedNew else New))
  {
    if !faults.extract {
      ActivateSurvives(Extract(log, faults), faults);
      var activated := Activate(Extract(log, faults), faults);
      if activated.ok {
        SettleSurvives(activated.log, faults);
        KeepsReplacement(activated.log, faults);
      }
    }
  }

  lemma KeepsReplacement(log: Log, faults: Faults)
    requires IsActivated(Top(log))
    ensures Top(Initialize(log, faults).log).replacement.None?
  {
  }

  // The new version is never stamped before the furnace state was cleared for it.
  ghost predicate ClearedBeforeStamp(log: Log) {
    forall k | 0 <= k < |log| :: log[k].stamped ==> log[k].furnaceCleared
  }

  lemma StampsAfterClearing(log: Log, faults: Faults)
    requires ClearedBeforeStamp(log)
    ensures ClearedBeforeStamp(Replace(log, faults).log)
  {
    var extracted := Extract(log, faults);
    assert ClearedBeforeStamp(extracted);
    if !faults.extract {
      var activated := Activate(extracted, faults);
      assert ClearedBeforeStamp(activated.log);
      if activated.ok {
        SettlesAfterClearing(activated.log, faults);
      }
    }
  }

  lemma SettlesAfterClearing(log: Log, faults: Faults)
    requires ClearedBeforeStamp(log)
    ensures ClearedBeforeStamp(Initialize(log, faults).log)
  {
    assert ClearedBeforeStamp(Settle(log, faults).log);
    if Settle(log, faults).ok {
      assert ClearedBeforeStamp(Drop(Settle(log, faults).log, faults));
    }
  }

  // ----- The run itself ---------------------------------------------------------------------

  class Engine {
    var site: Site
    ghost var history: Log

    ghost predicate Valid()
      reads this
    {
      site == Top(history)
    }

    constructor (start: Site)
      ensures Valid() && history == [start]
    {
      site, history := start, [start];
    }

    // One completed step.
    method Do(next: Site)
      requires Valid()
      modifies this
      ensures Valid() && site == next && history == old(history) + [next]
    {
      site := next;
      history := history + [next];
    }

    method ActivateReplacementEngine(faults: Faults) returns (ok: bool)
      requires Valid()
      modifies this
      ensures Valid() && Trace(history, ok) == Activate(old(history), faults)
    {
      if faults.setAside {
        return false;
      }
      Do(site.(backup := site.engine, engine := None));
      if !faults.activate {
        Do(site.(engine := site.replacement, replacement := None));
        return true;
      }
      if !faults.undo {
        Do(site.(engine := site.backup, backup := None));
      }
      return false;
    }

    method RestorePreviousEngine(faults: Faults)
      requires Valid()
      modifies this
      ensures Valid() && history == Restore(old(history), faults)
    {
      if faults.wipe {
        if faults.wipeDamages {
          Do(site.(engine := Some(DamagedNew)));
        }
        return;
      }
      Do(site.(engine := None));
      if !faults.putBack {
        Do(site.(engine := site.backup, backup := None));
      }
    }

    method SettleDownloadedEngine(faults: Faults) returns (ok: bool)
      requires Valid()
      modifies this
      ensures Valid() && Trace(history, ok) == Settle(old(history), faults)
    {
      if faults.init || faults.clean || faults.clear {
        return false;
      }
      Do(site.(furnaceCleared := true));
      if faults.stamp {
        return false;
      }
      Do(site.(stamped := true));
      return !faults.note;
    }

    method InitializeDownloadedEngine(faults: Faults) returns (ok: bool)
      requires Valid()
      modifies this
      ensures Valid() && Trace(history, ok) == Initialize(old(history), faults)
    {
      ok := SettleDownloadedEngine(faults);
      if ok {
        if !faults.drop || faults.dropDamages {
          Do(site.(backup := if faults.drop then Some(Damaged) else None));
        }
        ok := !faults.drop;
      }
      if !ok {
        RestorePreviousEngine(faults);
      }
    }

    method ReplaceEngine(faults: Faults) returns (ok: bool)
      requires Valid()
      modifies this
      ensures Valid() && Trace(history, ok) == Replace(old(history), faults)
    {
      Do(site.(replacement := Some(if faults.extract then DamagedNew else New)));
      ok := !faults.extract;
      if ok {
        ok := ActivateReplacementEngine(faults);
      }
      if ok {
        ok := InitializeDownloadedEngine(faults);
      } else if !faults.sweep {
        Do(site.(replacement := None));
      }
    }
  }
}
