// The repair of orphaned Furnace components: src/commands/doctor-furnace-config-sync.ts.
// Generic in what furnace.json holds for an override and for a custom component.
module OrphanRepair {
  import opened Prelude

  datatype Config<O, C> = Config(overrides: map<string, O>, custom: map<string, C>)

  // An override directory that the configuration does not list, with what its sidecar gives back.
  datatype Orphan<O> = Orphan(name: string, recovered: Option<O>)

  datatype Orphans<O> = Orphans(overrides: seq<Orphan<O>>, customNames: seq<string>)

  datatype Phase = WaitingForLock | LoadingUnderLock | Writing

  datatype Outcome = Outcome(restored: seq<string>, unrecoverable: seq<string>, reconciled: seq<string>,
                             deleted: seq<string>, retained: seq<string>, errors: seq<string>,
                             repairError: Option<Phase>)

  const EMPTY_OUTCOME: Outcome := Outcome([], [], [], [], [], [], None)

  // `name in map`: a key of the map, or a name every object inherits.
  predicate In<V>(name: string, entries: map<string, V>, inherited: set<string>) {
    name in entries || name in inherited
  }

  predicate Registered<O, C>(name: string, config: Config<O, C>, inherited: set<string>) {
    In(name, config.overrides, inherited) || In(name, config.custom, inherited)
  }

  // ----- Collecting -------------------------------------------------------------------------

  // `recover` reads an override's sidecar.
  method CollectOrphans<O, C>(config: Config<O, C>, overrideDirs: seq<string>, customDirs: seq<string>,
                              recover: string -> Option<O>, inherited: set<string>)
    returns (orphans: Orphans<O>)
    ensures forall orphan | orphan in orphans.overrides ::
              && orphan.name in overrideDirs && orphan.name !in config.overrides && orphan.name !in inherited
              && orphan.recovered == recover(orphan.name)
    ensures forall name | name in overrideDirs && name !in config.overrides && name !in inherited ::
        Orphan(name, recover(name)) in orphans.overrides
    ensures forall name :: name in orphans.customNames <==>
              name in customDirs && name !in config.custom && name !in inherited
  {
    var overrides: seq<Orphan<O>> := [];
    for i := 0 to |overrideDirs|
      invariant forall orphan | orphan in overrides ::
                  && orphan.name in overrideDirs && !In(orphan.name, config.overrides, inherited)
                  && orphan.recovered == recover(orphan.name)
      invariant forall k | 0 <= k < i && !In(overrideDirs[k], config.overrides, inherited) ::
                  Orphan(overrideDirs[k], recover(overrideDirs[k])) in overrides
    {
      if !In(overrideDirs[i], config.overrides, inherited) {
        overrides := overrides + [Orphan(overrideDirs[i], recover(overrideDirs[i]))];
      }
    }
    var customNames: seq<string> := [];
    for i := 0 to |customDirs|
      invariant forall name :: name in customNames <==> name in customDirs[..i] && !In(name, config.custom, inherited)
    {
      if !In(customDirs[i], config.custom, inherited) {
        customNames := customNames + [customDirs[i]];
      }
      assert customDirs[..i + 1] == customDirs[..i] + [customDirs[i]];
    }
    assert customDirs[..|customDirs|] == customDirs;
    return Orphans(overrides, customNames);
  }

  // ----- Overrides --------------------------------------------------------------------------

  datatype Repaired<O, C> = Repaired(config: Config<O, C>, outcome: Outcome)

  // `repairOverridesLocked` on the configuration loaded under the lock, after `n` orphans.
  function RepairOverrides<O, C>(loaded: Config<O, C>, orphans: seq<Orphan<O>>, n: nat,
                                 inherited: set<string>): Repaired<O, C>
    requires n <= |orphans|
  {
    if n == 0 then Repaired(loaded, EMPTY_OUTCOME)
    else
      var before, orphan := RepairOverrides(loaded, orphans, n - 1, inherited), orphans[n - 1];
      var config, outcome := before.config, before.outcome;
      if Registered(orphan.name, config, inherited) then
        before.(outcome := outcome.(reconciled := outcome.reconciled + [orphan.name]))
      else if orphan.recovered.Some? then
        Repaired(config.(overrides := config.overrides[orphan.name := orphan.recovered.value]),
                 outcome.(restored := outcome.restored + [orphan.name]))
      else
        before.(outcome := outcome.(unrecoverable := outcome.unrecoverable + [orphan.name]))
  }

  // Every entry of the freshly loaded configuration is kept as it is, and what was restored is in it.
  lemma {:induction false} RepairKeepsEntries<O, C>(loaded: Config<O, C>, orphans: seq<Orphan<O>>, n: nat,
                                                    inherited: set<string>)
    requires n <= |orphans|
    ensures var repaired := RepairOverrides(loaded, orphans, n, inherited);
            && repaired.config.custom == loaded.custom
            && (forall name | name in loaded.overrides ::
                  name in repaired.config.overrides && repaired.config.overrides[name] == loaded.overrides[name])
            && (forall name | name in repaired.outcome.restored :: name in repaired.config.overrides)
            && (forall name | name in repaired.config.overrides ::
                name in loaded.overrides || name in repaired.outcome.restored)
  {
    if n > 0 {
      RepairKeepsEntries(loaded, orphans, n - 1, inherited);
    }
  }

  // No name ends up in both maps unless one already was.
  lemma {:induction false} RepairKeepsMapsApart<O, C>(loaded: Config<O, C>, orphans: seq<Orphan<O>>, n: nat,
                                                      inherited: set<string>)
    requires n <= |orphans| && loaded.overrides.Keys !! loaded.custom.Keys
    ensures RepairOverrides(loaded, orphans, n, inherited).config.overrides.Keys
         !! RepairOverrides(loaded, orphans, n, inherited).config.custom.Keys
  {
    if n > 0 {
      RepairKeepsMapsApart(loaded, orphans, n - 1, inherited);
      RepairKeepsEntries(loaded, orphans, n - 1, inherited);
    }
  }

  ghost predicate DistinctNames<O>(orphans: seq<Orphan<O>>) {
    forall i, j | 0 <= i < j < |orphans| :: orphans[i].name != orphans[j].name
  }

  lemma {:induction false} LaterOrphansAreUntouched<O, C>(loaded: Config<O, C>, orphans: seq<Orphan<O>>, n: nat,
                                                          inherited: set<string>, i: nat)
    requires DistinctNames(orphans) && n <= i < |orphans|
    ensures var repaired := RepairOverrides(loaded, orphans, n, inherited);
            && (Registered(orphans[i].name, repaired.config, inherited)
                <==> Registered(orphans[i].name, loaded, inherited))
            && orphans[i].name !in repaired.outcome.restored + repaired.outcome.unrecoverable
                + repaired.outcome.reconciled
  {
    if n > 0 {
      LaterOrphansAreUntouched(loaded, orphans, n - 1, inherited, i);
    }
  }

  // Each override orphan lands in exactly the list its state under the lock says, with or without a
  // writer in between.
  lemma {:induction false} EachOrphanHasOneFate<O, C>(loaded: Config<O, C>, orphans: seq<Orphan<O>>, n: nat,
                                                      inherited: set<string>, i: nat)
    requires DistinctNames(orphans) && i < n <= |orphans|
    ensures var outcome := RepairOverrides(loaded, orphans, n, inherited).outcome;
            var name := orphans[i].name;
            var registered := name in loaded.overrides || name in loaded.custom || name in inherited;
            && (name in outcome.reconciled <==> registered)
            && (name in outcome.restored <==> !registered && orphans[i].recovered.Some?)
            && (name in outcome.unrecoverable <==> !registered && orphans[i].recovered.None?)
  {
    if i == n - 1 {
      LaterOrphansAreUntouched(loaded, orphans, n - 1, inherited, i);
    } else {
      EachOrphanHasOneFate(loaded, orphans, n - 1, inherited, i);
      assert orphans[i].name != orphans[n - 1].name;
    }
  }

  // An override orphan's end on its own: whether its name is registered when the lock is taken, and
  // whether its sidecar gave something back.
  predicate IsRegistered<O, C>(loaded: Config<O, C>, orphan: Orphan<O>, inherited: set<string>) {
    orphan.name in loaded.overrides || orphan.name in loaded.custom || orphan.name in inherited
  }

  function NamesWhere<O>(orphans: seq<Orphan<O>>, n: nat, holds: Orphan<O> -> bool): seq<string>
    requires n <= |orphans|
  {
    Somes(seq(n, i requires 0 <= i < n => if holds(orphans[i]) then Some(orphans[i].name) else None))
  }

  lemma NamesNext<O>(orphans: seq<Orphan<O>>, n: nat, holds: Orphan<O> -> bool)
    requires n < |orphans|
    ensures NamesWhere(orphans, n + 1, holds)
         == NamesWhere(orphans, n, holds) + if holds(orphans[n]) then [orphans[n].name] else []
  {
    var before := seq(n, i requires 0 <= i < n => if holds(orphans[i]) then Some(orphans[i].name) else None);
    var last := if holds(orphans[n]) then Some(orphans[n].name) else None;
    SomesAppend(before, last);
    assert seq(n + 1, i requires 0 <= i < n + 1 => if holds(orphans[i]) then Some(orphans[i].name) else None)
        == before + [last];
  }

  // The three lists, in the order of the orphans.
  lemma {:induction false} OverrideListsExactly<O, C>(loaded: Config<O, C>, orphans: seq<Orphan<O>>, n: nat,
                                                      inherited: set<string>)
    requires DistinctNames(orphans) && n <= |orphans|
    ensures var outcome := RepairOverrides(loaded, orphans, n, inherited).outcome;
            && outcome.reconciled == NamesWhere(orphans, n, (orphan: Orphan<O>) =>
                 IsRegistered(loaded, orphan, inherited))
            && outcome.restored == NamesWhere(orphans, n, (orphan: Orphan<O>) =>
                 !IsRegistered(loaded, orphan, inherited) && orphan.recovered.Some?)
            && outcome.unrecoverable == NamesWhere(orphans, n, (orphan: Orphan<O>) =>
                 !IsRegistered(loaded, orphan, inherited) && orphan.recovered.None?)
  {
    if n > 0 {
      OverrideListsExactly(loaded, orphans, n - 1, inherited);
      LaterOrphansAreUntouched(loaded, orphans, n - 1, inherited, n - 1);
      NamesNext(orphans, n - 1, (orphan: Orphan<O>) => IsRegistered(loaded, orphan, inherited));
      NamesNext(orphans, n - 1, (orphan: Orphan<O>) =>
        !IsRegistered(loaded, orphan, inherited) && orphan.recovered.Some?);
      NamesNext(orphans, n - 1, (orphan: Orphan<O>) =>
        !IsRegistered(loaded, orphan, inherited) && orphan.recovered.None?);
    }
  }

  // A restored entry is the one its sidecar gave back.
  lemma {:induction false} RestoredFromItsSidecar<O, C>(loaded: Config<O, C>, orphans: seq<Orphan<O>>, n: nat,
                                                        inherited: set<string>, i: nat)
    requires DistinctNames(orphans) && i < n <= |orphans| && orphans[i].recovered.Some?
    requires orphans[i].name !in loaded.overrides && orphans[i].name !in inherited && orphans[i].name !in loaded.custom
    ensures var overrides := RepairOverrides(loaded, orphans, n, inherited).config.overrides;
            orphans[i].name in overrides && overrides[orphans[i].name] == orphans[i].recovered.value
  {
    if i == n - 1 {
      LaterOrphansAreUntouched(loaded, orphans, n - 1, inherited, i);
    } else {
      RestoredFromItsSidecar(loaded, orphans, n - 1, inherited, i);
      assert orphans[i].name != orphans[n - 1].name;
    }
  }

  method RepairOverridesLocked<O, C>(loaded: Config<O, C>, orphans: seq<Orphan<O>>,
                                     inherited: set<string>) returns (repaired: Repaired<O, C>)
    ensures repaired == RepairOverrides(loaded, orphans, |orphans|, inherited)
  {
    var config, outcome := loaded, EMPTY_OUTCOME;
    for i := 0 to |orphans|
      invariant Repaired(config, outcome) == RepairOverrides(loaded, orphans, i, inherited)
    {
      var orphan := orphans[i];
      if Registered(orphan.name, config, inherited) {
        outcome := outcome.(reconciled := outcome.reconciled + [orphan.name]);
        continue;
      }
      if orphan.recovered.Some? {
        config := config.(overrides := config.overrides[orphan.name := orphan.recovered.value]);
        outcome := outcome.(restored := outcome.restored + [orphan.name]);
      } else {
        outcome := outcome.(unrecoverable := outcome.unrecoverable + [orphan.name]);
      }
    }
    return Repaired(config, outcome);
  }

  // ----- Custom directories -----------------------------------------------------------------

  // Custom component directories with their entries.
  type Directories = map<string, set<string>>

  // The steps that fail: the lock, loading, writing, whatever comes after the write, and reading or
  // removing single directories.
  datatype Faults = Faults(lock: bool, load: bool, write: bool, release: bool, unreadable: set<string>,
      unremovable: set<string>)

  datatype Cleaned = Cleaned(dirs: Directories, outcome: Outcome)

  // One turn of the loop of `deleteEmptyCustomOrphans`.
  function CleanOne<O, C>(cleaned: Cleaned, config: Config<O, C>, name: string, faults: Faults,
                          inherited: set<string>): Cleaned {
    var dirs, outcome := cleaned.dirs, cleaned.outcome;
    if Registered(name, config, inherited) then
      if name in outcome.reconciled then cleaned
      else cleaned.(outcome := outcome.(reconciled := outcome.reconciled + [name]))
    else if name !in dirs || name in faults.unreadable then
      cleaned.(outcome := outcome.(errors := outcome.errors + [name]))
    else if dirs[name] != {} then cleaned.(outcome := outcome.(retained := outcome.retained + [name]))
    else if name in faults.unremovable then cleaned.(outcome := outcome.(errors := outcome.errors + [name]))
    else Cleaned(dirs - {name}, outcome.(deleted := outcome.deleted + [name]))
  }

  function CleanCustom<O, C>(start: Cleaned, config: Config<O, C>, names: seq<string>, n: nat, faults: Faults,
                             inherited: set<string>): Cleaned
    requires n <= |names|
  {
    if n == 0 then start
    else CleanOne(CleanCustom(start, config, names, n - 1, faults, inherited), config, names[n - 1], faults, inherited)
  }

  // Whether a directory goes: a listed one that neither map of the repaired configuration names,
  // empty, and that could be read and removed.
  ghost predicate Goes<O, C>(dirs: Directories, config: Config<O, C>, names: seq<string>, n: nat, faults: Faults,
                             inherited: set<string>, name: string)
    requires n <= |names|
  {
    && Listed(names, n, name)
    && name !in config.overrides && name !in config.custom && name !in inherited
    && name in dirs && dirs[name] == {} && name !in faults.unreadable && name !in faults.unremovable
  }

  // Exactly those directories go, and every other one stays with its entries.
  lemma {:induction false} CleansExactly<O, C>(start: Cleaned, config: Config<O, C>, names: seq<string>, n: nat,
                                               faults: Faults, inherited: set<string>, name: string)
    requires n <= |names|
    ensures var dirs := CleanCustom(start, config, names, n, faults, inherited).dirs;
            && (name in dirs <==> name in start.dirs && !Goes(start.dirs, config, names, n, faults, inherited, name))
            && (name in dirs ==> dirs[name] == start.dirs[name])
  {
    if n > 0 {
      CleansExactly(start, config, names, n - 1, faults, inherited, name);
      ListedNext(names, n, name);
    }
  }

  // Cleaning adds to the reconciled names exactly the listed ones that are registered by then, and
  // leaves the lists of the overrides alone.
  lemma {:induction false} CleaningReconciles<O, C>(start: Cleaned, config: Config<O, C>, names: seq<string>, n: nat,
                                                    faults: Faults, inherited: set<string>, name: string)
    requires n <= |names|
    ensures var outcome := CleanCustom(start, config, names, n, faults, inherited).outcome;
            && outcome.restored == start.outcome.restored && outcome.unrecoverable == start.outcome.unrecoverable
            && (name in outcome.reconciled <==>
                  name in start.outcome.reconciled || (Listed(names, n, name) && Registered(name, config, inherited)))
  {
    if n > 0 {
      CleaningReconciles(start, config, names, n - 1, faults, inherited, name);
      ListedNext(names, n, name);
    }
  }

  lemma {:induction false} DeletedGo<O, C>(start: Cleaned, config: Config<O, C>, names: seq<string>, n: nat,
                                           faults: Faults, inherited: set<string>, name: string)
    requires n <= |names| && start.outcome.deleted == []
    ensures name in CleanCustom(start, config, names, n, faults, inherited).outcome.deleted
       <==> Goes(start.dirs, config, names, n, faults, inherited, name)
  {
    if n > 0 {
      DeletedGo(start, config, names, n - 1, faults, inherited, name);
      CleansExactly(start, config, names, n - 1, faults, inherited, name);
      ListedNext(names, n, name);
    }
  }

  // A listed directory of no registered name that cannot be cleaned: it is gone or unreadable, or it is
  // empty and cannot be removed.
  ghost predicate Fails<O, C>(dirs: Directories, config: Config<O, C>, names: seq<string>, n: nat, faults: Faults,
                              inherited: set<string>, name: string)
    requires n <= |names|
  {
    && Listed(names, n, name)
    && name !in config.overrides && name !in config.custom && name !in inherited
    && (name !in dirs || name in faults.unreadable || (dirs[name] == {} && name in faults.unremovable))
  }

  // And one that holds something.
  ghost predicate Keeps<O, C>(dirs: Directories, config: Config<O, C>, names: seq<string>, n: nat, faults: Faults,
                              inherited: set<string>, name: string)
    requires n <= |names|
  {
    && Listed(names, n, name)
    && name !in config.overrides && name !in config.custom && name !in inherited
    && name in dirs && name !in faults.unreadable && dirs[name] != {}
  }

  // One turn puts a directory on one list at most, for its reason.
  lemma CleansOneExactly<O, C>(cleaned: Cleaned, config: Config<O, C>, name: string, faults: Faults,
                               inherited: set<string>, other: string)
    ensures var before, after, dirs := cleaned.outcome, CleanOne(cleaned, config, name, faults, inherited).outcome,
              cleaned.dirs;
            var open := name !in config.overrides && name !in config.custom && name !in inherited;
            && (other in after.retained <==>
                  other in before.retained
                  || (other == name && open && name in dirs && name !in faults.unreadable && dirs[name] != {}))
            && (other in after.errors <==>
                  other in before.errors
                  || (other == name && open
                      && (name !in dirs || name in faults.unreadable
                          || (dirs[name] == {} && name in faults.unremovable))))
  {
  }

  // Each listed directory is retained, or reported as an error, exactly for its reason.
  lemma {:induction false} RetainedExactly<O, C>(start: Cleaned, config: Config<O, C>, names: seq<string>, n: nat,
                                                 faults: Faults, inherited: set<string>, name: string)
    requires n <= |names| && forall i, j | 0 <= i < j < |names| :: names[i] != names[j]
    ensures var outcome := CleanCustom(start, config, names, n, faults, inherited).outcome;
            && (name in outcome.retained <==>
                  name in start.outcome.retained || Keeps(start.dirs, config, names, n, faults, inherited, name))
            && (name in outcome.errors <==>
                  name in start.outcome.errors || Fails(start.dirs, config, names, n, faults, inherited, name))
  {
    if n > 0 {
      RetainedExactly(start, config, names, n - 1, faults, inherited, name);
      NextIsUntouched(start, config, names, n - 1, faults, inherited);
      CleansOneExactly(CleanCustom(start, config, names, n - 1, faults, inherited), config, names[n - 1], faults,
          inherited, name);
      ListedNext(names, n, name);
    }
  }

  // The next directory is as it was at the start.
  lemma NextIsUntouched<O, C>(start: Cleaned, config: Config<O, C>, names: seq<string>, n: nat, faults: Faults,
                              inherited: set<string>)
    requires n < |names| && forall i, j | 0 <= i < j < |names| :: names[i] != names[j]
    ensures var dirs := CleanCustom(start, config, names, n, faults, inherited).dirs;
            && (names[n] in dirs <==> names[n] in start.dirs)
            && (names[n] in dirs ==> dirs[names[n]] == start.dirs[names[n]])
  {
    CleansExactly(start, config, names, n, faults, inherited, names[n]);
    assert !Listed(names, n, names[n]);
  }

  // ----- The whole repair -------------------------------------------------------------------

  datatype Furnace<O, C> = Furnace(config: Config<O, C>, dirs: Directories)

  datatype Report<O, C> = Report(furnace: Furnace<O, C>, outcome: Outcome)

  // The orphans were collected from an older configuration; `furnace` is what the lock finds.
  function Repair<O, C>(furnace: Furnace<O, C>, orphans: Orphans<O>, faults: Faults,
                        inherited: set<string>): Report<O, C> {
    if orphans.overrides == [] && orphans.customNames == [] then Report(furnace, EMPTY_OUTCOME)
    else if faults.lock then Report(furnace, EMPTY_OUTCOME.(repairError := Some(WaitingForLock)))
    else if faults.load then Report(furnace, EMPTY_OUTCOME.(repairError := Some(LoadingUnderLock)))
    else
      var repaired := RepairOverrides(furnace.config, orphans.overrides, |orphans.overrides|, inherited);
      if repaired.outcome.restored != [] && faults.write then
        Report(furnace, EMPTY_OUTCOME.(unrecoverable := repaired.outcome.unrecoverable, repairError := Some(Writing)))
      else
        var cleaned := CleanCustom(Cleaned(furnace.dirs, repaired.outcome), repaired.config, orphans.customNames,
                                   |orphans.customNames|, faults, inherited);
        Report(Furnace(repaired.config, cleaned.dirs),
               if faults.release then cleaned.outcome.(errors := cleaned.outcome.errors + ["repair failed"])
               else cleaned.outcome)
  }

  // The repair stops, and changes nothing, exactly when there is something to repair and the lock or the
  // load fails, or something was restored and the write does.
  lemma StopsExactly<O, C>(furnace: Furnace<O, C>, orphans: Orphans<O>, faults: Faults, inherited: set<string>)
    ensures var report := Repair(furnace, orphans, faults, inherited);
            var some := orphans.overrides != [] || orphans.customNames != [];
            var restores := RepairOverrides(furnace.config, orphans.overrides, |orphans.overrides|, inherited)
              .outcome.restored != [];
            && (report.outcome.repairError == Some(WaitingForLock) <==> some && faults.lock)
            && (report.outcome.repairError == Some(LoadingUnderLock) <==> some && !faults.lock && faults.load)
            && (report.outcome.repairError == Some(Writing) <==>
                  some && !faults.lock && !faults.load && restores && faults.write)
            && (report.outcome.repairError.Some? || !some ==> report.furnace == furnace)
  {
    var repaired := RepairOverrides(furnace.config, orphans.overrides, |orphans.overrides|, inherited);
    NoErrorYet(furnace.config, orphans.overrides, |orphans.overrides|, inherited);
    CleaningKeepsError(Cleaned(furnace.dirs, repaired.outcome), repaired.config, orphans.customNames,
        |orphans.customNames|, faults, inherited);
  }

  lemma {:induction false} NoErrorYet<O, C>(loaded: Config<O, C>, orphans: seq<Orphan<O>>, n: nat,
                                            inherited: set<string>)
    requires n <= |orphans|
    ensures RepairOverrides(loaded, orphans, n, inherited).outcome.repairError.None?
  {
    if n > 0 {
      NoErrorYet(loaded, orphans, n - 1, inherited);
    }
  }

  lemma {:induction false} CleaningKeepsError<O, C>(start: Cleaned, config: Config<O, C>, names: seq<string>, n: nat,
                                                    faults: Faults, inherited: set<string>)
    requires n <= |names|
    ensures CleanCustom(start, config, names, n, faults, inherited).outcome.repairError == start.outcome.repairError
  {
    if n > 0 {
      CleaningKeepsError(start, config, names, n - 1, faults, inherited);
    }
  }

  // Whatever writers did before the lock and whatever fails: every entry that the lock found is
  // still there unchanged, and what is reported restored or deleted is so on disk.
  lemma RepairIsSafe<O, C>(furnace: Furnace<O, C>, orphans: Orphans<O>, faults: Faults, inherited: set<string>,
                           name: string)
    ensures var report := Repair(furnace, orphans, faults, inherited);
            && report.furnace.config.custom == furnace.config.custom
            && (name in furnace.config.overrides ==>
                  && name in report.furnace.config.overrides
                  && report.furnace.config.overrides[name] == furnace.config.overrides[name])
            && (name in report.furnace.config.overrides ==>
                name in furnace.config.overrides || name in report.outcome.restored)
            && (name in report.outcome.restored ==> name in report.furnace.config.overrides)
            && (name in report.outcome.deleted ==> name in furnace.dirs && name !in report.furnace.dirs)
            && (furnace.config.overrides.Keys !! furnace.config.custom.Keys ==>
                  report.furnace.config.overrides.Keys !! report.furnace.config.custom.Keys)
  {
    RepairKeepsEntries(furnace.config, orphans.overrides, |orphans.overrides|, inherited);
    if furnace.config.overrides.Keys !! furnace.config.custom.Keys {
      RepairKeepsMapsApart(furnace.config, orphans.overrides, |orphans.overrides|, inherited);
    }
    var repaired := RepairOverrides(furnace.config, orphans.overrides, |orphans.overrides|, inherited);
    CleaningReconciles(Cleaned(furnace.dirs, repaired.outcome), repaired.config, orphans.customNames,
                       |orphans.customNames|, faults, inherited, name);
    DeletedIsGone(furnace, orphans, faults, inherited, name);
  }

  lemma DeletedIsGone<O, C>(furnace: Furnace<O, C>, orphans: Orphans<O>, faults: Faults, inherited: set<string>,
                            name: string)
    ensures var report := Repair(furnace, orphans, faults, inherited);
            name in report.outcome.deleted ==> name in furnace.dirs && name !in report.furnace.dirs
  {
    var repaired := RepairOverrides(furnace.config, orphans.overrides, |orphans.overrides|, inherited);
    var start, names := Cleaned(furnace.dirs, repaired.outcome), orphans.customNames;
    NothingDeletedYet(furnace.config, orphans.overrides, |orphans.overrides|, inherited);
    DeletedGo(start, repaired.config, names, |names|, faults, inherited, name);
    CleansExactly(start, repaired.config, names, |names|, faults, inherited, name);
  }

  lemma {:induction false} NothingDeletedYet<O, C>(loaded: Config<O, C>, orphans: seq<Orphan<O>>, n: nat,
                                                   inherited: set<string>)
    requires n <= |orphans|
    ensures RepairOverrides(loaded, orphans, n, inherited).outcome.deleted == []
  {
    if n > 0 {
      NothingDeletedYet(loaded, orphans, n - 1, inherited);
    }
  }

  // A directory is gone only if it was listed, empty, and registered in neither map of the
  // repaired configuration; every other one is as it was.
  lemma OnlyEmptyOrphansGo<O, C>(furnace: Furnace<O, C>, orphans: Orphans<O>, faults: Faults, inherited: set<string>,
                                 name: string)
    requires name in furnace.dirs
    ensures var report := Repair(furnace, orphans, faults, inherited);
            if name in report.furnace.dirs then report.furnace.dirs[name] == furnace.dirs[name]
            else
              && name in orphans.customNames && furnace.dirs[name] == {}
              && name !in report.furnace.config.overrides && name !in report.furnace.config.custom
              && name !in inherited && name in report.outcome.deleted
  {
    var repaired := RepairOverrides(furnace.config, orphans.overrides, |orphans.overrides|, inherited);
    var start := Cleaned(furnace.dirs, repaired.outcome);
    NothingDeletedYet(furnace.config, orphans.overrides, |orphans.overrides|, inherited);
    CleansExactly(start, repaired.config, orphans.customNames, |orphans.customNames|, faults, inherited, name);
    DeletedGo(start, repaired.config, orphans.customNames, |orphans.customNames|, faults, inherited, name);
  }

  function Lists(outcome: Outcome, name: string): nat {
    (if name in outcome.restored then 1 else 0) + (if name in outcome.reconciled then 1 else 0)
    + (if name in outcome.unrecoverable then 1 else 0)
  }

  // In a repair that goes through, an override orphan is in exactly one of the three lists, but for
  // a name that was orphaned under custom too and has just been restored: that one is reconciled as
  // well.
  lemma InOneListExactly<O, C>(furnace: Furnace<O, C>, orphans: Orphans<O>, faults: Faults, inherited: set<string>,
                               i: nat)
    requires DistinctNames(orphans.overrides) && i < |orphans.overrides|
    requires Repair(furnace, orphans, faults, inherited).outcome.repairError.None?
    ensures Lists(Repair(furnace, orphans, faults, inherited).outcome, orphans.overrides[i].name) == 1
       <==> var name := orphans.overrides[i].name;
            || name in furnace.config.overrides || name in furnace.config.custom || name in inherited
            || orphans.overrides[i].recovered.None? || name !in orphans.customNames
  {
    var name := orphans.overrides[i].name;
    var repaired := RepairOverrides(furnace.config, orphans.overrides, |orphans.overrides|, inherited);
    EachOrphanHasOneFate(furnace.config, orphans.overrides, |orphans.overrides|, inherited, i);
    RepairKeepsEntries(furnace.config, orphans.overrides, |orphans.overrides|, inherited);
    CleaningReconciles(Cleaned(furnace.dirs, repaired.outcome), repaired.config, orphans.customNames,
                       |orphans.customNames|, faults, inherited, name);
    assert Listed(orphans.customNames, |orphans.customNames|, name) <==> name in orphans.customNames;
    assert name in repaired.config.overrides <==>
             name in furnace.config.overrides || name in repaired.outcome.restored;
  }

  lemma TwiceOrphanedIsInTwoLists()
    ensures var furnace: Furnace<int, int> := Furnace(Config(map[], map[]), map["button" := {}]);
            var orphans := Orphans([Orphan("button", Some(1))], ["button"]);
            Lists(Repair(furnace, orphans, Faults(false, false, false, false, {}, {}), {}).outcome, "button") == 2
  {
    var furnace: Furnace<int, int> := Furnace(Config(map[], map[]), map["button" := {}]);
    var orphans := Orphans([Orphan("button", Some(1))], ["button"]);
    var faults := Faults(false, false, false, false, {}, {});
    var repaired := RepairOverrides(furnace.config, orphans.overrides, 1, {});
    assert repaired == Repaired(Config(map["button" := 1], map[]), EMPTY_OUTCOME.(restored := ["button"]));
    assert CleanCustom(Cleaned(furnace.dirs, repaired.outcome), repaired.config, orphans.customNames, 0, faults, {})
        == Cleaned(furnace.dirs, repaired.outcome);
  }

  // furnace.json and the custom component directories, as they stand when the lock is taken.
  class FurnaceStore<O, C> {
    var config: Config<O, C>
    var dirs: Directories

    function Now(): Furnace<O, C>
      reads this
    {
      Furnace(config, dirs)
    }

    method DeleteEmptyCustomOrphans(repaired: Repaired<O, C>, names: seq<string>, faults: Faults,
                                    inherited: set<string>)
      returns (outcome: Outcome)
      modifies this`dirs
      ensures Cleaned(dirs, outcome)
          == CleanCustom(Cleaned(old(dirs), repaired.outcome), repaired.config, names, |names|, faults, inherited)
    {
      outcome := repaired.outcome;
      ghost var start := Cleaned(dirs, outcome);
      for i := 0 to |names|
        invariant Cleaned(dirs, outcome) == CleanCustom(start, repaired.config, names, i, faults, inherited)
      {
        var name := names[i];
        if Registered(name, repaired.config, inherited) {
          if name !in outcome.reconciled {
            outcome := outcome.(reconciled := outcome.reconciled + [name]);
          }
          continue;
        }
        if name !in dirs || name in faults.unreadable {
          outcome := outcome.(errors := outcome.errors + [name]);
          continue;
        }
        if dirs[name] != {} {
          outcome := outcome.(retained := outcome.retained + [name]);
          continue;
        }
        if name in faults.unremovable {
          outcome := outcome.(errors := outcome.errors + [name]);
          continue;
        }
        dirs := dirs - {name};
        outcome := outcome.(deleted := outcome.deleted + [name]);
      }
    }

    method RepairOrphans(orphans: Orphans<O>, faults: Faults, inherited: set<string>) returns (outcome: Outcome)
      modifies this
      ensures Report(Now(), outcome) == Repair(old(Now()), orphans, faults, inherited)
    {
      if orphans.overrides == [] && orphans.customNames == [] {
        return EMPTY_OUTCOME;
      }
      if faults.lock {
        return EMPTY_OUTCOME.(repairError := Some(WaitingForLock));
      }
      if faults.load {
        return EMPTY_OUTCOME.(repairError := Some(LoadingUnderLock));
      }
      var repaired := RepairOverridesLocked(config, orphans.overrides, inherited);
      if repaired.outcome.restored != [] {
        if faults.write {
          return EMPTY_OUTCOME.(unrecoverable := repaired.outcome.unrecoverable, repairError := Some(Writing));
        }
        config := repaired.config;
      } else {
        RepairKeepsEntries(config, orphans.overrides, |orphans.overrides|, inherited);
        assert config.overrides == repaired.config.overrides;
      }
      outcome := DeleteEmptyCustomOrphans(repaired, orphans.customNames, faults, inherited);
      if faults.release {
        outcome := outcome.(errors := outcome.errors + ["repair failed"]);
      }
    }
  }
}
