// The two loops of src/commands/re-export-each.ts over the manifest on disk and in memory.
module ReExportRun {
  import opened Ownership

  datatype Outcome = Outcome(written: seq<string>, failed: seq<string>, heldBack: seq<string>)

  // What became of one selected patch.
  datatype Status = Wrote | CommitFailed | PrepareFailed | Prepared | Passed

  // The selected patches with one status, in queue order.
  function Pick<P>(steps: seq<Step<P>>, statuses: seq<Status>, n: nat, which: Status): seq<string>
    requires n <= |steps| && n <= |statuses|
  {
    if n == 0 then []
    else if statuses[n - 1] == which then Pick(steps, statuses, n - 1, which) + [steps[n - 1].patch]
    else Pick(steps, statuses, n - 1, which)
  }

  function CommitStatus(fault: Fault): Status {
    if fault.NoFault? then Wrote else CommitFailed
  }

  function PrepareStatus<P>(judgement: Judgement<P>): Status {
    match judgement
    case Ready(_) => Prepared
    case Threw => PrepareFailed
    case Skipped => Passed
    case DriftRefused => Passed
  }

  // A refresh in turn that throws is a failure wherever it throws.
  function TurnStatus<P>(judgement: Judgement<P>, fault: Fault): Status {
    match judgement
    case Ready(_) => CommitStatus(fault)
    case Threw => CommitFailed
    case Skipped => Passed
    case DriftRefused => Passed
  }

  function TurnStatuses<P>(start: State<P>, steps: seq<Step<P>>, n: nat, dir: P -> P): (statuses: seq<Status>)
    requires n <= |steps| && forall i | 0 <= i < |steps| :: steps[i].patch in start.mirror
    ensures |statuses| == n
  {
    seq(n, i requires 0 <= i < n =>
      TurnStatus(Prepare(InTurn(start, steps, i, dir).mirror, steps[i], start.mirror[steps[i].patch], dir),
          steps[i].fault))
  }

  function PrepareStatuses<P>(claims: Claims<P>, steps: seq<Step<P>>, n: nat, dir: P -> P): (statuses: seq<Status>)
    requires n <= |steps| && forall i | 0 <= i < |steps| :: steps[i].patch in claims
    ensures |statuses| == n
  {
    seq(n, i requires 0 <= i < n => PrepareStatus(JudgementOf(claims, steps, i, dir)))
  }

  function CommitStatuses<P>(claims: Claims<P>, steps: seq<Step<P>>, n: nat, dir: P -> P): (statuses: seq<Status>)
    requires n <= |steps| && forall i | 0 <= i < |steps| :: steps[i].patch in claims
    ensures |statuses| == n
  {
    seq(n, i requires 0 <= i < n =>
      if JudgementOf(claims, steps, i, dir).Ready? then CommitStatus(steps[i].fault) else Passed)
  }

  ghost predicate RefusesDrift<P>(claims: Claims<P>, steps: seq<Step<P>>, n: nat, dir: P -> P)
    requires n <= |steps| && forall i | 0 <= i < |steps| :: steps[i].patch in claims
  {
    exists i | 0 <= i < n :: JudgementOf(claims, steps, i, dir).DriftRefused?
  }

  function TurnOutcome<P>(start: State<P>, steps: seq<Step<P>>, n: nat, dir: P -> P): Outcome
    requires n <= |steps| && forall i | 0 <= i < |steps| :: steps[i].patch in start.mirror
  {
    var statuses := TurnStatuses(start, steps, n, dir);
    Outcome(Pick(steps, statuses, n, Wrote), Pick(steps, statuses, n, CommitFailed), [])
  }

  ghost function JudgedOutcome<P>(claims: Claims<P>, steps: seq<Step<P>>, dir: P -> P): Outcome
    requires forall i | 0 <= i < |steps| :: steps[i].patch in claims
  {
    var n := |steps|;
    var prepares, commits := PrepareStatuses(claims, steps, n, dir), CommitStatuses(claims, steps, n, dir);
    if RefusesDrift(claims, steps, n, dir) then
      Outcome([], Pick(steps, prepares, n, PrepareFailed), Pick(steps, prepares, n, Prepared))
    else
      Outcome(Pick(steps, commits, n, Wrote),
              Pick(steps, prepares, n, PrepareFailed) + Pick(steps, commits, n, CommitFailed), [])
  }

  lemma {:induction false} PickSame<P>(steps: seq<Step<P>>, left: seq<Status>, right: seq<Status>, n: nat,
                                       which: Status)
    requires n <= |steps| && n <= |left| && n <= |right| && left[..n] == right[..n]
    ensures Pick(steps, left, n, which) == Pick(steps, right, n, which)
  {
    if n > 0 {
      assert left[n - 1] == left[..n][n - 1] == right[..n][n - 1];
      assert left[..n - 1] == left[..n][..n - 1] == right[..n][..n - 1] == right[..n - 1];
      PickSame(steps, left, right, n - 1, which);
    }
  }

  // One more status at the end.
  lemma PickNext<P>(steps: seq<Step<P>>, statuses: seq<Status>, next: seq<Status>, which: Status)
    requires |next| == |statuses| + 1 <= |steps| && next[..|statuses|] == statuses
    ensures Pick(steps, next, |next|, which) ==
              Pick(steps, statuses, |statuses|, which)
              + if next[|statuses|] == which then [steps[|statuses|].patch] else []
  {
    PickSame(steps, next, statuses, |statuses|, which);
  }

  lemma NextTurn<P>(start: State<P>, steps: seq<Step<P>>, i: nat, dir: P -> P, which: Status)
    requires i < |steps| && forall i | 0 <= i < |steps| :: steps[i].patch in start.mirror
    ensures Pick(steps, TurnStatuses(start, steps, i + 1, dir), i + 1, which)
         == Pick(steps, TurnStatuses(start, steps, i, dir), i, which)
            + if TurnStatus(Prepare(InTurn(start, steps, i, dir).mirror, steps[i],
                                    start.mirror[steps[i].patch], dir), steps[i].fault) == which
              then [steps[i].patch] else []
  {
    PickNext(steps, TurnStatuses(start, steps, i, dir), TurnStatuses(start, steps, i + 1, dir), which);
  }

  lemma NextPrepare<P>(claims: Claims<P>, steps: seq<Step<P>>, i: nat, dir: P -> P, which: Status)
    requires i < |steps| && forall i | 0 <= i < |steps| :: steps[i].patch in claims
    ensures Pick(steps, PrepareStatuses(claims, steps, i + 1, dir), i + 1, which)
         == Pick(steps, PrepareStatuses(claims, steps, i, dir), i, which)
            + if PrepareStatus(JudgementOf(claims, steps, i, dir)) == which then [steps[i].patch] else []
  {
    PickNext(steps, PrepareStatuses(claims, steps, i, dir), PrepareStatuses(claims, steps, i + 1, dir), which);
  }

  lemma NextCommit<P>(claims: Claims<P>, steps: seq<Step<P>>, i: nat, dir: P -> P, which: Status)
    requires i < |steps| && forall i | 0 <= i < |steps| :: steps[i].patch in claims
    ensures Pick(steps, CommitStatuses(claims, steps, i + 1, dir), i + 1, which)
         == Pick(steps, CommitStatuses(claims, steps, i, dir), i, which)
            + if (if JudgementOf(claims, steps, i, dir).Ready? then CommitStatus(steps[i].fault) else Passed) == which
              then [steps[i].patch] else []
  {
    PickNext(steps, CommitStatuses(claims, steps, i, dir), CommitStatuses(claims, steps, i + 1, dir), which);
  }

  // ----- The outcome lists ------------------------------------------------------------------

  ghost predicate Has<P>(steps: seq<Step<P>>, statuses: seq<Status>, n: nat, which: Status, name: string)
    requires n <= |steps| && n <= |statuses|
  {
    exists i | 0 <= i < n :: steps[i].patch == name && statuses[i] == which
  }

  lemma {:induction false} PickHolds<P>(steps: seq<Step<P>>, statuses: seq<Status>, n: nat, which: Status, name: string)
    requires n <= |steps| && n <= |statuses|
    ensures name in Pick(steps, statuses, n, which) <==> Has(steps, statuses, n, which, name)
  {
    if n > 0 {
      PickHolds(steps, statuses, n - 1, which, name);
      if Has(steps, statuses, n, which, name) && !(statuses[n - 1] == which && steps[n - 1].patch == name) {
        var i :| 0 <= i < n && steps[i].patch == name && statuses[i] == which;
        assert i < n - 1;
      }
    }
  }

  // A selected patch is in at most one of two lists when no patch has both statuses.
  lemma ListsAreApart<P>(steps: seq<Step<P>>, left: seq<Status>, right: seq<Status>, which: Status, other: Status,
                         name: string)
    requires |left| == |right| == |steps|
    requires forall i, j | 0 <= i < j < |steps| :: steps[i].patch != steps[j].patch
    requires forall i | 0 <= i < |steps| :: !(left[i] == which && right[i] == other)
    ensures !(name in Pick(steps, left, |steps|, which) && name in Pick(steps, right, |steps|, other))
  {
    PickHolds(steps, left, |steps|, which, name);
    PickHolds(steps, right, |steps|, other, name);
  }

  // Over distinct selected patches, no patch is in two of the lists, and a refusal for drift
  // anywhere writes none.
  lemma JudgedOutcomeIsExclusive<P>(claims: Claims<P>, steps: seq<Step<P>>, dir: P -> P, name: string)
    requires Selects(steps, claims)
    ensures var outcome := JudgedOutcome(claims, steps, dir);
            && !(name in outcome.written && name in outcome.failed)
            && !(name in outcome.written && name in outcome.heldBack)
            && !(name in outcome.failed && name in outcome.heldBack)
            && (RefusesDrift(claims, steps, |steps|, dir) ==> outcome.written == [])
  {
    var prepares, commits := PrepareStatuses(claims, steps, |steps|, dir), CommitStatuses(claims, steps, |steps|, dir);
    ListsAreApart(steps, prepares, prepares, PrepareFailed, Prepared, name);
    ListsAreApart(steps, commits, prepares, Wrote, PrepareFailed, name);
    ListsAreApart(steps, commits, commits, Wrote, CommitFailed, name);
  }

  // ----- Prepared patches -------------------------------------------------------------------

  // A patch ready to commit, by its index in the selection.
  datatype Entry<P> = Entry(index: nat, files: set<P>)

  function Entries<P>(claims: Claims<P>, steps: seq<Step<P>>, n: nat, dir: P -> P): (entries: seq<Entry<P>>)
    requires n <= |steps| && forall i | 0 <= i < |steps| :: steps[i].patch in claims
    ensures forall entry | entry in entries :: entry.index < n
  {
    if n == 0 then []
    else
      var entries, judgement := Entries(claims, steps, n - 1, dir), JudgementOf(claims, steps, n - 1, dir);
      if judgement.Ready? then entries + [Entry(n - 1, judgement.files)] else entries
  }

  function CommitEntries<P>(state: State<P>, steps: seq<Step<P>>, entries: seq<Entry<P>>, k: nat): State<P>
    requires k <= |entries| && forall entry | entry in entries :: entry.index < |steps|
  {
    if k == 0 then state
    else
      var step := steps[entries[k - 1].index];
      Committed(CommitEntries(state, steps, entries, k - 1), step.patch, entries[k - 1].files, step.fault)
  }

  function NamesOf<P>(steps: seq<Step<P>>, entries: seq<Entry<P>>, k: nat): seq<string>
    requires k <= |entries| && forall entry | entry in entries :: entry.index < |steps|
  {
    if k == 0 then [] else NamesOf(steps, entries, k - 1) + [steps[entries[k - 1].index].patch]
  }

  function PickEntries<P>(steps: seq<Step<P>>, entries: seq<Entry<P>>, k: nat, which: Status): seq<string>
    requires k <= |entries| && forall entry | entry in entries :: entry.index < |steps|
  {
    if k == 0 then []
    else
      var step := steps[entries[k - 1].index];
      var picked := PickEntries(steps, entries, k - 1, which);
      if CommitStatus(step.fault) == which then picked + [step.patch] else picked
  }

  lemma {:induction false} CommitPrefix<P>(state: State<P>, steps: seq<Step<P>>, entries: seq<Entry<P>>,
                                           more: seq<Entry<P>>, k: nat)
    requires k <= |entries| && forall entry | entry in entries + more :: entry.index < |steps|
    ensures CommitEntries(state, steps, entries + more, k) == CommitEntries(state, steps, entries, k)
  {
    if k > 0 {
      CommitPrefix(state, steps, entries, more, k - 1);
    }
  }

  lemma {:induction false} PickPrefix<P>(steps: seq<Step<P>>, entries: seq<Entry<P>>, more: seq<Entry<P>>, k: nat,
                                         which: Status)
    requires k <= |entries| && forall entry | entry in entries + more :: entry.index < |steps|
    ensures PickEntries(steps, entries + more, k, which) == PickEntries(steps, entries, k, which)
  {
    if k > 0 {
      PickPrefix(steps, entries, more, k - 1, which);
    }
  }

  lemma {:induction false} NamesPrefix<P>(steps: seq<Step<P>>, entries: seq<Entry<P>>, more: seq<Entry<P>>, k: nat)
    requires k <= |entries| && forall entry | entry in entries + more :: entry.index < |steps|
    ensures NamesOf(steps, entries + more, k) == NamesOf(steps, entries, k)
  {
    if k > 0 {
      NamesPrefix(steps, entries, more, k - 1);
    }
  }

  lemma OneMoreEntry<P>(state: State<P>, steps: seq<Step<P>>, entries: seq<Entry<P>>, entry: Entry<P>, which: Status)
    requires forall other | other in entries :: other.index < |steps|
    requires entry.index < |steps|
    ensures var step := steps[entry.index];
            && CommitEntries(state, steps, entries + [entry], |entries| + 1)
               == Committed(CommitEntries(state, steps, entries, |entries|), step.patch, entry.files, step.fault)
            && NamesOf(steps, entries + [entry], |entries| + 1) == NamesOf(steps, entries, |entries|) + [step.patch]
            && PickEntries(steps, entries + [entry], |entries| + 1, which)
               == PickEntries(steps, entries, |entries|, which)
                  + if CommitStatus(step.fault) == which then [step.patch] else []
  {
    CommitPrefix(state, steps, entries, [entry], |entries|);
    PickPrefix(steps, entries, [entry], |entries|, which);
    NamesPrefix(steps, entries, [entry], |entries|);
  }

  // The prepared patches, and what committing them comes to, patch by patch of the selection.
  lemma {:induction false} EntriesCommit<P>(start: State<P>, steps: seq<Step<P>>, n: nat, dir: P -> P)
    requires n <= |steps| && forall i | 0 <= i < |steps| :: steps[i].patch in start.mirror
    ensures var entries := Entries(start.mirror, steps, n, dir);
            CommitEntries(start, steps, entries, |entries|) == CommittedUpTo(start, steps, n, dir)
  {
    if n > 0 {
      EntriesCommit(start, steps, n - 1, dir);
      var judgement := JudgementOf(start.mirror, steps, n - 1, dir);
      if judgement.Ready? {
        OneMoreEntry(start, steps, Entries(start.mirror, steps, n - 1, dir), Entry(n - 1, judgement.files), Wrote);
      }
    }
  }

  lemma NamedNext<P>(start: State<P>, steps: seq<Step<P>>, entries: seq<Entry<P>>, i: nat, judgement: Judgement<P>)
    requires i < |steps| && forall entry | entry in entries :: entry.index < |steps|
    ensures var more := if judgement.Ready? then entries + [Entry(i, judgement.files)] else entries;
            NamesOf(steps, more, |more|)
            == NamesOf(steps, entries, |entries|)
               + if PrepareStatus(judgement) == Prepared then [steps[i].patch] else []
  {
    if judgement.Ready? {
      OneMoreEntry(start, steps, entries, Entry(i, judgement.files), Wrote);
    }
  }

  lemma {:induction false} EntriesArePrepared<P>(start: State<P>, steps: seq<Step<P>>, n: nat, dir: P -> P)
    requires n <= |steps| && forall i | 0 <= i < |steps| :: steps[i].patch in start.mirror
    ensures var entries := Entries(start.mirror, steps, n, dir);
            NamesOf(steps, entries, |entries|) == Pick(steps, PrepareStatuses(start.mirror, steps, n, dir), n, Prepared)
  {
    if n > 0 {
      EntriesArePrepared(start, steps, n - 1, dir);
      NextPrepare(start.mirror, steps, n - 1, dir, Prepared);
      var judgement := JudgementOf(start.mirror, steps, n - 1, dir);
      NamedNext(start, steps, Entries(start.mirror, steps, n - 1, dir), n - 1, judgement);
    }
  }

  lemma PickedNext<P>(start: State<P>, steps: seq<Step<P>>, entries: seq<Entry<P>>, i: nat, judgement: Judgement<P>,
                      which: Status)
    requires i < |steps| && forall entry | entry in entries :: entry.index < |steps|
    requires which != Passed
    ensures var more := if judgement.Ready? then entries + [Entry(i, judgement.files)] else entries;
            PickEntries(steps, more, |more|, which)
            == PickEntries(steps, entries, |entries|, which)
               + if (if judgement.Ready? then CommitStatus(steps[i].fault) else Passed) == which then [steps[i].patch]
                 else []
  {
    if judgement.Ready? {
      OneMoreEntry(start, steps, entries, Entry(i, judgement.files), which);
    }
  }

  lemma {:induction false} EntriesArePicked<P>(start: State<P>, steps: seq<Step<P>>, n: nat, dir: P -> P, which: Status)
    requires n <= |steps| && forall i | 0 <= i < |steps| :: steps[i].patch in start.mirror
    requires which == Wrote || which == CommitFailed
    ensures var entries := Entries(start.mirror, steps, n, dir);
            PickEntries(steps, entries, |entries|, which)
                == Pick(steps, CommitStatuses(start.mirror, steps, n, dir), n, which)
  {
    if n > 0 {
      EntriesArePicked(start, steps, n - 1, dir, which);
      NextCommit(start.mirror, steps, n - 1, dir, which);
      var judgement := JudgementOf(start.mirror, steps, n - 1, dir);
      PickedNext(start, steps, Entries(start.mirror, steps, n - 1, dir), n - 1, judgement, which);
    }
  }

  // The judging loop after `i` patches.
  ghost predicate Judging<P>(claims: Claims<P>, steps: seq<Step<P>>, i: nat, dir: P -> P,
                             judged: Claims<P>, prepared: seq<Entry<P>>, failed: seq<string>, refusals: nat)
    requires i <= |steps| && forall i | 0 <= i < |steps| :: steps[i].patch in claims
  {
    && judged == Judged(claims, steps, i, dir)
    && prepared == Entries(claims, steps, i, dir)
    && failed == Pick(steps, PrepareStatuses(claims, steps, i, dir), i, PrepareFailed)
    && (refusals > 0 <==> RefusesDrift(claims, steps, i, dir))
  }

  lemma MoreRefusals<P>(claims: Claims<P>, steps: seq<Step<P>>, i: nat, dir: P -> P)
    requires i < |steps| && forall i | 0 <= i < |steps| :: steps[i].patch in claims
    ensures RefusesDrift(claims, steps, i + 1, dir)
        <==> RefusesDrift(claims, steps, i, dir) || JudgementOf(claims, steps, i, dir).DriftRefused?
  {
    if RefusesDrift(claims, steps, i + 1, dir) && !JudgementOf(claims, steps, i, dir).DriftRefused? {
      var k :| 0 <= k < i + 1 && JudgementOf(claims, steps, k, dir).DriftRefused?;
      assert k < i;
    }
  }

  lemma JudgesOne<P>(claims: Claims<P>, steps: seq<Step<P>>, i: nat, dir: P -> P,
                     judged: Claims<P>, prepared: seq<Entry<P>>, failed: seq<string>, refusals: nat)
    requires i < |steps| && forall i | 0 <= i < |steps| :: steps[i].patch in claims
    requires Judging(claims, steps, i, dir, judged, prepared, failed, refusals)
    ensures var patch := steps[i].patch;
            match Prepare(judged, steps[i], claims[patch], dir)
            case Ready(files) =>
              Judging(claims, steps, i + 1, dir, judged[patch := files], prepared + [Entry(i, files)], failed, refusals)
            case Threw => Judging(claims, steps, i + 1, dir, judged, prepared, failed + [patch], refusals)
            case Skipped => Judging(claims, steps, i + 1, dir, judged, prepared, failed, refusals)
            case DriftRefused => Judging(claims, steps, i + 1, dir, judged, prepared, failed, refusals + 1)
  {
    MoreRefusals(claims, steps, i, dir);
    NextPrepare(claims, steps, i, dir, PrepareFailed);
  }

  // The loop in turn after `i` patches.
  ghost predicate Turning<P>(start: State<P>, steps: seq<Step<P>>, i: nat, dir: P -> P, state: State<P>,
                             written: seq<string>, failed: seq<string>)
    requires i <= |steps| && forall i | 0 <= i < |steps| :: steps[i].patch in start.mirror
  {
    state == InTurn(start, steps, i, dir) && Outcome(written, failed, []) == TurnOutcome(start, steps, i, dir)
  }

  lemma TurnsOne<P>(start: State<P>, steps: seq<Step<P>>, i: nat, dir: P -> P, state: State<P>, written: seq<string>,
                    failed: seq<string>)
    requires i < |steps| && forall i | 0 <= i < |steps| :: steps[i].patch in start.mirror
    requires Turning(start, steps, i, dir, state, written, failed)
    ensures var step := steps[i];
            match Prepare(state.mirror, step, start.mirror[step.patch], dir)
            case Ready(files) =>
              var next := Committed(state, step.patch, files, step.fault);
              if step.fault.NoFault? then Turning(start, steps, i + 1, dir, next, written + [step.patch], failed)
              else Turning(start, steps, i + 1, dir, next, written, failed + [step.patch])
            case Threw => Turning(start, steps, i + 1, dir, state, written, failed + [step.patch])
            case Skipped => Turning(start, steps, i + 1, dir, state, written, failed)
            case DriftRefused => Turning(start, steps, i + 1, dir, state, written, failed)
  {
    NextTurn(start, steps, i, dir, Wrote);
    NextTurn(start, steps, i, dir, CommitFailed);
  }

  class Store<P(==)> {
    var disk: Claims<P>
    var mirror: Claims<P>

    function Now(): State<P>
      reads this
    {
      State(disk, mirror)
    }

    // Writes body and row, then the in-memory row.
    method CommitPreparedPatch(patch: string, files: set<P>, fault: Fault) returns (done: bool)
      modifies this
      ensures Now() == Committed(old(Now()), patch, files, fault)
      ensures done <==> fault.NoFault?
    {
      if fault.BeforeWrite? {
        return false;
      }
      disk := disk[patch := files];
      if fault.AfterWrite? {
        return false;
      }
      mirror := mirror[patch := files];
      return true;
    }

    method ReExportEach(steps: seq<Step<P>>, dir: P -> P) returns (outcome: Outcome)
      requires forall i | 0 <= i < |steps| :: steps[i].patch in mirror
      modifies this
      ensures Now() == InTurn(old(Now()), steps, |steps|, dir)
      ensures outcome == TurnOutcome(old(Now()), steps, |steps|, dir)
    {
      ghost var start := Now();
      var rows := mirror;
      var written: seq<string>, failed: seq<string> := [], [];
      for i := 0 to |steps|
        invariant Turning(start, steps, i, dir, Now(), written, failed)
      {
        var step := steps[i];
        var judgement := Prepare(mirror, step, rows[step.patch], dir);
        TurnsOne(start, steps, i, dir, Now(), written, failed);
        if judgement.Ready? {
          var done := CommitPreparedPatch(step.patch, judgement.files, step.fault);
          if done {
            written := written + [step.patch];
          } else {
            failed := failed + [step.patch];
          }
        } else if judgement.Threw? {
          failed := failed + [step.patch];
        }
      }
      return Outcome(written, failed, []);
    }

    // Every patch is prepared before any is committed, and none is when one was refused for drift.
    method ReExportJudgedFirst(steps: seq<Step<P>>, dir: P -> P) returns (outcome: Outcome)
      requires forall i | 0 <= i < |steps| :: steps[i].patch in mirror
      modifies this
      ensures Now() == if RefusesDrift(old(mirror), steps, |steps|, dir) then old(Now())
                       else CommittedUpTo(old(Now()), steps, |steps|, dir)
      ensures outcome == JudgedOutcome(old(mirror), steps, dir)
    {
      ghost var start := Now();
      ghost var n := |steps|;
      var prepared, failed, refusals := JudgeAll(steps, dir);
      EntriesArePrepared(start, steps, n, dir);
      if refusals > 0 {
        var heldBack := PatchesOf(steps, prepared);
        return Outcome([], failed, heldBack);
      }
      var written, failures := CommitAll(steps, prepared);
      EntriesCommit(start, steps, n, dir);
      EntriesArePicked(start, steps, n, dir, Wrote);
      EntriesArePicked(start, steps, n, dir, CommitFailed);
      return Outcome(written, failed + failures, []);
    }

    method JudgeAll(steps: seq<Step<P>>, dir: P -> P) returns (prepared: seq<Entry<P>>, failed: seq<string>,
                    refusals: nat)
      requires forall i | 0 <= i < |steps| :: steps[i].patch in mirror
      ensures prepared == Entries(mirror, steps, |steps|, dir)
      ensures failed == Pick(steps, PrepareStatuses(mirror, steps, |steps|, dir), |steps|, PrepareFailed)
      ensures refusals > 0 <==> RefusesDrift(mirror, steps, |steps|, dir)
    {
      var judged := mirror;
      prepared, failed, refusals := [], [], 0;
      for i := 0 to |steps|
        invariant Judging(mirror, steps, i, dir, judged, prepared, failed, refusals)
      {
        var judgement := Prepare(judged, steps[i], mirror[steps[i].patch], dir);
        JudgesOne(mirror, steps, i, dir, judged, prepared, failed, refusals);
        if judgement.Ready? {
          prepared := prepared + [Entry(i, judgement.files)];
          judged := judged[steps[i].patch := judgement.files];
        } else if judgement.Threw? {
          failed := failed + [steps[i].patch];
        } else if judgement.DriftRefused? {
          refusals := refusals + 1;
        }
      }
    }

    method CommitAll(steps: seq<Step<P>>, prepared: seq<Entry<P>>) returns (written: seq<string>, failed: seq<string>)
      requires forall entry | entry in prepared :: entry.index < |steps|
      modifies this
      ensures Now() == CommitEntries(old(Now()), steps, prepared, |prepared|)
      ensures written == PickEntries(steps, prepared, |prepared|, Wrote)
      ensures failed == PickEntries(steps, prepared, |prepared|, CommitFailed)
    {
      written, failed := [], [];
      for k := 0 to |prepared|
        invariant Now() == CommitEntries(old(Now()), steps, prepared, k)
        invariant written == PickEntries(steps, prepared, k, Wrote)
        invariant failed == PickEntries(steps, prepared, k, CommitFailed)
      {
        var step := steps[prepared[k].index];
        var done := CommitPreparedPatch(step.patch, prepared[k].files, step.fault);
        if done {
          written := written + [step.patch];
        } else {
          failed := failed + [step.patch];
        }
      }
    }
  }

  method PatchesOf<P>(steps: seq<Step<P>>, prepared: seq<Entry<P>>) returns (names: seq<string>)
    requires forall entry | entry in prepared :: entry.index < |steps|
    ensures names == NamesOf(steps, prepared, |prepared|)
  {
    names := [];
    for k := 0 to |prepared|
      invariant names == NamesOf(steps, prepared, k)
    {
      names := names + [steps[prepared[k].index].patch];
    }
  }
}
