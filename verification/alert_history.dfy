/** What a suite's history does to the duplicate decision: silent runs do not count,
    and a worsening suite alerts a bounded number of times. */
module AlertHistory {
  import opened Basics
  import opened AlertPipeline

  /** A run that says nothing about what `id` may repeat: not executed (queued, running, cancelled,
      or finished without evaluating a check), of another suite, or not before `id`. */
  predicate Silent(run: Run, runId: nat, runs: Runs, id: nat)
    requires id in runs
  {
    || !Executed(run)
    || run.suite != runs[id].suite
    || run.createdAt > runs[id].createdAt
    || (run.createdAt == runs[id].createdAt && runId >= id)
  }

  /** Any number of silent runs anywhere in the history leaves the decision for `id` as it was. */
  lemma SilentRunsAreInvisible(runs: Runs, extra: Runs, id: nat)
    requires id in runs && runs.Keys !! extra.Keys
    requires forall x | x in extra :: Silent(extra[x], x, runs, id)
    ensures PreviousTerminalRun(runs + extra, id) == PreviousTerminalRun(runs, id)
    ensures IsDuplicateAlert(runs + extra, id) == IsDuplicateAlert(runs, id)
  {
    var all := runs + extra;
    assert Candidates(all, id) == Candidates(runs, id);
    if Candidates(runs, id) != {} {
      LatestExists(runs, Candidates(runs, id));
      var p := PreviousTerminalRun(runs, id).value;
      forall q | q in Candidates(all, id) ensures q == p || Before(all, q, p) {
        assert q in Candidates(runs, id);
      }
      PreviousIs(all, id, p);
    }
  }

  /** The statuses and results that make a run silent for every other run of its suite. */
  lemma RunsThatSayNothing(run: Run)
    ensures !Executed(run) <==>
      || run.status.Queued? || run.status.Running? || run.status.Cancelled?
      || (run.status.Succeeded? && forall c | c in run.results :: run.results[c].Skip? || run.results[c].Error?)
  {
  }

  /** A failing run that fails exactly as its predecessor did is a duplicate, and so is one that
      got better everywhere; a duplicate is nothing else. */
  lemma DuplicateIffNothingGotWorse(runs: Runs, id: nat)
    requires id in runs
    ensures IsDuplicateAlert(runs, id) <==>
      && FailingRanks(runs[id]) != map[]
      && exists p ::
        && IsLatest(runs, Candidates(runs, id), p)
        && forall k :: RankOf(FailingRanks(runs[id]), k) <= RankOf(FailingRanks(runs[p]), k)
  {
    var ids := Candidates(runs, id);
    var current := FailingRanks(runs[id]);
    if ids != {} {
      LatestExists(runs, ids);
      var p := PreviousTerminalRun(runs, id).value;
      var previous := FailingRanks(runs[p]);
      forall q | IsLatest(runs, ids, q) ensures q == p {}
      if Dominates(previous, current) {
        assert forall k :: RankOf(current, k) <= RankOf(previous, k);
      } else {
        var k :| k in current && current[k] > RankOf(previous, k);
        assert RankOf(current, k) > RankOf(previous, k);
      }
    }
  }

  predicate HasLiveFailure(run: Run, snoozed: set<nat>) {
    exists c :: c in run.results && IsFailingTier(run.results[c]) && c !in snoozed
  }

  predicate IsClean(run: Run) { forall c | c in run.results :: !IsFailingTier(run.results[c]) }

  /** What all the gates together let through: a succeeded or failed run that is not silenced, as it
      failed as a whole, has a failure nobody snoozed, or has none; and that is not a repetition, unless
      the suite always wants to hear. */
  lemma PublishedIff(runs: Runs, id: nat, snoozed: set<nat>, config: Option<Config>)
    ensures PublishRunOutcome(runs, id, snoozed, config).Published? <==>
      && id in runs && (runs[id].status.Succeeded? || runs[id].status.Failed?)
      && (runs[id].status.Failed? || HasLiveFailure(runs[id], snoozed) || IsClean(runs[id]))
      && (|| (config.Some? && config.value.enabled && config.value.alertOn == Always)
          || FailingRanks(runs[id]) == map[]
          || !exists p ::
               && IsLatest(runs, Candidates(runs, id), p)
               && forall k :: RankOf(FailingRanks(runs[id]), k) <= RankOf(FailingRanks(runs[p]), k))
  {
    if id in runs && Publishable(runs[id]) {
      DuplicateIffNothingGotWorse(runs, id);
      assert AllFailuresSnoozed(runs[id], snoozed)
        <==> !runs[id].status.Failed? && !HasLiveFailure(runs[id], snoozed) && !IsClean(runs[id]) by {
        var failing := FailingChecks(runs[id]);
        assert failing == {} <==> IsClean(runs[id]) by {
          if !IsClean(runs[id]) {
            var c :| c in runs[id].results && IsFailingTier(runs[id].results[c]);
            assert c in failing;
          }
        }
      }
    }
  }

  // --- Alert volume -----------------------------------------------------------------------

  /** The ranks a run gives the listed checks, added up. */
  function RankSum(run: Run, checks: seq<nat>): nat {
    if checks == [] then 0
    else RankOf(FailingRanks(run), CheckKey(checks[0])) + RankSum(run, checks[1..])
  }

  lemma {:induction false} RankSumBounded(run: Run, checks: seq<nat>)
    requires run.status.Succeeded?
    ensures RankSum(run, checks) <= 3 * |checks|
  {
    if checks != [] {
      RankOfCheck(run, checks[0]);
      RankSumBounded(run, checks[1..]);
    }
  }

  lemma {:induction false} RankSumMonotone(lower: Run, upper: Run, checks: seq<nat>)
    requires Dominates(FailingRanks(upper), FailingRanks(lower))
    ensures RankSum(lower, checks) <= RankSum(upper, checks)
    ensures (exists c | c in checks ::
              RankOf(FailingRanks(lower), CheckKey(c)) < RankOf(FailingRanks(upper), CheckKey(c)))
            ==> RankSum(lower, checks) < RankSum(upper, checks)
  {
    if checks != [] {
      RankSumMonotone(lower, upper, checks[1..]);
      assert checks == [checks[0]] + checks[1..];
    }
  }

  /** A failing run has a positive sum, since its results are all on the listed checks. */
  lemma FailingRunHasPositiveSum(run: Run, checks: seq<nat>)
    requires run.status.Succeeded? && FailingRanks(run) != map[]
    requires forall c | c in run.results :: c in checks
    ensures RankSum(run, checks) > 0
  {
    var quiet := run.(results := map[]);
    assert FailingRanks(quiet) == map[];
    var k :| k in FailingRanks(run);
    RankOfCheck(run, k.check);
    RankSumMonotone(quiet, run, checks);
  }

  /** Succeeded runs of one suite, in order, with no other executed run of the suite in between. */
  predicate Stretch(runs: Runs, ids: seq<nat>, suite: nat, checks: seq<nat>) {
    && (forall i | 0 <= i < |ids| ::
          && ids[i] in runs && runs[ids[i]].suite == suite && runs[ids[i]].status.Succeeded?
          && forall c | c in runs[ids[i]].results :: c in checks)
    && (forall i | 0 < i < |ids| ::
          && Before(runs, ids[i - 1], ids[i])
          && forall q | q in runs && runs[q].suite == suite && Executed(runs[q]) ::
               !(Before(runs, ids[i - 1], q) && Before(runs, q, ids[i])))
  }

  predicate NeverImproves(runs: Runs, ids: seq<nat>)
    requires forall i | 0 <= i < |ids| :: ids[i] in runs
  {
    forall i | 0 < i < |ids| :: Dominates(FailingRanks(runs[ids[i]]), FailingRanks(runs[ids[i - 1]]))
  }

  predicate Alerts(runs: Runs, id: nat)
    requires id in runs
  {
    FailingRanks(runs[id]) != map[] && !IsDuplicateAlert(runs, id)
  }

  function AlertsOf(runs: Runs, id: nat): nat
    requires id in runs
  {
    if Alerts(runs, id) then 1 else 0
  }

  /** How many of the runs fail and pass the duplicate gate. */
  function AlertCount(runs: Runs, ids: seq<nat>): nat
    requires forall i | 0 <= i < |ids| :: ids[i] in runs
  {
    if ids == [] then 0
    else
      var rest := ids[..|ids| - 1];
      AlertCount(runs, rest) + AlertsOf(runs, ids[|ids| - 1])
  }

  /** A run that alerts has a larger sum than the run before it in the stretch. */
  lemma AlertRaisesTheSum(runs: Runs, ids: seq<nat>, suite: nat, checks: seq<nat>, i: nat)
    requires Stretch(runs, ids, suite, checks) && NeverImproves(runs, ids)
    requires 0 < i < |ids| && Alerts(runs, ids[i])
    ensures RankSum(runs[ids[i - 1]], checks) < RankSum(runs[ids[i]], checks)
  {
    var (p, r) := (ids[i - 1], ids[i]);
    if Executed(runs[p]) {
      assert p in Candidates(runs, r);
      forall q | q in Candidates(runs, r) ensures q == p || Before(runs, q, p) {
        assert runs[q].suite == suite && Executed(runs[q]) && Before(runs, q, r);
        assert !Before(runs, p, q);
      }
      PreviousIs(runs, r, p);
      var k :| k in FailingRanks(runs[r]) && FailingRanks(runs[r])[k] > RankOf(FailingRanks(runs[p]), k);
      RankOfCheck(runs[r], k.check);
      RankSumMonotone(runs[p], runs[r], checks);
    } else {
      assert FailingRanks(runs[p]) == map[];
      RankSumMonotone(runs[p], runs[r], checks);
      var k :| k in FailingRanks(runs[r]);
      RankOfCheck(runs[r], k.check);
    }
  }

  lemma StretchPrefix(runs: Runs, ids: seq<nat>, suite: nat, checks: seq<nat>, n: nat)
    requires n <= |ids| && Stretch(runs, ids, suite, checks) && NeverImproves(runs, ids)
    ensures Stretch(runs, ids[..n], suite, checks) && NeverImproves(runs, ids[..n])
  {
    var rest := ids[..n];
    assert forall i | 0 <= i < n :: rest[i] == ids[i];
  }

  /** The last run of a stretch: its sum has room for its alert. */
  lemma LastRunPays(runs: Runs, ids: seq<nat>, suite: nat, checks: seq<nat>)
    requires Stretch(runs, ids, suite, checks) && NeverImproves(runs, ids) && ids != []
    ensures
      var n := |ids| - 1;
      AlertsOf(runs, ids[n]) + (if n == 0 then 0 else RankSum(runs[ids[n - 1]], checks)) <= RankSum(runs[ids[n]], checks)
  {
    var n := |ids| - 1;
    if n > 0 {
      RankSumMonotone(runs[ids[n - 1]], runs[ids[n]], checks);
      if Alerts(runs, ids[n]) {
        AlertRaisesTheSum(runs, ids, suite, checks, n);
      }
    } else if Alerts(runs, ids[n]) {
      FailingRunHasPositiveSum(runs[ids[n]], checks);
    }
  }

  lemma {:induction false} AlertCountBelowSum(runs: Runs, ids: seq<nat>, suite: nat, checks: seq<nat>)
    requires Stretch(runs, ids, suite, checks) && NeverImproves(runs, ids)
    ensures AlertCount(runs, ids) <= if ids == [] then 0 else RankSum(runs[ids[|ids| - 1]], checks)
    decreases |ids|
  {
    if ids != [] {
      var n := |ids| - 1;
      StretchPrefix(runs, ids, suite, checks, n);
      AlertCountBelowSum(runs, ids[..n], suite, checks);
      assert n > 0 ==> ids[..n][n - 1] == ids[n - 1];
      LastRunPays(runs, ids, suite, checks);
    }
  }

  /** A suite of n checks that never gets better alerts at most 3n times in a row of runs. */
  lemma AlertVolumeIsBounded(runs: Runs, ids: seq<nat>, suite: nat, checks: seq<nat>)
    requires Stretch(runs, ids, suite, checks) && NeverImproves(runs, ids)
    ensures AlertCount(runs, ids) <= 3 * |checks|
  {
    AlertCountBelowSum(runs, ids, suite, checks);
    if ids != [] {
      RankSumBounded(runs[ids[|ids| - 1]], checks);
    }
  }
}
