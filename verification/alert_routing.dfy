/** The decisions of the alert pipeline in terms of what a run holds: its results, its status and its
    place among the suite's runs. */
module AlertRouting {
  import opened Basics
  import opened AlertPipeline

  predicate Fails(s: ResultStatus) { s.Warn? || s.Fail? || s.Critical? }

  /** The failing tiers from mild to severe. */
  predicate AtLeastAsBad(s: ResultStatus, t: ResultStatus) {
    match t
    case Warn => s.Warn? || s.Fail? || s.Critical?
    case Fail => s.Fail? || s.Critical?
    case Critical => s.Critical?
    case _ => true
  }

  predicate Has(run: Run, t: ResultStatus) {
    exists c :: c in run.results && run.results[c] == t
  }

  // --- Routing ----------------------------------------------------------------------------

  /** The run failed as a whole, or has a result the policy wants to hear of. */
  predicate WorthSending(run: Run, policy: Policy) {
    || policy.Always? || run.status.Failed?
    || exists c :: c in run.results
         && (run.results[c].Fail? || run.results[c].Critical? || (policy.WarnPlus? && run.results[c].Warn?))
  }

  /** When a run is sent, how loudly, and whether the channel is mentioned. */
  lemma RoutingInPlainTerms(run: Run, policy: Policy)
    ensures RouteFor(run, policy).shouldSend <==> WorthSending(run, policy)
    ensures RouteFor(run, policy).urgency.CriticalUrgency? <==> Has(run, Critical)
    ensures RouteFor(run, policy).urgency.StandardUrgency? <==> !Has(run, Critical) && (Has(run, Fail) || run.status.Failed?)
    ensures RouteFor(run, policy).urgency.QuietUrgency? <==> !Has(run, Critical) && !Has(run, Fail) && !run.status.Failed?
    ensures RouteFor(run, policy).mentionChannel <==> Has(run, Critical)
  {
    WorstSeverityIsWorst(run.results);
    WorstByTier(run);
  }

  lemma WorstByTier(run: Run)
    ensures WorstSeverity(run.results) == Some(Critical) <==> Has(run, Critical)
    ensures WorstSeverity(run.results) == Some(Fail) <==> Has(run, Fail) && !Has(run, Critical)
    ensures WorstSeverity(run.results) == Some(Warn) <==> Has(run, Warn) && !Has(run, Fail) && !Has(run, Critical)
    ensures WorstSeverity(run.results).None? <==> !Has(run, Warn) && !Has(run, Fail) && !Has(run, Critical)
  {
    assert Has(run, Critical) ==> IsWorst(run.results, Critical);
    assert Has(run, Fail) && !Has(run, Critical) ==> IsWorst(run.results, Fail);
    assert Has(run, Warn) && !Has(run, Fail) && !Has(run, Critical) ==> IsWorst(run.results, Warn);
  }

  /** What the channels do with a published run: without settings a warning is enough, and settings that
      are off silence it. */
  lemma ChannelSendsInPlainTerms(run: Run, config: Option<Config>)
    ensures config.None? ==> (ChannelSends(run, config) <==> WorthSending(run, WarnPlus))
    ensures config.Some? && config.value.enabled ==> (ChannelSends(run, config) <==> WorthSending(run, config.value.alertOn))
    ensures config.Some? && !config.value.enabled ==> !ChannelSends(run, config)
  {
    match config
    case None => RoutingInPlainTerms(run, WarnPlus);
    case Some(c) => RoutingInPlainTerms(run, c.alertOn);
  }

  // --- The signature ------------------------------------------------------------------------

  /** The keys of a signature: the failing checks of a succeeded run, the run itself when it failed. */
  lemma SignatureInPlainTerms(run: Run)
    ensures OperationalKey in FailingRanks(run) <==> run.status.Failed?
    ensures forall c :: CheckKey(c) in FailingRanks(run) <==>
      run.status.Succeeded? && c in run.results && Fails(run.results[c])
  {
    forall c ensures CheckKey(c) in FailingRanks(run) <==>
      run.status.Succeeded? && c in run.results && Fails(run.results[c])
    {
      if run.status.Succeeded? {
        RankOfCheck(run, c);
      }
    }
  }

  // --- Duplicates ---------------------------------------------------------------------------

  /** The order of two runs: creation time, then id. */
  predicate Earlier(runs: Runs, p: nat, q: nat)
    requires p in runs && q in runs
  {
    runs[p].createdAt < runs[q].createdAt || (runs[p].createdAt == runs[q].createdAt && p < q)
  }

  /** A run of the suite that failed, or succeeded with a check that passed or failed, before `id`. */
  predicate CouldPrecede(runs: Runs, p: nat, id: nat)
    requires id in runs
  {
    && p in runs && runs[p].suite == runs[id].suite && Earlier(runs, p, id)
    && (runs[p].status.Failed?
        || (runs[p].status.Succeeded?
            && exists c :: c in runs[p].results && (runs[p].results[c].Pass? || Fails(runs[p].results[c]))))
  }

  lemma CandidatesInPlainTerms(runs: Runs, id: nat)
    requires id in runs
    ensures forall p :: p in Candidates(runs, id) <==> CouldPrecede(runs, p, id)
  {
    forall p ensures p in Candidates(runs, id) <==> CouldPrecede(runs, p, id) {
      if p in runs && EvaluatedACheck(runs[p]) {
        var c :| c in runs[p].results && IsSeverity(runs[p].results[c]);
        assert runs[p].results[c].Pass? || Fails(runs[p].results[c]);
      }
    }
  }

  /** The predecessor is the last of these runs. */
  lemma PredecessorInPlainTerms(runs: Runs, id: nat, p: nat)
    requires id in runs
    ensures PreviousTerminalRun(runs, id) == Some(p) <==>
      && CouldPrecede(runs, p, id)
      && forall q | CouldPrecede(runs, q, id) :: !Earlier(runs, p, q)
  {
    var ids := Candidates(runs, id);
    CandidatesInPlainTerms(runs, id);
    if ids != {} {
      LatestExists(runs, ids);
      var latest := PreviousTerminalRun(runs, id).value;
      assert IsLatest(runs, ids, latest);
      if CouldPrecede(runs, p, id) && forall q | CouldPrecede(runs, q, id) :: !Earlier(runs, p, q) {
        assert p in ids && latest in ids;
        assert p == latest || Before(runs, p, latest);
      }
      if p == latest {
        forall q | CouldPrecede(runs, q, id) ensures !Earlier(runs, p, q) {
          assert q in ids;
        }
      }
    }
  }

  predicate FailsSomewhere(run: Run) {
    run.status.Failed? || (run.status.Succeeded? && exists c :: c in run.results && Fails(run.results[c]))
  }

  /** `upper` failed wherever `lower` did, at least as badly: as a whole, or check by check. */
  predicate FailsAsBadly(upper: Run, lower: Run) {
    && (lower.status.Failed? ==> upper.status.Failed?)
    && (lower.status.Succeeded? ==>
          forall c | c in lower.results && Fails(lower.results[c]) ::
            upper.status.Succeeded? && c in upper.results && AtLeastAsBad(upper.results[c], lower.results[c]))
  }

  /** A signature lists the failing results and their ranks. */
  ghost predicate Lists(ranks: map<Key, nat>, results: map<nat, ResultStatus>) {
    && (forall c :: CheckKey(c) in ranks <==> c in results && Fails(results[c]))
    && (forall c | CheckKey(c) in ranks :: ranks[CheckKey(c)] == SeverityRank(results[c]))
    && OperationalKey !in ranks
  }

  lemma SucceededSignature(run: Run)
    requires run.status.Succeeded?
    ensures Lists(FailingRanks(run), run.results)
  {
    SignatureInPlainTerms(run);
    forall c | CheckKey(c) in FailingRanks(run) ensures FailingRanks(run)[CheckKey(c)] == SeverityRank(run.results[c]) {
      RankOfCheck(run, c);
    }
  }

  lemma DominatingLists(upper: map<Key, nat>, lower: map<Key, nat>, before: map<nat, ResultStatus>, now: map<nat, ResultStatus>)
    requires Lists(upper, before) && Lists(lower, now)
    ensures Dominates(upper, lower) <==>
      forall c | c in now && Fails(now[c]) :: c in before && AtLeastAsBad(before[c], now[c])
  {
    if Dominates(upper, lower) {
      forall c | c in now && Fails(now[c]) ensures c in before && AtLeastAsBad(before[c], now[c]) {
        assert CheckKey(c) in lower && lower[CheckKey(c)] <= RankOf(upper, CheckKey(c));
      }
    }
    if forall c | c in now && Fails(now[c]) :: c in before && AtLeastAsBad(before[c], now[c]) {
      forall k | k in lower ensures lower[k] <= RankOf(upper, k) {
        var c := k.check;
        assert k == CheckKey(c) && c in before;
      }
    }
  }

  lemma NothingListed(ranks: map<Key, nat>, results: map<nat, ResultStatus>)
    requires Lists(ranks, results)
    ensures ranks != map[] <==> exists c :: c in results && Fails(results[c])
  {
    if ranks != map[] {
      var k :| k in ranks;
      assert k == CheckKey(k.check);
    }
    if c :| c in results && Fails(results[c]) {
      assert CheckKey(c) in ranks;
    }
  }

  lemma OperationalSignature(run: Run)
    requires run.status.Failed?
    ensures FailingRanks(run) == map[OperationalKey := 2]
  {
  }

  lemma EmptySignature(run: Run)
    ensures FailingRanks(run) != map[] <==> FailsSomewhere(run)
  {
    if run.status.Failed? {
      OperationalSignature(run);
      assert OperationalKey in FailingRanks(run);
    } else if run.status.Succeeded? {
      SucceededSignature(run);
      NothingListed(FailingRanks(run), run.results);
    }
  }

  lemma DominatesFailed(upper: Run, lower: Run)
    requires lower.status.Failed?
    ensures Dominates(FailingRanks(upper), FailingRanks(lower)) <==> upper.status.Failed?
  {
    OperationalSignature(lower);
    SignatureInPlainTerms(upper);
    assert OperationalKey in FailingRanks(lower);
    if upper.status.Failed? {
      OperationalSignature(upper);
    }
  }

  lemma DominatesSucceeded(upper: Run, lower: Run)
    requires lower.status.Succeeded?
    ensures Dominates(FailingRanks(upper), FailingRanks(lower)) <==> FailsAsBadly(upper, lower)
  {
    SucceededSignature(lower);
    SignatureInPlainTerms(upper);
    if upper.status.Succeeded? {
      SucceededSignature(upper);
      DominatingLists(FailingRanks(upper), FailingRanks(lower), upper.results, lower.results);
    } else {
      NothingListed(FailingRanks(lower), lower.results);
      if FailingRanks(lower) != map[] {
        var c :| c in lower.results && Fails(lower.results[c]);
        assert CheckKey(c) in FailingRanks(lower) && FailingRanks(lower)[CheckKey(c)] > 0;
        assert CheckKey(c) !in FailingRanks(upper);
      }
    }
  }

  /** One signature dominates another exactly when the run failed at least as badly wherever the other did. */
  lemma DominatesInPlainTerms(upper: Run, lower: Run)
    ensures Dominates(FailingRanks(upper), FailingRanks(lower)) <==> FailsAsBadly(upper, lower)
  {
    if lower.status.Failed? {
      DominatesFailed(upper, lower);
    } else if lower.status.Succeeded? {
      DominatesSucceeded(upper, lower);
    }
  }

  /** The run fails, and the last run before it failed at least as badly wherever it does. */
  ghost predicate RepeatsItsPredecessor(runs: Runs, id: nat)
    requires id in runs
  {
    && FailsSomewhere(runs[id])
    && exists p ::
         && CouldPrecede(runs, p, id)
         && (forall q | CouldPrecede(runs, q, id) :: !Earlier(runs, p, q))
         && FailsAsBadly(runs[p], runs[id])
  }

  lemma DuplicateInPlainTerms(runs: Runs, id: nat)
    requires id in runs
    ensures IsDuplicateAlert(runs, id) <==> RepeatsItsPredecessor(runs, id)
  {
    EmptySignature(runs[id]);
    match PreviousTerminalRun(runs, id)
    case None =>
      CandidatesInPlainTerms(runs, id);
    case Some(last) =>
      PredecessorInPlainTerms(runs, id, last);
      DominatesInPlainTerms(runs[last], runs[id]);
      forall p | CouldPrecede(runs, p, id) && forall q | CouldPrecede(runs, q, id) :: !Earlier(runs, p, q)
        ensures p == last
      {
        PredecessorInPlainTerms(runs, id, p);
      }
  }

  // --- Snoozing -----------------------------------------------------------------------------

  /** The run did not fail as a whole, has a failing check, and all of these are snoozed. */
  predicate Silenced(run: Run, snoozed: set<nat>) {
    && !run.status.Failed?
    && (exists c :: c in run.results && Fails(run.results[c]))
    && forall c | c in run.results && Fails(run.results[c]) :: c in snoozed
  }

  lemma SnoozedInPlainTerms(run: Run, snoozed: set<nat>)
    ensures AllFailuresSnoozed(run, snoozed) <==> Silenced(run, snoozed)
  {
    if c :| c in run.results && Fails(run.results[c]) {
      assert c in FailingChecks(run);
    }
  }

  // --- The gates ----------------------------------------------------------------------------

  /** The suite wants to hear of every run. */
  predicate WantsAll(config: Option<Config>) {
    config.Some? && config.value.enabled && config.value.alertOn.Always?
  }

  /** Each decision, and when it is taken. */
  lemma DecisionInPlainTerms(runs: Runs, id: nat, snoozed: set<nat>, config: Option<Config>)
    ensures
      var d := PublishRunOutcome(runs, id, snoozed, config);
      && (d.NotPublishable? <==> id !in runs || !(runs[id].status.Succeeded? || runs[id].status.Failed?))
      && (!d.NotPublishable? ==>
            && (d.Snoozed? <==> Silenced(runs[id], snoozed))
            && (d.Deduplicated? <==>
                  !Silenced(runs[id], snoozed) && !WantsAll(config) && RepeatsItsPredecessor(runs, id))
            && (d.Published? <==>
                  !Silenced(runs[id], snoozed) && (WantsAll(config) || !RepeatsItsPredecessor(runs, id))))
  {
    if id in runs {
      SnoozedInPlainTerms(runs[id], snoozed);
      DuplicateInPlainTerms(runs, id);
    }
  }
}
