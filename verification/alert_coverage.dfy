/** Runs are created, finish and are dispatched concurrently. Whatever the order of
    these steps, a failure that is deduplicated repeats one that was not. */
module AlertCoverage {
  import opened Basics
  import opened AlertPipeline
  import opened AlertRouting

  /** One dispatch of a publishable run: the snoozes and settings it read and what it decided. */
  datatype Entry = Entry(run: nat, snoozed: set<nat>, config: Option<Config>, decision: Decision)

  datatype World = World(runs: Runs, log: seq<Entry>)

  datatype Event =
    | Create(id: nat, suite: nat, createdAt: int)
    | Start(id: nat)
    | Finish(id: nat, status: RunStatus, results: map<nat, ResultStatus>)
    | Dispatch(id: nat, snoozed: set<nat>, config: Option<Config>)

  predicate InFlight(run: Run) { run.status.Queued? || run.status.Running? }

  predicate Terminal(run: Run) { !InFlight(run) }

  /** One step. A step that is not possible in this state changes nothing; a run may be dispatched
      any number of times, at any moment. */
  function Next(w: World, e: Event): World {
    match e
    case Create(id, suite, createdAt) =>
      if id in w.runs then w else w.(runs := w.runs[id := Run(suite, createdAt, Queued, map[])])
    case Start(id) =>
      if id in w.runs && w.runs[id].status.Queued? then
        w.(runs := w.runs[id := w.runs[id].(status := Running)])
      else w
    case Finish(id, status, results) =>
      if id in w.runs && InFlight(w.runs[id]) && !status.Queued? && !status.Running? then
        w.(runs := w.runs[id := w.runs[id].(status := status, results := results)])
      else w
    case Dispatch(id, snoozed, config) =>
      var d := PublishRunOutcome(w.runs, id, snoozed, config);
      if d.NotPublishable? then w else w.(log := w.log + [Entry(id, snoozed, config, d)])
  }

  function Execute(events: seq<Event>): World {
    if events == [] then World(map[], []) else Next(Execute(events[..|events| - 1]), events[|events| - 1])
  }

  /** A finished run stays as it is, under any further step. */
  lemma TerminalRunsAreFrozen(w: World, e: Event, id: nat)
    requires id in w.runs
    ensures id in Next(w, e).runs
    ensures Next(w, e).runs[id].suite == w.runs[id].suite && Next(w, e).runs[id].createdAt == w.runs[id].createdAt
    ensures Terminal(w.runs[id]) ==> Next(w, e).runs[id] == w.runs[id]
  {
  }

  /** A run is queued when it is created, runs when it starts, and has the status and results it finishes
      with; a step that is out of place leaves it as it is. */
  lemma RunsMoveForward(w: World, id: nat, suite: nat, createdAt: int, status: RunStatus, results: map<nat, ResultStatus>)
    ensures
      var (created, started) := (Next(w, Create(id, suite, createdAt)), Next(w, Start(id)));
      && id in created.runs
      && created.runs[id] == (if id in w.runs then w.runs[id] else Run(suite, createdAt, Queued, map[]))
      && (id in w.runs ==>
            && id in started.runs
            && started.runs[id].status == if w.runs[id].status.Queued? then Running else w.runs[id].status)
    ensures
      var finished := Next(w, Finish(id, status, results));
      id in w.runs ==>
        && id in finished.runs
        && (InFlight(w.runs[id]) && (status.Succeeded? || status.Failed? || status.Cancelled?) ==>
              finished.runs[id].status == status && finished.runs[id].results == results)
        && (!InFlight(w.runs[id]) || status.Queued? || status.Running? ==> finished.runs[id] == w.runs[id])
  {
  }

  /** `p` precedes `id` in the suite, has finished, and already failed wherever `id` fails, as badly. */
  predicate Explains(runs: Runs, p: nat, id: nat) {
    && p in runs && id in runs
    && runs[p].suite == runs[id].suite
    && Executed(runs[p])
    && Before(runs, p, id)
    && Dominates(FailingRanks(runs[p]), FailingRanks(runs[id]))
  }

  ghost predicate EntryIsSound(runs: Runs, entry: Entry) {
    && entry.run in runs
    && Publishable(runs[entry.run])
    && !entry.decision.NotPublishable?
    && (entry.decision.Snoozed? <==> AllFailuresSnoozed(runs[entry.run], entry.snoozed))
    && (entry.decision.Deduplicated? ==>
          FailingRanks(runs[entry.run]) != map[] && exists p :: Explains(runs, p, entry.run))
  }

  ghost predicate Sound(w: World) {
    forall i | 0 <= i < |w.log| :: EntryIsSound(w.runs, w.log[i])
  }

  lemma DedupIsExplained(runs: Runs, id: nat)
    requires id in runs && IsDuplicateAlert(runs, id)
    ensures exists p :: Explains(runs, p, id)
  {
    var p := PreviousTerminalRun(runs, id).value;
    LatestExists(runs, Candidates(runs, id));
    assert p in Candidates(runs, id);
    assert Explains(runs, p, id);
  }

  lemma StepKeepsEntrySound(w: World, e: Event, entry: Entry)
    requires EntryIsSound(w.runs, entry)
    ensures EntryIsSound(Next(w, e).runs, entry)
  {
    TerminalRunsAreFrozen(w, e, entry.run);
    if entry.decision.Deduplicated? {
      var p :| Explains(w.runs, p, entry.run);
      TerminalRunsAreFrozen(w, e, p);
      assert Explains(Next(w, e).runs, p, entry.run);
    }
  }

  /** Every reachable world: each deduplicated run repeats an earlier run that has finished. */
  lemma {:induction false} ReachableWorldsAreSound(events: seq<Event>)
    ensures Sound(Execute(events))
  {
    if events != [] {
      var w, e := Execute(events[..|events| - 1]), events[|events| - 1];
      ReachableWorldsAreSound(events[..|events| - 1]);
      var w' := Next(w, e);
      forall i | 0 <= i < |w'.log| ensures EntryIsSound(w'.runs, w'.log[i]) {
        if i < |w.log| {
          assert w'.log[i] == w.log[i];
          StepKeepsEntrySound(w, e, w.log[i]);
        } else if w'.log[i].decision.Deduplicated? {
          DedupIsExplained(w.runs, e.id);
        }
      }
    }
  }

  // --- Coverage ---------------------------------------------------------------------------

  predicate WasDispatched(w: World, id: nat) {
    exists i | 0 <= i < |w.log| :: w.log[i].run == id
  }

  /** The run passed the duplicate gate: it was published, or its checks were all snoozed. */
  predicate WasNotDeduplicated(w: World, id: nat) {
    exists i | 0 <= i < |w.log| :: w.log[i].run == id && !w.log[i].decision.Deduplicated?
  }

  /** The run was published and the channels, under the settings of that moment, send it. */
  predicate WasSent(w: World, id: nat)
    requires id in w.runs
  {
    exists i | 0 <= i < |w.log| ::
      w.log[i].run == id && w.log[i].decision.Published? && ChannelSends(w.runs[id], w.log[i].config)
  }

  predicate AllDispatched(w: World) {
    forall id | id in w.runs && Publishable(w.runs[id]) :: WasDispatched(w, id)
  }

  /** `p` is `id` or an earlier run of its suite. */
  predicate UpTo(runs: Runs, p: nat, id: nat) {
    p in runs && id in runs && runs[p].suite == runs[id].suite && (p == id || Before(runs, p, id))
  }

  /** The finished runs of the suite have been dispatched, as far as `id`. */
  ghost predicate DispatchedUpTo(w: World, id: nat) {
    forall p | UpTo(w.runs, p, id) && Publishable(w.runs[p]) :: WasDispatched(w, p)
  }

  /** `c` is `id` or an earlier run of its suite, and failed wherever `id` fails, at least as badly. */
  predicate Covers(runs: Runs, c: nat, id: nat) {
    && UpTo(runs, c, id)
    && Publishable(runs[c])
    && Dominates(FailingRanks(runs[c]), FailingRanks(runs[id]))
  }

  /** What it means in terms of the two runs. */
  lemma CoversInPlainTerms(runs: Runs, c: nat, id: nat)
    ensures Covers(runs, c, id) <==>
      && c in runs && id in runs && runs[c].suite == runs[id].suite
      && (c == id || Earlier(runs, c, id))
      && (runs[c].status.Succeeded? || runs[c].status.Failed?)
      && FailsAsBadly(runs[c], runs[id])
  {
    if c in runs && id in runs {
      DominatesInPlainTerms(runs[c], runs[id]);
    }
  }

  lemma CoversIsTransitive(runs: Runs, c: nat, p: nat, id: nat)
    requires Covers(runs, c, p) && Covers(runs, p, id)
    ensures Covers(runs, c, id)
  {
    var (rc, rp, ri) := (FailingRanks(runs[c]), FailingRanks(runs[p]), FailingRanks(runs[id]));
    forall k | k in ri ensures ri[k] <= RankOf(rc, k) {
      assert ri[k] <= RankOf(rp, k);
    }
  }

  ghost function EarlierRuns(runs: Runs, id: nat): set<nat>
    requires id in runs
  {
    set q | q in runs && Before(runs, q, id)
  }

  lemma {:induction false} CoverExists(w: World, id: nat) returns (c: nat)
    requires Sound(w) && DispatchedUpTo(w, id)
    requires id in w.runs && Publishable(w.runs[id])
    ensures Covers(w.runs, c, id) && WasNotDeduplicated(w, c)
    decreases EarlierRuns(w.runs, id)
  {
    var i :| 0 <= i < |w.log| && w.log[i].run == id;
    assert EntryIsSound(w.runs, w.log[i]);
    if w.log[i].decision.Deduplicated? {
      var p :| Explains(w.runs, p, id);
      assert p in EarlierRuns(w.runs, id) && p !in EarlierRuns(w.runs, p);
      UpToAnEarlierRun(w, p, id);
      c := CoverExists(w, p);
      CoversIsTransitive(w.runs, c, p, id);
    } else {
      c := id;
    }
  }

  /** No failure goes unannounced: for every order of steps, once the finished runs of its suite up to a run
      are dispatched, that run is covered, key by key, by a single one that was not deduplicated. */
  lemma NoFailureGoesUnannounced(events: seq<Event>, id: nat)
    requires DispatchedUpTo(Execute(events), id)
    requires id in Execute(events).runs && Publishable(Execute(events).runs[id])
    ensures exists c :: Covers(Execute(events).runs, c, id) && WasNotDeduplicated(Execute(events), c)
  {
    ReachableWorldsAreSound(events);
    var c := CoverExists(Execute(events), id);
  }

  // --- Coverage and routing ---------------------------------------------------------------

  function EffectivePolicy(config: Option<Config>): Policy {
    if config.Some? then config.value.alertOn else DEFAULT_POLICY
  }

  predicate NotificationsOn(config: Option<Config>) { config.Some? ==> config.value.enabled }

  /** The dispatches of the suite's runs up to `id` saw notifications on, and the same policy. */
  predicate UniformUpTo(w: World, policy: Policy, id: nat) {
    forall i | 0 <= i < |w.log| && UpTo(w.runs, w.log[i].run, id) ::
      NotificationsOn(w.log[i].config) && EffectivePolicy(w.log[i].config) == policy
  }

  /** They saw no snoozed check. */
  predicate NothingSnoozedUpTo(w: World, id: nat) {
    forall i | 0 <= i < |w.log| && UpTo(w.runs, w.log[i].run, id) :: w.log[i].snoozed == {}
  }

  /** A run that covers a succeeded run with failing checks has results at least as bad. */
  lemma DominatingRunIsAsBad(c: Run, r: Run)
    requires Publishable(c) && r.status.Succeeded? && WorstSeverity(r.results).Some?
    requires Dominates(FailingRanks(c), FailingRanks(r))
    ensures c.status.Succeeded? && WorstSeverity(c.results).Some?
    ensures SeverityRank(WorstSeverity(c.results).value) >= SeverityRank(WorstSeverity(r.results).value)
    ensures SeverityRank(WorstSeverity(r.results).value) > 0
  {
    WorstSeverityIsWorst(r.results);
    var t := WorstSeverity(r.results).value;
    var check :| check in r.results && r.results[check] == t;
    RankOfCheck(r, check);
    assert FailingRanks(r)[CheckKey(check)] <= RankOf(FailingRanks(c), CheckKey(check));
    RankOfCheck(c, check);
    WorstSeverityIsWorst(c.results);
  }

  /** Dedup and the routing threshold compose: a run that fails at least as badly everywhere is
      sent whenever the other one is. */
  lemma DominatingRunIsSent(c: Run, r: Run, policy: Policy)
    requires Publishable(c) && Publishable(r)
    requires Dominates(FailingRanks(c), FailingRanks(r))
    requires !policy.Always?
    requires WorthSending(r, policy)
    ensures WorthSending(c, policy)
  {
    RoutingInPlainTerms(r, policy);
    RoutingInPlainTerms(c, policy);
    if r.status.Failed? {
      assert OperationalKey in FailingRanks(r);
      assert OperationalKey in FailingRanks(c);
    } else {
      DominatingRunIsAsBad(c, r);
    }
  }

  function Loudness(urgency: Urgency): nat {
    match urgency case QuietUrgency => 0 case StandardUrgency => 1 case CriticalUrgency => 2
  }

  /** A covering run is announced at least as loudly, unless the covered one is a failed run with a
      critical row and the covering one has none: then, and only then, urgency and mention are lost. */
  lemma DominatingRunIsAsLoud(c: Run, r: Run)
    requires Publishable(c) && Publishable(r)
    requires Dominates(FailingRanks(c), FailingRanks(r))
    ensures
      var kept := r.status.Succeeded? || WorstSeverity(r.results) != Some(Critical) || WorstSeverity(c.results) == Some(Critical);
      && (Loudness(UrgencyOf(c).0) >= Loudness(UrgencyOf(r).0) <==> kept)
      && ((UrgencyOf(r).1 ==> UrgencyOf(c).1) <==> kept)
  {
    if r.status.Failed? {
      assert OperationalKey in FailingRanks(r);
      assert OperationalKey in FailingRanks(c);
    } else if WorstSeverity(r.results).Some? {
      DominatingRunIsAsBad(c, r);
    }
  }

  // --- Coverage and snoozes ---------------------------------------------------------------

  /** The run passed both gates in some dispatch: something was not snoozed, and it was no repetition. */
  predicate PassedTheGates(w: World, id: nat)
    requires id in w.runs
  {
    exists i | 0 <= i < |w.log| ::
      w.log[i].run == id && !w.log[i].decision.Deduplicated? && !AllFailuresSnoozed(w.runs[id], w.log[i].snoozed)
  }

  /** In some dispatch of the run not all its failures were snoozed. */
  predicate WasLive(w: World, id: nat)
    requires id in w.runs
  {
    exists i | 0 <= i < |w.log| :: w.log[i].run == id && !AllFailuresSnoozed(w.runs[id], w.log[i].snoozed)
  }

  lemma PassedCoverIsSent(w: World, policy: Policy, c: nat, id: nat)
    requires Sound(w) && UniformUpTo(w, policy, id)
    requires Covers(w.runs, c, id) && Publishable(w.runs[id]) && WorthSending(w.runs[id], policy)
    requires PassedTheGates(w, c)
    ensures WasSent(w, c)
  {
    var i :| 0 <= i < |w.log| && w.log[i].run == c && !w.log[i].decision.Deduplicated?
             && !AllFailuresSnoozed(w.runs[c], w.log[i].snoozed);
    assert EntryIsSound(w.runs, w.log[i]);
    RoutingInPlainTerms(w.runs[c], policy);
    if !policy.Always? {
      DominatingRunIsSent(w.runs[c], w.runs[id], policy);
    }
  }

  lemma SentPassedTheGates(w: World, c: nat)
    requires Sound(w) && c in w.runs && WasSent(w, c)
    ensures PassedTheGates(w, c)
  {
    var i :| 0 <= i < |w.log| && w.log[i].run == c && w.log[i].decision.Published? && ChannelSends(w.runs[c], w.log[i].config);
    assert EntryIsSound(w.runs, w.log[i]);
  }

  /** With snoozes: what a run's route would send is sent, for it or for a run that covers it, exactly
      when some covering run passed the gates with a failure nobody had snoozed. */
  lemma SentIffACoverPassed(events: seq<Event>, policy: Policy, id: nat)
    requires UniformUpTo(Execute(events), policy, id)
    requires id in Execute(events).runs && Publishable(Execute(events).runs[id])
    requires WorthSending(Execute(events).runs[id], policy)
    ensures
      var w := Execute(events);
      (exists c :: Covers(w.runs, c, id) && WasSent(w, c)) <==> (exists c :: Covers(w.runs, c, id) && PassedTheGates(w, c))
  {
    var w := Execute(events);
    ReachableWorldsAreSound(events);
    if c :| Covers(w.runs, c, id) && WasSent(w, c) {
      SentPassedTheGates(w, c);
    }
    if c :| Covers(w.runs, c, id) && PassedTheGates(w, c) {
      PassedCoverIsSent(w, policy, c, id);
    }
  }

  /** What is snoozed when a run of the suite up to `id` is dispatched is still snoozed when a later one is. */
  predicate NoSnoozeRunsOut(w: World, id: nat) {
    forall i, j | 0 <= i < |w.log| && 0 <= j < |w.log| && Precede(w.runs, w.log[i].run, w.log[j].run, id) ::
      w.log[i].snoozed <= w.log[j].snoozed
  }

  predicate Precede(runs: Runs, p: nat, q: nat, id: nat) {
    UpTo(runs, p, id) && UpTo(runs, q, id) && Before(runs, p, q)
  }

  /** What holds as far as a run holds as far as an earlier one. */
  lemma UpToAnEarlierRun(w: World, p: nat, id: nat)
    requires UpTo(w.runs, p, id)
    ensures DispatchedUpTo(w, id) ==> DispatchedUpTo(w, p)
    ensures NoSnoozeRunsOut(w, id) ==> NoSnoozeRunsOut(w, p)
  {
    assert forall q | UpTo(w.runs, q, p) :: UpTo(w.runs, q, id);
  }

  /** A failure nobody snoozed was there before, where a run repeats another. */
  lemma ExplainingRunIsLive(runs: Runs, p: nat, id: nat, before: set<nat>, after: set<nat>)
    requires Explains(runs, p, id) && Publishable(runs[id]) && FailingRanks(runs[id]) != map[]
    requires before <= after && !AllFailuresSnoozed(runs[id], after)
    ensures !AllFailuresSnoozed(runs[p], before)
  {
    if runs[id].status.Failed? {
      assert OperationalKey in FailingRanks(runs[id]);
      assert OperationalKey in FailingRanks(runs[p]);
    } else {
      var k :| k in FailingRanks(runs[id]);
      assert k.check in FailingChecks(runs[id]);
      var check :| check in FailingChecks(runs[id]) && check !in after;
      RankOfCheck(runs[id], check);
      assert FailingRanks(runs[id])[CheckKey(check)] <= RankOf(FailingRanks(runs[p]), CheckKey(check));
      RankOfCheck(runs[p], check);
      assert check in FailingChecks(runs[p]);
    }
  }

  /** The live failure goes down the chain of repetitions to a run that was not deduplicated. */
  lemma {:induction false} LiveCoverExists(w: World, id: nat) returns (c: nat)
    requires Sound(w) && DispatchedUpTo(w, id) && NoSnoozeRunsOut(w, id)
    requires id in w.runs && Publishable(w.runs[id]) && WasLive(w, id)
    ensures Covers(w.runs, c, id) && PassedTheGates(w, c)
    decreases EarlierRuns(w.runs, id)
  {
    var i :| 0 <= i < |w.log| && w.log[i].run == id && !AllFailuresSnoozed(w.runs[id], w.log[i].snoozed);
    assert EntryIsSound(w.runs, w.log[i]);
    if w.log[i].decision.Deduplicated? {
      var p :| Explains(w.runs, p, id);
      assert p in EarlierRuns(w.runs, id) && p !in EarlierRuns(w.runs, p);
      assert UpTo(w.runs, p, id) && Precede(w.runs, p, id, id);
      UpToAnEarlierRun(w, p, id);
      var j :| 0 <= j < |w.log| && w.log[j].run == p;
      ExplainingRunIsLive(w.runs, p, id, w.log[j].snoozed, w.log[i].snoozed);
      c := LiveCoverExists(w, p);
      CoversIsTransitive(w.runs, c, p, id);
    } else {
      c := id;
    }
  }

  lemma SentWasLive(w: World, c: nat)
    requires Sound(w) && c in w.runs && WasSent(w, c)
    ensures WasLive(w, c)
  {
    SentPassedTheGates(w, c);
  }

  /** When no snooze runs out, what a run's route would send is sent, for it or for a run that covers it,
      exactly when it or a run that covers it was dispatched with a failure nobody had snoozed: the
      duplicate gate hides nothing. */
  lemma LiveFailuresAreSent(events: seq<Event>, policy: Policy, id: nat)
    requires UniformUpTo(Execute(events), policy, id)
    requires DispatchedUpTo(Execute(events), id) && NoSnoozeRunsOut(Execute(events), id)
    requires id in Execute(events).runs && Publishable(Execute(events).runs[id])
    requires WorthSending(Execute(events).runs[id], policy)
    ensures
      var w := Execute(events);
      (exists c :: Covers(w.runs, c, id) && WasSent(w, c)) <==> (exists c :: Covers(w.runs, c, id) && WasLive(w, c))
  {
    var w := Execute(events);
    ReachableWorldsAreSound(events);
    if c :| Covers(w.runs, c, id) && WasSent(w, c) {
      SentWasLive(w, c);
    }
    if c :| Covers(w.runs, c, id) && WasLive(w, c) {
      UpToAnEarlierRun(w, c, id);
      var b := LiveCoverExists(w, c);
      CoversIsTransitive(w.runs, b, c, id);
      PassedCoverIsSent(w, policy, b, id);
    }
  }

  /** With no snoozes, notifications on and one policy, whatever a run's route would send has been
      sent, for that run or for an earlier one that failed at least as badly. */
  lemma EverySendableFailureIsSent(events: seq<Event>, policy: Policy, id: nat)
    requires UniformUpTo(Execute(events), policy, id) && NothingSnoozedUpTo(Execute(events), id)
    requires DispatchedUpTo(Execute(events), id)
    requires id in Execute(events).runs && Publishable(Execute(events).runs[id])
    requires WorthSending(Execute(events).runs[id], policy)
    ensures exists c :: Covers(Execute(events).runs, c, id) && WasSent(Execute(events), c)
  {
    var w := Execute(events);
    ReachableWorldsAreSound(events);
    assert UpTo(w.runs, id, id);
    var i :| 0 <= i < |w.log| && w.log[i].run == id;
    assert WasLive(w, id);
    LiveFailuresAreSent(events, policy, id);
    assert Covers(w.runs, id, id);
  }

  // --- What a snooze or a failed run hides ----------------------------------------------------

  lemma After(events: seq<Event>, e: Event)
    ensures Execute(events + [e]) == Next(Execute(events), e)
  {
    assert (events + [e])[..|events|] == events;
  }

  /** A run is created, finishes, and is dispatched in a suite without settings. */
  function Episode(id: nat, run: Run, snoozed: set<nat>): seq<Event> {
    [Create(id, run.suite, run.createdAt), Finish(id, run.status, run.results), Dispatch(id, snoozed, None)]
  }

  lemma RunIsMade(w: World, id: nat, run: Run)
    requires id !in w.runs && Publishable(run)
    ensures Next(Next(w, Create(id, run.suite, run.createdAt)), Finish(id, run.status, run.results))
         == World(w.runs[id := run], w.log)
  {
    var created := Next(w, Create(id, run.suite, run.createdAt));
    assert created == World(w.runs[id := Run(run.suite, run.createdAt, Queued, map[])], w.log);
    assert created.runs[id := run] == w.runs[id := run];
  }

  lemma RunIsDispatched(w: World, id: nat, snoozed: set<nat>)
    requires id in w.runs && Publishable(w.runs[id])
    ensures Next(w, Dispatch(id, snoozed, None))
         == World(w.runs, w.log + [Entry(id, snoozed, None, PublishRunOutcome(w.runs, id, snoozed, None))])
  {
  }

  lemma AfterThree(events: seq<Event>, a: Event, b: Event, c: Event)
    ensures Execute(events + [a, b, c]) == Next(Next(Next(Execute(events), a), b), c)
  {
    After(events, a);
    After(events + [a], b);
    After(events + [a] + [b], c);
    OneByOne(events, a, b, c);
  }

  lemma OneByOne(events: seq<Event>, a: Event, b: Event, c: Event)
    ensures events + [a, b, c] == events + [a] + [b] + [c]
  {
  }

  lemma AfterEpisode(events: seq<Event>, id: nat, run: Run, snoozed: set<nat>)
    requires id !in Execute(events).runs && Publishable(run)
    ensures
      var (w, w') := (Execute(events), Execute(events + Episode(id, run, snoozed)));
      && w'.runs == w.runs[id := run]
      && w'.log == w.log + [Entry(id, snoozed, None, PublishRunOutcome(w'.runs, id, snoozed, None))]
  {
    var w := Execute(events);
    AfterThree(events, Create(id, run.suite, run.createdAt), Finish(id, run.status, run.results), Dispatch(id, snoozed, None));
    RunIsMade(w, id, run);
    RunIsDispatched(World(w.runs[id := run], w.log), id, snoozed);
  }

  /** Two runs of a suite, dispatched one after the other. */
  lemma AfterTwoEpisodes(first: Run, before: set<nat>, second: Run, after: set<nat>)
    requires Publishable(first) && Publishable(second)
    ensures
      var (w, runs) := (Execute(Episode(1, first, before) + Episode(2, second, after)), map[1 := first, 2 := second]);
      && w.runs == runs
      && w.log == [Entry(1, before, None, PublishRunOutcome(map[1 := first], 1, before, None)),
                   Entry(2, after, None, PublishRunOutcome(runs, 2, after, None))]
  {
    assert Execute([]) == World(map[], []);
    AfterEpisode([], 1, first, before);
    assert [] + Episode(1, first, before) == Episode(1, first, before);
    assert map[][1 := first] == map[1 := first];
    AfterEpisode(Episode(1, first, before), 2, second, after);
    assert map[1 := first][2 := second] == map[1 := first, 2 := second];
  }

  lemma SecondRunRepeats(first: Run, second: Run)
    requires first.suite == second.suite && first.createdAt < second.createdAt && Executed(first)
    requires FailingRanks(second) != map[] && Dominates(FailingRanks(first), FailingRanks(second))
    ensures IsDuplicateAlert(map[1 := first, 2 := second], 2)
  {
    var runs := map[1 := first, 2 := second];
    assert Candidates(runs, 2) == {1};
    PreviousIs(runs, 2, 1);
  }

  /** A succeeded run in which one check breaches at `critical`. */
  function Breach(suite: nat, check: nat, createdAt: int): Run { Run(suite, createdAt, Succeeded, map[check := Critical]) }

  lemma BreachFails(suite: nat, check: nat, createdAt: int)
    ensures
      var run := Breach(suite, check, createdAt);
      && Executed(run) && FailingChecks(run) == {check} && FailingRanks(run) == map[CheckKey(check) := 3]
      && WorthSending(run, WarnPlus)
  {
    var run := Breach(suite, check, createdAt);
    assert check in run.results && IsSeverity(run.results[check]);
    assert CheckKey(check) in FailingRanks(run);
    assert IsWorst(run.results, Critical);
    WorstSeverityIsWorst(run.results);
  }

  /** NoSnoozeRunsOut is needed: when a snooze runs out between two identical failures, the second is
      deduplicated against the first and nothing is ever sent, although the second was live. */
  lemma ExpiredSnoozeIsNeverSent(suite: nat, check: nat, t: int, u: int)
    requires t < u
    ensures
      var w := Execute(Episode(1, Breach(suite, check, t), {check}) + Episode(2, Breach(suite, check, u), {}));
      && w.runs == map[1 := Breach(suite, check, t), 2 := Breach(suite, check, u)] && AllDispatched(w)
      && WorthSending(w.runs[2], WarnPlus) && WasLive(w, 2)
      && !WasSent(w, 1) && !WasSent(w, 2)
  {
    var (first, second) := (Breach(suite, check, t), Breach(suite, check, u));
    BreachFails(suite, check, t);
    BreachFails(suite, check, u);
    assert CheckKey(check) in FailingRanks(second);
    SecondRunRepeats(first, second);
    AfterTwoEpisodes(first, {check}, second, {});
    var w := Execute(Episode(1, first, {check}) + Episode(2, second, {}));
    assert w.log[0] == Entry(1, {check}, None, Snoozed) && w.log[1] == Entry(2, {}, None, Deduplicated);
  }

  /** The exception in DominatingRunIsAsLoud is reached: a failed run with a critical row is deduplicated
      against a plain failed run, and its urgency and mention are never announced. */
  lemma CriticalRowOfAFailedRunIsQuiet(suite: nat, check: nat, t: int, u: int)
    requires t < u
    ensures
      var (first, second) := (Run(suite, t, Failed, map[]), Run(suite, u, Failed, map[check := Critical]));
      var w := Execute(Episode(1, first, {}) + Episode(2, second, {}));
      && w.runs == map[1 := first, 2 := second]
      && w.log == [Entry(1, {}, None, Published), Entry(2, {}, None, Deduplicated)]
      && UrgencyOf(w.runs[1]) == (StandardUrgency, false) && UrgencyOf(w.runs[2]) == (CriticalUrgency, true)
  {
    var (first, second) := (Run(suite, t, Failed, map[]), Run(suite, u, Failed, map[check := Critical]));
    assert OperationalKey in FailingRanks(second);
    SecondRunRepeats(first, second);
    AfterTwoEpisodes(first, {}, second, {});
    assert second.results[check] == Critical;
    WorstSeverityIsWorst(first.results);
    WorstSeverityIsWorst(second.results);
    assert IsWorst(second.results, Critical);
    assert Candidates(map[1 := first], 1) == {};
  }
}
