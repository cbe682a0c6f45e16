/** The alert decision pipeline: duplicate detection, snoozing, routing, and the
    order in which a finished run passes these gates. */
module AlertPipeline {
  import opened Basics

  datatype RunStatus = Queued | Running | Succeeded | Failed | Cancelled

  datatype ResultStatus = Pass | Warn | Fail | Critical | Skip | Error

  /** A key of a run's failure signature: one check, or the run as a whole. */
  datatype Key = OperationalKey | CheckKey(check: nat)

  /** `createdAt` and the run's id order the runs; ids are numbers compared as the database does. */
  datatype Run = Run(suite: nat, createdAt: int, status: RunStatus, results: map<nat, ResultStatus>)

  type Runs = map<nat, Run>

  // --- Severity order ---------------------------------------------------------------------

  /** Rank of a failing tier, worst last; 0 for the statuses that have no rank. */
  function SeverityRank(s: ResultStatus): nat {
    match s
    case Warn => 1
    case Fail => 2
    case Critical => 3
    case _ => 0
  }

  const OPERATIONAL_RANK: nat := SeverityRank(Fail)

  predicate IsFailingTier(s: ResultStatus) { SeverityRank(s) > 0 }

  predicate IsSeverity(s: ResultStatus) { !s.Skip? && !s.Error? }

  // --- Duplicate detection ----------------------------------------------------------------

  /** The failure signature of a run. */
  function FailingRanks(run: Run): map<Key, nat> {
    var ranks :=
      if run.status.Succeeded? then
        map c | c in run.results && IsFailingTier(run.results[c]) :: CheckKey(c) := SeverityRank(run.results[c])
      else
        map[];
    if ranks == map[] && run.status.Failed? then map[OperationalKey := OPERATIONAL_RANK] else ranks
  }

  function RankOf(ranks: map<Key, nat>, k: Key): nat {
    if k in ranks then ranks[k] else 0
  }

  /** Every key of `lower` fails in `upper` at least as badly. */
  predicate Dominates(upper: map<Key, nat>, lower: map<Key, nat>) {
    forall k | k in lower :: lower[k] <= RankOf(upper, k)
  }

  /** The order of runs: creation time, ties broken by id. */
  predicate Before(runs: Runs, a: nat, b: nat)
    requires a in runs && b in runs
  {
    runs[a].createdAt < runs[b].createdAt || (runs[a].createdAt == runs[b].createdAt && a < b)
  }

  predicate EvaluatedACheck(run: Run) {
    exists c :: c in run.results && IsSeverity(run.results[c])
  }

  predicate Executed(run: Run) {
    run.status.Failed? || (run.status.Succeeded? && EvaluatedACheck(run))
  }

  /** The runs a duplicate decision may look back at. */
  function Candidates(runs: Runs, id: nat): set<nat>
    requires id in runs
  {
    set p | p in runs && runs[p].suite == runs[id].suite && Executed(runs[p]) && Before(runs, p, id)
  }

  predicate IsLatest(runs: Runs, ids: set<nat>, p: nat)
    requires ids <= runs.Keys
  {
    p in ids && forall q | q in ids :: q == p || Before(runs, q, p)
  }

  lemma LatestExists(runs: Runs, ids: set<nat>)
    requires ids <= runs.Keys && ids != {}
    ensures exists p :: IsLatest(runs, ids, p)
  {
    var x :| x in ids;
    if ids == {x} {
      assert IsLatest(runs, ids, x);
    } else {
      var rest := ids - {x};
      LatestExists(runs, rest);
      var p :| IsLatest(runs, rest, p);
      var latest := if Before(runs, p, x) then x else p;
      forall q | q in ids ensures q == latest || Before(runs, q, latest) {
        assert q == x || q in rest;
      }
      assert IsLatest(runs, ids, latest);
    }
  }

  /** The suite's most recent executed run before `id`. */
  function PreviousTerminalRun(runs: Runs, id: nat): Option<nat>
    requires id in runs
  {
    var ids := Candidates(runs, id);
    if ids == {} then None
    else
      LatestExists(runs, ids);
      var p :| IsLatest(runs, ids, p);
      Some(p)
  }

  predicate IsDuplicateAlert(runs: Runs, id: nat)
    requires id in runs
  {
    var current := FailingRanks(runs[id]);
    && current != map[]
    && match PreviousTerminalRun(runs, id)
       case None => false
       case Some(p) => Dominates(FailingRanks(runs[p]), current)
  }

  // --- Snoozing ---------------------------------------------------------------------------

  function FailingChecks(run: Run): set<nat> {
    set c | c in run.results && IsFailingTier(run.results[c])
  }

  /** `snoozed` holds the checks whose snooze has not run out at the moment of the decision. */
  predicate AllFailuresSnoozed(run: Run, snoozed: set<nat>) {
    var failing := FailingChecks(run);
    !run.status.Failed? && failing != {} && failing <= snoozed
  }

  // --- Routing ----------------------------------------------------------------------------

  datatype Policy = FailOnly | WarnPlus | Always

  datatype Urgency = QuietUrgency | StandardUrgency | CriticalUrgency

  datatype Route = Route(shouldSend: bool, urgency: Urgency, mentionChannel: bool)

  const DEFAULT_POLICY := WarnPlus

  /** `t` is the worst failing tier among the results. */
  predicate IsWorst(results: map<nat, ResultStatus>, t: ResultStatus) {
    && (exists c :: c in results && results[c] == t)
    && IsFailingTier(t)
    && forall d | d in results :: SeverityRank(results[d]) <= SeverityRank(t)
  }

  function WorstSeverity(results: map<nat, ResultStatus>): Option<ResultStatus> {
    if IsWorst(results, Critical) then Some(Critical)
    else if IsWorst(results, Fail) then Some(Fail)
    else if IsWorst(results, Warn) then Some(Warn)
    else None
  }

  function UrgencyOf(run: Run): (Urgency, bool) {
    var worst := WorstSeverity(run.results);
    if worst == Some(Critical) then (CriticalUrgency, true)
    else if worst == Some(Fail) || run.status.Failed? then (StandardUrgency, false)
    else (QuietUrgency, false)
  }

  predicate ShouldSend(run: Run, policy: Policy) {
    if policy.Always? then true
    else if run.status.Failed? then true
    else
      match WorstSeverity(run.results)
      case None => false
      case Some(worst) => if policy.FailOnly? then worst.Fail? || worst.Critical? else true
  }

  function RouteFor(run: Run, policy: Policy): Route {
    var (urgency, mention) := UrgencyOf(run);
    Route(ShouldSend(run, policy), urgency, mention)
  }

  // --- Dispatch ---------------------------------------------------------------------------

  /** A suite's notification settings; a suite may have none. */
  datatype Config = Config(enabled: bool, alertOn: Policy)

  datatype Decision = NotPublishable | Snoozed | Deduplicated | Published

  predicate Publishable(run: Run) { run.status.Succeeded? || run.status.Failed? }

  predicate BypassesDedup(config: Option<Config>) {
    config.Some? && config.value.enabled && config.value.alertOn.Always?
  }

  /** The order of the gates a finished run passes. */
  function PublishRunOutcome(runs: Runs, id: nat, snoozed: set<nat>, config: Option<Config>): Decision {
    if id !in runs || !Publishable(runs[id]) then NotPublishable
    else if AllFailuresSnoozed(runs[id], snoozed) then Snoozed
    else if !BypassesDedup(config) && IsDuplicateAlert(runs, id) then Deduplicated
    else Published
  }

  /** What a channel sends for a published run: nothing when the suite's notifications are off. */
  predicate ChannelSends(run: Run, config: Option<Config>) {
    match config
    case None => RouteFor(run, DEFAULT_POLICY).shouldSend
    case Some(c) => c.enabled && RouteFor(run, c.alertOn).shouldSend
  }

  // --- Facts used by the theorems ---------------------------------------------------------

  lemma PreviousIs(runs: Runs, id: nat, p: nat)
    requires id in runs && IsLatest(runs, Candidates(runs, id), p)
    ensures PreviousTerminalRun(runs, id) == Some(p)
  {
  }

  /** The rank a run's signature gives a check, in terms of the run's results. */
  lemma RankOfCheck(run: Run, c: nat)
    requires run.status.Succeeded?
    ensures RankOf(FailingRanks(run), CheckKey(c)) == if c in run.results then SeverityRank(run.results[c]) else 0
    ensures CheckKey(c) in FailingRanks(run) <==> c in run.results && IsFailingTier(run.results[c])
  {
  }

  lemma WorstSeverityIsWorst(results: map<nat, ResultStatus>)
    ensures WorstSeverity(results) == None <==> forall c | c in results :: !IsFailingTier(results[c])
    ensures forall t :: WorstSeverity(results) == Some(t) <==> IsWorst(results, t)
  {
    if exists c :: c in results && results[c] == Critical {
      assert IsWorst(results, Critical);
    } else if exists c :: c in results && results[c] == Fail {
      assert IsWorst(results, Fail);
    } else if exists c :: c in results && results[c] == Warn {
      assert IsWorst(results, Warn);
    }
  }
}
