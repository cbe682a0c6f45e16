/** The consecutive-failure circuit breaker shared by the counter stores. */
module CircuitBreaker {

  /** What the breaker remembers between calls. */
  datatype State = State(failures: nat, openUntil: real)

  const START := State(0, 0.0)

  datatype Settings = Settings(tripAfter: int, openSeconds: real)

  /** The calls a store makes. A failure reads the clock twice when it trips the breaker. */
  datatype Event =
    | Failure(gate: real, trip: real)
    | Success(at: real)
    | Reset(at: real)

  predicate IsOpen(s: State, now: real) { now < s.openUntil }

  function AfterFailure(cfg: Settings, s: State, gate: real, trip: real): State {
    var n := s.failures + 1;
    if n >= cfg.tripAfter && !IsOpen(s, gate) then State(n, trip + cfg.openSeconds) else s.(failures := n)
  }

  function AfterSuccess(s: State, now: real): State {
    if IsOpen(s, now) then s else START
  }

  function Next(cfg: Settings, s: State, e: Event): State {
    match e
    case Failure(gate, trip) => AfterFailure(cfg, s, gate, trip)
    case Success(at) => AfterSuccess(s, at)
    case Reset(_) => START
  }

  /** The breaker object. The clock is read by the caller and passed in, once per reading. */
  class Breaker {
    const cfg: Settings
    var failures: nat
    var openUntil: real

    function Now(): State reads this { State(failures, openUntil) }

    constructor (cfg: Settings)
      ensures this.cfg == cfg && Now() == START
    {
      this.cfg := cfg;
      failures := 0;
      openUntil := 0.0;
    }

    method CheckOpen(now: real) returns (open: bool)
      ensures open == IsOpen(Now(), now)
    {
      open := now < openUntil;
    }

    method RecordFailure(gate: real, trip: real)
      modifies this
      ensures Now() == AfterFailure(cfg, old(Now()), gate, trip)
    {
      failures := failures + 1;
      if failures >= cfg.tripAfter {
        var open := CheckOpen(gate);
        if !open {
          openUntil := trip + cfg.openSeconds;
        }
      }
    }

    method RecordSuccess(now: real)
      modifies this
      ensures Now() == AfterSuccess(old(Now()), now)
    {
      var open := CheckOpen(now);
      if open {
        return;
      }
      failures := 0;
      openUntil := 0.0;
    }

    method ResetState()
      modifies this
      ensures Now() == START
    {
      failures := 0;
      openUntil := 0.0;
    }
  }

  // --- Runs -------------------------------------------------------------------------------

  /** When the event first reads the clock. No theorem below needs the clock to be monotone. */
  function Begin(e: Event): real { match e case Failure(gate, _) => gate case Success(at) => at case Reset(at) => at }

  function Run(cfg: Settings, s: State, events: seq<Event>): State {
    if events == [] then s else Next(cfg, Run(cfg, s, events[..|events| - 1]), events[|events| - 1])
  }

  /** Failures since the last reset, or the last success that did not arrive while the breaker was open. */
  function FailuresSinceClear(cfg: Settings, events: seq<Event>): nat {
    if events == [] then 0
    else
      var before := events[..|events| - 1];
      match events[|events| - 1]
      case Failure(_, _) => FailuresSinceClear(cfg, before) + 1
      case Success(at) => if IsOpen(Run(cfg, START, before), at) then FailuresSinceClear(cfg, before) else 0
      case Reset(_) => 0
  }

  lemma RunConcat(cfg: Settings, s: State, a: seq<Event>, b: seq<Event>)
    ensures Run(cfg, s, a + b) == Run(cfg, Run(cfg, s, a), b)
    decreases |b|
  {
    if b == [] {
      assert a + b == a;
    } else {
      RunConcat(cfg, s, a, b[..|b| - 1]);
      assert (a + b)[..|a + b| - 1] == a + b[..|b| - 1];
    }
  }

  /** The counter is the number of failures since the last clear; a breaker that was never tripped
      since then still has its starting deadline. */
  lemma {:induction false} CounterIsFailuresSinceClear(cfg: Settings, events: seq<Event>)
    ensures Run(cfg, START, events).failures == FailuresSinceClear(cfg, events)
    ensures Run(cfg, START, events).openUntil != 0.0 ==> FailuresSinceClear(cfg, events) >= cfg.tripAfter
  {
    if events != [] {
      CounterIsFailuresSinceClear(cfg, events[..|events| - 1]);
    }
  }

  /** It opens only after at least tripAfter failures: at any moment of a clock that is not negative,
      an open breaker has seen them since the last clear. */
  lemma OpensOnlyAfterEnoughFailures(cfg: Settings, events: seq<Event>, now: real)
    requires now >= 0.0
    requires IsOpen(Run(cfg, START, events), now)
    ensures FailuresSinceClear(cfg, events) >= cfg.tripAfter
  {
    CounterIsFailuresSinceClear(cfg, events);
  }

  /** The deadline of a breaker that was not tripped since the last clear is zero. On a clock below zero
      it is therefore open without its failures: it is closed exactly when the clock is not negative. */
  lemma UntrippedIsClosedIffClockNotNegative(cfg: Settings, events: seq<Event>, now: real)
    requires FailuresSinceClear(cfg, events) < cfg.tripAfter
    ensures !IsOpen(Run(cfg, START, events), now) <==> now >= 0.0
  {
    CounterIsFailuresSinceClear(cfg, events);
  }

  predicate NoReset(events: seq<Event>) {
    forall i | 0 <= i < |events| :: !events[i].Reset?
  }

  /** While it is open, nothing but a reset moves the deadline: stragglers neither close nor extend it. */
  lemma {:induction false} OpenBreakerKeepsItsDeadline(cfg: Settings, s: State, events: seq<Event>)
    requires NoReset(events)
    requires forall i | 0 <= i < |events| :: Begin(events[i]) < s.openUntil
    ensures Run(cfg, s, events).openUntil == s.openUntil
    ensures Run(cfg, s, events).failures >= s.failures
  {
    if events != [] {
      OpenBreakerKeepsItsDeadline(cfg, s, events[..|events| - 1]);
    }
  }

  /** A trip at time `trip` opens the breaker for exactly openSeconds: whatever calls other than a reset
      come before the deadline, it reads open before the deadline and closed from it on. */
  lemma StaysOpenExactly(cfg: Settings, before: seq<Event>, gate: real, trip: real, during: seq<Event>, now: real)
    requires !IsOpen(Run(cfg, START, before), gate)
    requires FailuresSinceClear(cfg, before) + 1 >= cfg.tripAfter
    requires NoReset(during) && forall i | 0 <= i < |during| :: Begin(during[i]) < trip + cfg.openSeconds
    ensures IsOpen(Run(cfg, START, before + [Failure(gate, trip)] + during), now) <==> now < trip + cfg.openSeconds
  {
    CounterIsFailuresSinceClear(cfg, before);
    var tripped := Run(cfg, START, before + [Failure(gate, trip)]);
    assert (before + [Failure(gate, trip)])[..|before|] == before;
    assert tripped.openUntil == trip + cfg.openSeconds;
    RunConcat(cfg, START, before + [Failure(gate, trip)], during);
    OpenBreakerKeepsItsDeadline(cfg, tripped, during);
  }

  /** After the deadline one failure reopens a tripped breaker and one success clears it. */
  lemma AfterExpiry(cfg: Settings, events: seq<Event>, gate: real, trip: real)
    requires Run(cfg, START, events).openUntil != 0.0
    requires Run(cfg, START, events).openUntil <= gate
    ensures Run(cfg, START, events + [Failure(gate, trip)]).openUntil == trip + cfg.openSeconds
    ensures Run(cfg, START, events + [Success(gate)]) == START
    ensures FailuresSinceClear(cfg, events + [Success(gate)]) == 0
  {
    CounterIsFailuresSinceClear(cfg, events);
    assert (events + [Failure(gate, trip)])[..|events|] == events;
    assert (events + [Success(gate)])[..|events|] == events;
  }
}
