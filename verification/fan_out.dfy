/** Sending one report through every alert channel, and what the caller is told about it. */
module FanOut {

  /** An exception object; the logging chain reads the mark. */
  class ChannelError {
    var alreadyLogged: bool

    constructor ()
      ensures !alreadyLogged
    {
      alreadyLogged := false;
    }
  }

  /** What one channel does with the report. */
  datatype Outcome = Sends | Skips | Raises(error: ChannelError)

  /** The channels of a composite publisher; `calls` records every attempt, in order. */
  class Channels {
    const outcomes: seq<Outcome>
    var calls: seq<nat>

    constructor (outcomes: seq<Outcome>)
      ensures this.outcomes == outcomes && calls == []
    {
      this.outcomes := outcomes;
      calls := [];
    }

    method Send(i: nat) returns (outcome: Outcome)
      requires i < |outcomes|
      modifies this
      ensures outcome == outcomes[i]
      ensures calls == old(calls) + [i]
    {
      calls := calls + [i];
      outcome := outcomes[i];
    }
  }

  /** How the fan-out ends: it returns, or raises one of the channels' errors, or raises its own. */
  datatype Result = Delivered | Reraised(error: ChannelError) | Undeliverable

  function UpTo(n: nat): seq<nat> {
    seq(n, i requires 0 <= i < n => i)
  }

  ghost predicate SentBefore(outcomes: seq<Outcome>, n: nat)
    requires n <= |outcomes|
  {
    exists i | 0 <= i < n :: outcomes[i].Sends?
  }

  /** `e` is the error of the last of the first `n` channels that raised. */
  ghost predicate LastErrorBefore(outcomes: seq<Outcome>, n: nat, e: ChannelError)
    requires n <= |outcomes|
  {
    exists i | 0 <= i < n :: outcomes[i] == Raises(e) && forall j | i < j < n :: !outcomes[j].Raises?
  }

  ghost predicate AnySent(outcomes: seq<Outcome>) { SentBefore(outcomes, |outcomes|) }

  ghost predicate IsLastError(outcomes: seq<Outcome>, e: ChannelError) { LastErrorBefore(outcomes, |outcomes|, e) }

  ghost predicate AllSkipped(outcomes: seq<Outcome>) {
    forall i | 0 <= i < |outcomes| :: outcomes[i].Skips?
  }

  /** What the result must be, from the channels' outcomes alone. */
  ghost predicate IsTruthful(outcomes: seq<Outcome>, r: Result) {
    && (r.Delivered? <==> AnySent(outcomes))
    && (r.Reraised? <==> !AnySent(outcomes) && !AllSkipped(outcomes))
    && (r.Reraised? ==> IsLastError(outcomes, r.error))
    && (r.Undeliverable? <==> AllSkipped(outcomes))
  }

  /** The outcomes leave no choice about the result. */
  lemma TruthIsUnique(outcomes: seq<Outcome>, r: Result, r': Result)
    requires IsTruthful(outcomes, r) && IsTruthful(outcomes, r')
    ensures r == r'
  {
    if r.Reraised? {
      var i :| 0 <= i < |outcomes| && outcomes[i] == Raises(r.error) && forall j | i < j < |outcomes| :: !outcomes[j].Raises?;
      var k :| 0 <= k < |outcomes| && outcomes[k] == Raises(r'.error) && forall j | k < j < |outcomes| :: !outcomes[j].Raises?;
      assert !(i < k) && !(k < i);
    }
  }

  /** What the loop remembers of the first `n` channels. */
  ghost predicate Tally(outcomes: seq<Outcome>, n: nat, delivered: nat, lastError: ChannelError?) {
    && n <= |outcomes|
    && (delivered > 0 <==> SentBefore(outcomes, n))
    && (lastError == null ==> forall j | 0 <= j < n :: !outcomes[j].Raises?)
    && (lastError != null ==> LastErrorBefore(outcomes, n, lastError))
  }

  lemma TallyStep(outcomes: seq<Outcome>, n: nat, delivered: nat, lastError: ChannelError?)
    requires n < |outcomes| && Tally(outcomes, n, delivered, lastError)
    ensures
      match outcomes[n]
      case Sends => Tally(outcomes, n + 1, delivered + 1, lastError)
      case Skips => Tally(outcomes, n + 1, delivered, lastError)
      case Raises(error) => Tally(outcomes, n + 1, delivered, error)
  {
    if lastError != null {
      var i :| 0 <= i < n && outcomes[i] == Raises(lastError) && forall j | i < j < n :: !outcomes[j].Raises?;
      assert !outcomes[n].Raises? ==> forall j | i < j < n + 1 :: !outcomes[j].Raises?;
    }
  }

  lemma TallyTellsTheTruth(outcomes: seq<Outcome>, delivered: nat, lastError: ChannelError?)
    requires Tally(outcomes, |outcomes|, delivered, lastError)
    ensures IsTruthful(outcomes,
              if delivered > 0 then Delivered else if lastError != null then Reraised(lastError) else Undeliverable)
  {
  }

  /** Every channel is tried once, in order, and the answer is the truth about what was sent. Only a
      re-raised error is marked, and it is marked before it reaches the caller. */
  method DeliveredFirst(channels: Channels) returns (r: Result)
    modifies channels, set i | 0 <= i < |channels.outcomes| && channels.outcomes[i].Raises? :: channels.outcomes[i].error
    ensures channels.calls == old(channels.calls) + UpTo(|channels.outcomes|)
    ensures IsTruthful(channels.outcomes, r)
    ensures r.Reraised? ==> r.error.alreadyLogged
    ensures forall e: ChannelError | old(allocated(e)) :: r != Reraised(e) ==> e.alreadyLogged == old(e.alreadyLogged)
  {
    var outcomes := channels.outcomes;
    var delivered := 0;
    var lastError: ChannelError? := null;
    for i := 0 to |outcomes|
      invariant channels.calls == old(channels.calls) + UpTo(i)
      invariant Tally(outcomes, i, delivered, lastError)
      invariant forall e: ChannelError | old(allocated(e)) :: e.alreadyLogged == old(e.alreadyLogged)
    {
      TallyStep(outcomes, i, delivered, lastError);
      var outcome := channels.Send(i);
      match outcome {
        case Sends => delivered := delivered + 1;
        case Skips =>
        case Raises(error) => lastError := error;
      }
    }
    TallyTellsTheTruth(outcomes, delivered, lastError);
    if delivered == 0 {
      if lastError != null {
        lastError.alreadyLogged := true;
        return Reraised(lastError);
      }
      return Undeliverable;
    }
    return Delivered;
  }

  /** A run's report goes through every channel as well, and no channel's failure reaches the caller. */
  method Publish(channels: Channels)
    modifies channels
    ensures channels.calls == old(channels.calls) + UpTo(|channels.outcomes|)
  {
    for i := 0 to |channels.outcomes|
      invariant channels.calls == old(channels.calls) + UpTo(i)
    {
      var _ := channels.Send(i);
    }
  }

  /** The health edge of a connection counts as published only if a channel really sent it. A deleted
      connection is not announced at all. */
  method PublishConnectionHealth(connectionExists: bool, channels: Channels) returns (published: bool)
    modifies channels, set i | 0 <= i < |channels.outcomes| && channels.outcomes[i].Raises? :: channels.outcomes[i].error
    ensures published <==> connectionExists && AnySent(channels.outcomes)
    ensures channels.calls ==
            old(channels.calls) + if connectionExists then UpTo(|channels.outcomes|) else []
  {
    if !connectionExists {
      return false;
    }
    var r := DeliveredFirst(channels);
    match r {
      case Delivered => return true;
      case Reraised(_) => return false;
      case Undeliverable => return false;
    }
  }
}
