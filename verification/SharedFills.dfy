/** What the requests of one key get from a fill that one of them runs. */
module SharedFills {
  import opened Prelude
  import opened CacheState
  import opened CacheSteps
  import opened SingleFlight

  /** A flight that has finished has this outcome for good. */
  predicate FinishedWith(s: Sys, flight: nat, response: Option<CachedResponse>) {
    flight < |s.cache.flights| && s.cache.flights[flight] == Finished(response)
  }

  /** Only a leader's end settles a flight, and that is its own. */
  lemma OthersKeepFlights(c: Settings, s: Sys, r: nat, move: Move, flight: nat)
    requires r < |s.requests| && flight < |s.cache.flights|
    requires s.requests[r].phase.Ended? || s.requests[r].phase.Unwinding? ==> s.requests[r].phase.flight != flight
    ensures flight < |StepRequest(c, s, r, move).cache.flights|
    ensures StepRequest(c, s, r, move).cache.flights[flight] == s.cache.flights[flight]
  {
    match move
    case Look =>
    case CompleteFill(_) =>
    case Unwind =>
    case _ =>
  }

  lemma StepKeepsFinished(c: Settings, s: Sys, a: Action, flight: nat, response: Option<CachedResponse>)
    requires Inv(c, s) && FinishedWith(s, flight, response)
    ensures FinishedWith(Step(c, s, a), flight, response)
  {
    if a.Proceed? && a.r < |s.requests| {
      assert RequestOk(c, s, a.r);
      OthersKeepFlights(c, s, a.r, a.move, flight);
    }
  }

  lemma {:induction false} RunKeepsFinished(
    c: Settings, before: seq<Action>, after: seq<Action>, flight: nat, response: Option<CachedResponse>)
    requires ValidConfig(c.cache) && FinishedWith(Run(c, before), flight, response)
    ensures FinishedWith(Run(c, before + after), flight, response)
  {
    if after == [] {
      assert before + after == before;
    } else {
      var n := |after| - 1;
      RunKeepsFinished(c, before, after[..n], flight, response);
      RunKeepsInvariant(c, before + after[..n]);
      assert (before + after)[..|before + after| - 1] == before + after[..n];
      StepKeepsFinished(c, Run(c, before + after[..n]), after[n], flight, response);
    }
  }

  /** A request that waits on a finished flight and is woken has its response, or else looks again. */
  lemma WokenBy(c: Settings, s: Sys, waiter: nat, flight: nat, response: Option<CachedResponse>)
    requires waiter < |s.requests| && s.requests[waiter].phase == Waiting(flight) && FinishedWith(s, flight, response)
    ensures Step(c, s, Proceed(waiter, Wake)).requests[waiter].phase ==
      if response.Some? then Done(Answer(response.value, FromFlight)) else Looking
  {
  }

  /** What the waiters of a fill are to get. */
  function Shared(c: Settings, q: Request): Option<CachedResponse>
    requires q.phase.Ended?
  {
    if q.phase.outcome.buffered then Some(ResponseOf(c, q)) else None
  }

  lemma CompletionFinishes(c: Settings, s: Sys, r: nat, utc: nat)
    requires Inv(c, s) && r < |s.requests| && s.requests[r].phase.Ended? && s.requests[r].phase.now <= utc <= s.clock
    ensures var t := Step(c, s, Proceed(r, CompleteFill(utc)));
      && FinishedWith(t, s.requests[r].phase.flight, Shared(c, s.requests[r]))
      && t.requests[r].phase == Returning(Answer(ResponseOf(c, s.requests[r]), FromOwnFill))
  {
    assert RequestOk(c, s, r);
  }

  /** The state after a run in which a fill's end is followed by further actions. */
  function After(c: Settings, before: seq<Action>, last: Action, after: seq<Action>): Sys {
    Run(c, before + [last] + after)
  }

  lemma AfterNothing(c: Settings, before: seq<Action>, last: Action)
    ensures After(c, before, last, []) == Run(c, before + [last]) == Step(c, Run(c, before), last)
  {
    assert before + [last] + [] == before + [last] && (before + [last])[..|before|] == before;
  }

  lemma ReleasedIsDone(c: Settings, s: Sys, r: nat, answer: Answer)
    requires r < |s.requests| && s.requests[r].phase == Returning(answer)
    ensures Step(c, s, Proceed(r, Release)).requests[r].phase == Done(answer)
  {
  }

  lemma StepKeepsRequest(c: Settings, s: Sys, r: nat, move: Move)
    requires r < |s.requests|
    ensures r < |Step(c, s, Proceed(r, move)).requests|
  {
    MoveIsLocal(c, s, r, move);
  }

  lemma UnwindFinishes(c: Settings, s: Sys, r: nat)
    requires Inv(c, s) && r < |s.requests| && s.requests[r].phase.Unwinding?
    ensures var t := Step(c, s, Proceed(r, Unwind));
      && FinishedWith(t, s.requests[r].phase.flight, None)
      && r < |t.requests| && t.requests[r].phase == Cancelled && s.requests[r].key !in t.cache.inflight
  {
    assert RequestOk(c, s, r) && FlightOk(c, s, s.requests[r].phase.flight);
  }

  /** The leader of a fill that it has completed holds its own answer. */
  lemma FillAnswersLeader(c: Settings, before: seq<Action>, r: nat, utc: nat)
    requires ValidConfig(c.cache)
    requires var s := Run(c, before);
      r < |s.requests| && s.requests[r].phase.Ended? && s.requests[r].phase.now <= utc <= s.clock
    ensures var q, t := Run(c, before).requests[r], After(c, before, Proceed(r, CompleteFill(utc)), []);
      && r < |t.requests|
      && FinishedWith(t, q.phase.flight, Shared(c, q))
      && Reports(ResponseOf(c, q), q.phase.outcome)
      && Step(c, t, Proceed(r, Release)).requests[r].phase == Done(Answer(ResponseOf(c, q), FromOwnFill))
  {
    var s, last := Run(c, before), Proceed(r, CompleteFill(utc));
    RunKeepsInvariant(c, before);
    CompletionFinishes(c, s, r, utc);
    AfterNothing(c, before, last);
    StepKeepsRequest(c, s, r, CompleteFill(utc));
    ReleasedIsDone(c, After(c, before, last, []), r, Answer(ResponseOf(c, s.requests[r]), FromOwnFill));
  }

  /**
   One fill answers everybody: whoever waits on the flight gets the leader's very
   response as soon as it is woken, however much later; only if the response could
   not be buffered does a waiter look again.
   */
  lemma FillAnswersWaiters(c: Settings, before: seq<Action>, r: nat, utc: nat, after: seq<Action>, waiter: nat)
    requires ValidConfig(c.cache)
    requires var s := Run(c, before);
      r < |s.requests| && s.requests[r].phase.Ended? && s.requests[r].phase.now <= utc <= s.clock
    requires var t := After(c, before, Proceed(r, CompleteFill(utc)), after);
      waiter < |t.requests| && t.requests[waiter].phase == Waiting(Run(c, before).requests[r].phase.flight)
    ensures var q, t := Run(c, before).requests[r], After(c, before, Proceed(r, CompleteFill(utc)), after);
      Step(c, t, Proceed(waiter, Wake)).requests[waiter].phase ==
        if q.phase.outcome.buffered then Done(Answer(ResponseOf(c, q), FromFlight)) else Looking
  {
    var q, last := Run(c, before).requests[r], Proceed(r, CompleteFill(utc));
    FillAnswersLeader(c, before, r, utc);
    AfterNothing(c, before, last);
    RunKeepsFinished(c, before + [last], after, q.phase.flight, Shared(c, q));
    WokenBy(c, After(c, before, last, after), waiter, q.phase.flight, Shared(c, q));
  }

  /** A leader that was cancelled while it queued or filled leaves nothing in flight, and whoever waits looks again. */
  lemma AbandonedFillWakesWaiters(c: Settings, before: seq<Action>, r: nat, after: seq<Action>, waiter: nat)
    requires ValidConfig(c.cache)
    requires r < |Run(c, before).requests| && Run(c, before).requests[r].phase.Unwinding?
    requires var t := After(c, before, Proceed(r, Unwind), after);
      waiter < |t.requests| && t.requests[waiter].phase == Waiting(Run(c, before).requests[r].phase.flight)
    ensures Step(c, After(c, before, Proceed(r, Unwind), after), Proceed(waiter, Wake)).requests[waiter].phase == Looking
    ensures Run(c, before).requests[r].key !in After(c, before, Proceed(r, Unwind), []).cache.inflight
  {
    var s, last := Run(c, before), Proceed(r, Unwind);
    RunKeepsInvariant(c, before);
    UnwindFinishes(c, s, r);
    AfterNothing(c, before, last);
    RunKeepsFinished(c, before + [last], after, s.requests[r].phase.flight, None);
    WokenBy(c, After(c, before, last, after), waiter, s.requests[r].phase.flight, None);
  }

  /** The response is what the fill reported. */
  predicate Reports(response: CachedResponse, report: Outcome) {
    && response.status == report.status && response.overloaded == report.overloaded
    && response.headerBytes == report.headerBytes && response.bodyLength == report.bodyLength
  }

  /**
   A leader that gets a permit fills, is done, and has its permit back: its answer is
   what its fill reported, decided and finished by the clock as it was.
   */
  lemma OwnFillAnswers(c: Settings, s: Sys, r: nat, report: Outcome)
    requires r < |s.requests| && s.requests[r].phase.Leading? && s.permits > 0
    ensures var filling := Step(c, s, Proceed(r, StartFill));
      var ended := Step(c, filling, Proceed(r, EndFill(report)));
      var completed := Step(c, ended, Proceed(r, CompleteFill(s.clock)));
      var done := Step(c, completed, Proceed(r, Release));
      && r < |done.requests| && done.permits == s.permits == filling.permits + 1
      && done.requests[r].phase.Done? && done.requests[r].phase.answer.source == FromOwnFill
      && Reports(done.requests[r].phase.answer.response, report)
      && done.requests[r].phase.answer.response.origin.evaluatedAt == s.clock
      && done.requests[r].phase.answer.response.origin.finishedAt == s.clock
  {
    var flight := s.requests[r].phase.flight;
    var filling := Step(c, s, Proceed(r, StartFill));
    assert filling.requests[r].phase == Filling(flight, [], [], s.clock);
    var ended := Step(c, filling, Proceed(r, EndFill(report)));
    assert ended.requests[r].phase == Ended(flight, [], s.clock, report, s.clock);
    var completed := Step(c, ended, Proceed(r, CompleteFill(s.clock)));
    assert completed.requests[r].phase == Returning(Answer(ResponseOf(c, ended.requests[r]), FromOwnFill));
  }

  /**
   A request that is cancelled before its fill has ended gives up: at once, or, if it
   leads, with its permit at once and with its flight as soon as it unwinds.
   */
  lemma CancelGivesUp(c: Settings, s: Sys, r: nat)
    requires Inv(c, s) && r < |s.requests|
    requires var phase := s.requests[r].phase; !(phase.Ended? || phase.Returning? || phase.Done?)
    ensures var t := Step(c, s, Proceed(r, Cancel));
      && r < |t.requests|
      && t.permits == s.permits + (if s.requests[r].phase.Filling? then 1 else 0)
      && (if Owns(s.requests[r], SomeFlight(s.requests[r])) then t.requests[r].phase == Unwinding(SomeFlight(s.requests[r]))
          else t.requests[r].phase == Cancelled)
  {
    match s.requests[r].phase
    case Leading(_) =>
    case Filling(_, _, _, _) =>
    case Unwinding(_) =>
    case _ =>
  }

  /** The flight that a request leads, if it leads one. */
  function SomeFlight(q: Request): nat {
    match q.phase
    case Leading(flight) => flight
    case Filling(flight, _, _, _) => flight
    case Unwinding(flight) => flight
    case _ => 0
  }

  // ---- When clocks are read ----

  /** Every reading of the clock that the request's answer rests on comes after this instant, unless another fill made it. */
  predicate ReadSince(floor: nat, phase: Phase) {
    match phase
    case ClockRead(now) => floor <= now
    case Filling(_, _, _, at) => floor <= at
    case Ended(_, _, at, _, now) => floor <= at && floor <= now
    case Returning(answer) => AnsweredSince(floor, answer)
    case Done(answer) => AnsweredSince(floor, answer)
    case _ => true
  }

  predicate AnsweredSince(floor: nat, answer: Answer) {
    match answer.source
    case FromCache(lookedAt) => floor <= lookedAt
    case FromOwnFill => floor <= answer.response.origin.evaluatedAt && floor <= answer.response.origin.finishedAt
    case FromFlight => true
  }

  /** The clock has not gone back, and the request has read it since. */
  predicate Timely(floor: nat, s: Sys, r: nat) {
    floor <= s.clock && (r < |s.requests| ==> ReadSince(floor, s.requests[r].phase))
  }

  lemma MoveStaysTimely(c: Settings, s: Sys, r: nat, move: Move, floor: nat)
    requires r < |s.requests| && Timely(floor, s, r)
    ensures Timely(floor, StepRequest(c, s, r, move), r)
  {
    match move
    case Look =>
    case CompleteFill(_) =>
    case Cancel =>
    case _ =>
  }

  lemma MoveKeepsClock(c: Settings, s: Sys, r: nat, move: Move)
    requires r < |s.requests|
    ensures StepRequest(c, s, r, move).clock == s.clock
  {
  }

  lemma StepStaysTimely(c: Settings, s: Sys, a: Action, r: nat, floor: nat)
    requires Timely(floor, s, r)
    ensures Timely(floor, Step(c, s, a), r)
  {
    if a.Proceed? && a.r < |s.requests| {
      MoveKeepsClock(c, s, a.r, a.move);
      MoveIsLocal(c, s, a.r, a.move);
      if a.r == r {
        MoveStaysTimely(c, s, r, a.move, floor);
      }
    }
  }

  lemma {:induction false} RunStaysTimely(c: Settings, before: seq<Action>, after: seq<Action>, r: nat)
    requires NotYetRead(Run(c, before), r)
    ensures Timely(Run(c, before).clock, Run(c, before + after), r)
  {
    if after == [] {
      assert before + after == before;
    } else {
      var rest, a := after[..|after| - 1], after[|after| - 1];
      assert (before + after)[..|before + after| - 1] == before + rest;
      RunStaysTimely(c, before, rest, r);
      StepStaysTimely(c, Run(c, before + rest), a, r, Run(c, before).clock);
    }
  }

  /**
   No answer is old: a request that comes after an instant is decided by a clock reading
   of its own that is no earlier, or gets from the cache what some fill finished less
   than a TTL before its own reading, or waits for a fill.
   */
  lemma AnswersAreTimely(c: Settings, before: seq<Action>, after: seq<Action>, r: nat)
    requires ValidConfig(c.cache) && NotYetRead(Run(c, before), r)
    requires r < |Run(c, before + after).requests| && Run(c, before + after).requests[r].phase.Done?
    ensures var answer := Run(c, before + after).requests[r].phase.answer;
      match answer.source
      case FromCache(lookedAt) =>
        Run(c, before).clock <= lookedAt && lookedAt - answer.response.origin.finishedAt < c.cache.ttl
      case FromOwnFill => Run(c, before).clock <= answer.response.origin.evaluatedAt <= answer.response.origin.finishedAt
      case FromFlight => answer.response.origin.evaluatedAt <= answer.response.origin.finishedAt
  {
    RunStaysTimely(c, before, after, r);
    RunKeepsInvariant(c, before + after);
    assert RequestOk(c, Run(c, before + after), r);
  }
}
