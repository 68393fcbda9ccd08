/** What a request is served, against a fresh evaluation. */
module EndToEnd {
  import opened Prelude
  import opened CacheSteps
  import opened SingleFlight
  import OsvStore
  import opened StoreQueries
  import opened Policy
  import opened JointRuns

  // What a request is served is what a fresh evaluation against the store would
  // decide, while the store's revision is the key's, the store is healthy and no
  // captured instant has passed, even if commits fell between the statements of the
  // checks behind it.

  // ---- What is served ----

  /** The request has been answered and, if the policy uses OSV, the store is at its key's revision. */
  ghost predicate AnsweredAtRevision(env: Env, events: seq<Event>, r: nat) {
    var s := Inside(env, events);
    && r < |s.requests| && s.requests[r].phase.Done?
    && (UsesOsv(env.settings) ==>
          s.requests[r].key.revision == Some(OsvStore.ContentRevision(Outside(events).db, s.requests[r].key.ecosystem)))
  }

  /** What the answer of a request was computed from. */
  ghost function OriginOf(env: Env, events: seq<Event>, r: nat): Origin
    requires AnsweredAtRevision(env, events, r)
  {
    Inside(env, events).requests[r].phase.answer.response.origin
  }

  lemma {:induction false} AnswerIsOk(env: Env, events: seq<Event>, r: nat)
    requires ValidConfig(env.settings.cache) && AnsweredAtRevision(env, events, r)
    ensures AnswerOk(env.settings, Inside(env, events).requests[r].key, Inside(env, events).requests[r].phase.answer)
    ensures forall x :: x in OriginOf(env, events, r).evaluated ==> Genuine(env, events, x)
  {
    var s := Inside(env, events);
    RunKeepsInvariant(env.settings, ProxyPart(env, events));
    assert RequestOk(env.settings, s, r);
    EvaluationsAreGenuine(env, events);
    assert s.requests[r] in s.requests;
  }

  /** Documents as the store holds them now. */
  ghost predicate PresentAt(events: seq<Event>, e: Ecosystem, k: nat)
    requires k <= |events|
  {
    OsvStore.ActiveDocs(Outside(events[..k]).db, e) == OsvStore.ActiveDocs(Outside(events).db, e)
  }

  /**
   As long as the ecosystem's revision is the key's when a request is answered, every
   statement of every successful check behind the answer saw exactly the documents
   the store holds now.
   */
  lemma {:induction false} ServedFromCurrentContent(env: Env, events: seq<Event>, r: nat, x: Evaluated)
    returns (health: nat, exact: nat, ranges: nat)
    requires ValidConfig(env.settings.cache) && AnsweredAtRevision(env, events, r)
    requires x in OriginOf(env, events, r).evaluated
    requires ShouldCheckOsv(env.settings.policy, x.artifact) && Usable(env.settings.policy, x.artifact, x.outcome)
    ensures CheckedAcross(env, events, x, health, exact, ranges)
    ensures PresentAt(events, x.artifact.ecosystem, health)
    ensures PresentAt(events, x.artifact.ecosystem, exact) && PresentAt(events, x.artifact.ecosystem, ranges)
  {
    AnswerIsOk(env, events, r);
    var q := Inside(env, events).requests[r];
    assert EvaluatedOk(env.settings, q.key, x);
    health, exact, ranges :| CheckedAcross(env, events, x, health, exact, ranges);
    assert x.seen[0] in x.seen && x.seen[1] in x.seen && x.seen[2] in x.seen;
    InstantsAreSound(events, health, x.artifact.ecosystem);
    InstantsAreSound(events, exact, x.artifact.ecosystem);
    InstantsAreSound(events, ranges, x.artifact.ecosystem);
  }

  /** The store may be used for this request's ecosystem at this instant, if the policy uses it at all. */
  ghost predicate HealthyFor(env: Env, events: seq<Event>, r: nat, now: nat)
    requires AnsweredAtRevision(env, events, r)
  {
    UsesOsv(env.settings) ==>
      OsvStore.StoreHealthy(env.rules, Outside(events).db, Inside(env, events).requests[r].key.ecosystem, now)
  }

  /** A successful check behind the answer is what checking afresh gives, even if commits fell between its statements. */
  lemma {:induction false} OutcomeIsCurrent(env: Env, events: seq<Event>, r: nat, x: Evaluated, now: nat)
    requires ValidConfig(env.settings.cache) && AnsweredAtRevision(env, events, r) && HealthyFor(env, events, r, now)
    requires x in OriginOf(env, events, r).evaluated && Usable(env.settings.policy, x.artifact, x.outcome)
    ensures x.outcome == OutcomeAt(env, Outside(events).db, now, x.artifact)
  {
    AnswerIsOk(env, events, r);
    assert EvaluatedOk(env.settings, Inside(env, events).requests[r].key, x);
    if ShouldCheckOsv(env.settings.policy, x.artifact) {
      var health, exact, ranges := ServedFromCurrentContent(env, events, r, x);
      var rows := RowsAt(env, Outside(events).db, x.artifact.ecosystem);
      SameRowsSameOutcome(
        env,
        OsvStore.StoreHealthy(
          env.rules, Outside(events[..health]).db, x.artifact.ecosystem, Inside(env, events[..health]).clock),
        rows, rows, x.artifact);
    }
  }

  /** Every decision behind the answer is what checking and deciding its artifact afresh at this instant gives. */
  ghost predicate DecidedAsAfresh(env: Env, events: seq<Event>, r: nat, now: nat)
    requires AnsweredAtRevision(env, events, r)
  {
    var policy, origin := env.settings.policy, OriginOf(env, events, r);
    forall x :: x in origin.evaluated ==>
      Decide(policy, x.artifact, origin.evaluatedAt, x.outcome) ==
      Decide(policy, x.artifact, now, OutcomeAt(env, Outside(events).db, now, x.artifact))
  }

  /**
   End to end: whoever filled the response and however syncs and other requests
   interleaved, a request answered while the store is still at its key's revision
   gets, at any later instant at which the store is healthy, the decisions that
   checking and deciding every artifact afresh would give, if and only if that
   instant comes before the one the response was captured with.
   */
  lemma {:induction false} ServedDecisionsAreCurrent(env: Env, events: seq<Event>, r: nat, now: nat)
    requires ValidConfig(env.settings.cache) && AnsweredAtRevision(env, events, r)
    requires AllUsable(env.settings.policy, OriginOf(env, events, r).evaluated)
    requires HealthyFor(env, events, r, now) && OriginOf(env, events, r).evaluatedAt <= now
    ensures DecidedAsAfresh(env, events, r, now) <==> StillValid(now, OriginOf(env, events, r).validUntil)
  {
    var policy, origin := env.settings.policy, OriginOf(env, events, r);
    var artifacts, outcomes := ArtifactsOf(origin.evaluated), OutcomesOf(origin.evaluated);
    AnswerIsOk(env, events, r);
    StableExactlyUntilCaptured(policy, artifacts, outcomes, origin.evaluatedAt, now);
    forall x | x in origin.evaluated
      ensures x.outcome == OutcomeAt(env, Outside(events).db, now, x.artifact)
    {
      OutcomeIsCurrent(env, events, r, x, now);
    }
    forall i | 0 <= i < |artifacts|
      ensures origin.evaluated[i] in origin.evaluated
      ensures artifacts[i] == origin.evaluated[i].artifact && outcomes[i] == origin.evaluated[i].outcome
    {
    }
  }

  /** The later of a hit's clock reading and the reading its entry was decided with. */
  ghost function HitInstant(env: Env, events: seq<Event>, r: nat): nat
    requires AnsweredAtRevision(env, events, r)
    requires Inside(env, events).requests[r].phase.answer.source.FromCache?
  {
    Max(Inside(env, events).requests[r].phase.answer.source.lookedAt, OriginOf(env, events, r).evaluatedAt)
  }

  /**
   For a hit nothing about its evaluation or its expiry need be assumed: its checks
   succeeded, and its decisions are those of a fresh evaluation at the lookup's own
   clock reading, or at the entry's if another fill read the clock later.
   */
  lemma {:induction false} HitDecisionsAreCurrent(env: Env, events: seq<Event>, r: nat)
    requires ValidConfig(env.settings.cache) && AnsweredAtRevision(env, events, r)
    requires Inside(env, events).requests[r].phase.answer.source.FromCache?
    requires HealthyFor(env, events, r, HitInstant(env, events, r))
    ensures DecidedAsAfresh(env, events, r, HitInstant(env, events, r))
  {
    var origin := OriginOf(env, events, r);
    AnswerIsOk(env, events, r);
    CapturedIsLater(env.settings.policy, ArtifactsOf(origin.evaluated), OutcomesOf(origin.evaluated), origin.evaluatedAt);
    ServedDecisionsAreCurrent(env, events, r, HitInstant(env, events, r));
  }

  /** A captured instant comes after the clock reading the decisions used. */
  lemma {:induction false} CapturedIsLater(c: Config, artifacts: seq<Artifact>, outcomes: seq<OsvOutcome>, now: int)
    requires |outcomes| == |artifacts|
    ensures StillValid(now, Captured(c, artifacts, now, outcomes))
  {
    CapturedIsEarliest(c, artifacts, outcomes, now, now);
  }
}
