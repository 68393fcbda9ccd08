/** Requests, fills, syncs and the clock as one state machine over the cache. */
module SingleFlight {
  import opened Prelude
  import opened LruSequence
  import opened CacheState
  import opened CacheSteps
  import StoreQueries
  import Policy

  /** How a request got its answer; a hit records the clock reading it used. */
  datatype Source = FromCache(lookedAt: nat) | FromFlight | FromOwnFill

  datatype Answer = Answer(response: CachedResponse, source: Source)

  /** What a finished fill reports about its response. */
  datatype Outcome = Outcome(
    buffered: bool, status: nat, headerBytes: nat, bodyLength: nat, overloaded: bool)

  /** What one statement of a check saw: the ecosystem's revision, health and rows at one instant. */
  datatype Reading = Reading(seen: nat, healthy: bool, rows: seq<StoreQueries.PackageRow>)

  datatype Phase =
    | Arrived                                   // has not looked at the store yet
    | FoundHealthy                              // has found the store healthy, not yet read the revision
    | Looking                                   // at the head of the lookup loop
    | ClockRead(now: nat)                       // has read the clock, not yet locked the cache
    | Waiting(flight: nat)                      // waits for another request's fill
    | Leading(flight: nat)                      // must fill, waits for a permit
    | Filling(flight: nat, readings: seq<Reading>, evaluated: seq<Evaluated>, at: nat)  // holds a permit, decides as of `at`
    | Ended(flight: nat, evaluated: seq<Evaluated>, at: nat, outcome: Outcome, now: nat)  // fill done, not completed
    | Returning(answer: Answer)                 // completed, still holds its permit
    | Unwinding(flight: nat)                    // cancelled leader, permit given back, not yet abandoned
    | Done(answer: Answer)
    | Cancelled

  /** The key has no revision until it has been read, or when reading it failed. */
  datatype Request = Request(key: CacheKey, revisionCacheable: bool, phase: Phase, fills: nat)

  /** Which request started a flight, and for which key. */
  datatype Log = Log(owner: nat, key: CacheKey)

  datatype Settings = Settings(cache: CacheConfig, policy: Policy.Config)

  /** Whether the policy consults the OSV store at all. */
  predicate UsesOsv(c: Settings) {
    c.policy.blockMalicious || c.policy.blockVulnerabilities
  }

  datatype Sys = Sys(
    cache: CacheView, requests: seq<Request>, log: seq<Log>, permits: nat,
    revisions: map<Ecosystem, nat>, clock: nat)

  /** What a request may do next. */
  datatype Move =
    | CheckHealth(healthy: bool)
    | ReadRevision(ok: bool)
    | ReadClock
    | Look
    | Wake
    | StartFill
    | Query(healthy: bool, rows: seq<StoreQueries.PackageRow>)
    | Evaluate(artifact: StoreQueries.Artifact, used: seq<nat>, outcome: Policy.OsvOutcome)
    | EndFill(report: Outcome)
    | CompleteFill(utc: nat)
    | Release
    | Cancel
    | Unwind

  /**
   Every critical section of the cache is one action; every statement on the store
   and every reading of the clock is an action of its own, so any interleaving is a
   list of actions.
   A disabled action changes nothing.
   */
  datatype Action =
    | Arrive(key: CacheKey)
    | Proceed(r: nat, move: Move)
    | Commit(ecosystem: Ecosystem, changed: bool)
    | Tick(elapsed: nat)

  function Revision(revisions: map<Ecosystem, nat>, e: Ecosystem): nat {
    if e in revisions then revisions[e] else 0
  }

  function Init(c: Settings): Sys {
    Sys(EMPTY, [], [], c.cache.fillConcurrency, map[], 0)
  }

  function Advance(s: Sys, r: nat, phase: Phase): Sys
    requires r < |s.requests|
  {
    s.(requests := s.requests[r := s.requests[r].(phase := phase)])
  }

  function WithRevision(s: Sys, r: nat, revision: Option<nat>): Sys
    requires r < |s.requests|
  {
    var q := s.requests[r];
    s.(requests := s.requests[r := q.(
      key := q.key.(revision := revision), revisionCacheable := revision.Some?, phase := Looking)])
  }

  /** The first statement of reading a revision, which is not needed where OSV is not used. */
  function StepCheckHealth(c: Settings, s: Sys, r: nat, healthy: bool): Sys
    requires r < |s.requests| && s.requests[r].phase.Arrived?
  {
    if !UsesOsv(c) then WithRevision(s, r, Some(0))
    else if healthy then Advance(s, r, FoundHealthy)
    else WithRevision(s, r, None)
  }

  /** The second statement reads the revision itself, or fails. */
  function StepReadRevision(s: Sys, r: nat, ok: bool): Sys
    requires r < |s.requests| && s.requests[r].phase.FoundHealthy?
  {
    WithRevision(s, r, if ok then Some(Revision(s.revisions, s.requests[r].key.ecosystem)) else None)
  }

  function StepLook(s: Sys, r: nat): Sys
    requires r < |s.requests| && s.requests[r].phase.ClockRead?
  {
    var q := s.requests[r];
    var (cache, found) := Lookup(s.cache, q.key, q.phase.now);
    match found
    case Hit(response) => Advance(s, r, Done(Answer(response, FromCache(q.phase.now)))).(cache := cache)
    case Wait(flight) => Advance(s, r, Waiting(flight)).(cache := cache)
    case Fill(flight) =>
      Advance(s, r, Leading(flight)).(cache := cache, log := s.log + [Log(r, q.key)])
  }

  function StepWake(s: Sys, r: nat): Sys
    requires r < |s.requests| && s.requests[r].phase.Waiting?
  {
    var flight := s.requests[r].phase.flight;
    if flight < |s.cache.flights| && s.cache.flights[flight].Finished? then
      match s.cache.flights[flight].response
      case Some(response) => Advance(s, r, Done(Answer(response, FromFlight)))
      case None => Advance(s, r, Looking)
    else s
  }

  /** A fill starts by reading the clock that all its decisions use. */
  function StepStartFill(s: Sys, r: nat): Sys
    requires r < |s.requests| && s.requests[r].phase.Leading?
  {
    if s.permits == 0 then s
    else
      var q := s.requests[r];
      s.(permits := s.permits - 1,
         requests := s.requests[r := q.(phase := Filling(q.phase.flight, [], [], s.clock), fills := q.fills + 1)])
  }

  /** A fill runs one statement of a check; it sees the present revision. */
  function StepQuery(s: Sys, r: nat, healthy: bool, rows: seq<StoreQueries.PackageRow>): Sys
    requires r < |s.requests| && s.requests[r].phase.Filling?
  {
    var q := s.requests[r];
    var reading := Reading(Revision(s.revisions, q.key.ecosystem), healthy, rows);
    Advance(s, r, Filling(q.phase.flight, q.phase.readings + [reading], q.phase.evaluated, q.phase.at))
  }

  predicate Made(readings: seq<Reading>, used: seq<nat>) {
    forall i :: i in used ==> i < |readings|
  }

  function SeenBy(readings: seq<Reading>, used: seq<nat>): (seen: seq<nat>)
    requires Made(readings, used)
    ensures |seen| == |used|
    ensures forall k :: 0 <= k < |used| ==> used[k] in used && seen[k] == readings[used[k]].seen
  {
    if used == [] then []
    else
      assert used[0] in used;
      assert forall i :: i in used[1..] ==> i in used;
      [readings[used[0]].seen] + SeenBy(readings, used[1..])
  }

  /** An artifact with the outcome of its check, if it needs one, and the revisions its statements saw. */
  function Judge(
    c: Settings, readings: seq<Reading>, artifact: StoreQueries.Artifact, used: seq<nat>, outcome: Policy.OsvOutcome): Evaluated
    requires Made(readings, used)
  {
    if Policy.ShouldCheckOsv(c.policy, artifact)
    then Evaluated(artifact, outcome, SeenBy(readings, used))
    else Evaluated(artifact, None, [])
  }

  predicate MayEvaluate(q: Request, artifact: StoreQueries.Artifact, used: seq<nat>) {
    q.phase.Filling? && artifact.ecosystem == q.key.ecosystem && Made(q.phase.readings, used)
  }

  /** A fill evaluates one artifact of its package from statements it has run. */
  function StepEvaluate(
    c: Settings, s: Sys, r: nat, artifact: StoreQueries.Artifact, used: seq<nat>, outcome: Policy.OsvOutcome): Sys
    requires r < |s.requests| && s.requests[r].phase.Filling?
  {
    var q := s.requests[r];
    if !MayEvaluate(q, artifact, used) then s
    else
      var x := Judge(c, q.phase.readings, artifact, used, outcome);
      Advance(s, r, Filling(q.phase.flight, q.phase.readings, q.phase.evaluated + [x], q.phase.at))
  }

  function ArtifactsOf(evaluated: seq<Evaluated>): (artifacts: seq<StoreQueries.Artifact>)
    ensures |artifacts| == |evaluated|
  {
    seq(|evaluated|, i requires 0 <= i < |evaluated| => evaluated[i].artifact)
  }

  function OutcomesOf(evaluated: seq<Evaluated>): (outcomes: seq<Policy.OsvOutcome>)
    ensures |outcomes| == |evaluated|
  {
    seq(|evaluated|, i requires 0 <= i < |evaluated| => evaluated[i].outcome)
  }

  /** The instant that deciding all these artifacts records. */
  function ValidUntil(policy: Policy.Config, at: int, evaluated: seq<Evaluated>): Option<int> {
    Policy.Captured(policy, ArtifactsOf(evaluated), at, OutcomesOf(evaluated))
  }

  /** Every check that was needed succeeded. */
  predicate AllUsable(policy: Policy.Config, evaluated: seq<Evaluated>) {
    forall x :: x in evaluated ==> Policy.Usable(policy, x.artifact, x.outcome)
  }

  function ResponseOf(c: Settings, q: Request): CachedResponse
    requires q.phase.Ended?
  {
    var o := q.phase.outcome;
    CachedResponse(
      o.status, o.headerBytes, o.bodyLength, o.overloaded,
      Origin(q.key, q.phase.evaluated, q.phase.at, q.phase.now, ValidUntil(c.policy, q.phase.at, q.phase.evaluated)))
  }

  /** The expiry under which a finished fill may be kept, if it may be kept. */
  function KeepUntil(c: Settings, q: Request, utc: nat): Option<int>
    requires q.phase.Ended? && q.phase.now <= utc
  {
    var o := q.phase.outcome;
    var expiresAt := Expiration(c.cache.ttl, ValidUntil(c.policy, q.phase.at, q.phase.evaluated), q.phase.now, utc);
    if o.status == 200 && !o.overloaded && AllUsable(c.policy, q.phase.evaluated) && q.revisionCacheable
       && o.bodyLength <= c.cache.maxEntry
    then expiresAt
    else None
  }

  function StepComplete(c: Settings, s: Sys, r: nat, utc: nat): Sys
    requires r < |s.requests| && s.requests[r].phase.Ended?
  {
    var q := s.requests[r];
    if !(q.phase.now <= utc <= s.clock) then s
    else
      var response := ResponseOf(c, q);
      var cache :=
        if q.phase.outcome.buffered
        then Complete(c.cache, s.cache, q.key, q.phase.flight, Some(response), KeepUntil(c, q, utc))
        else Complete(c.cache, s.cache, q.key, q.phase.flight, None, None);
      Advance(s, r, Returning(Answer(response, FromOwnFill))).(cache := cache)
  }

  function StepCancel(s: Sys, r: nat): Sys
    requires r < |s.requests|
  {
    match s.requests[r].phase
    case Leading(flight) => Advance(s, r, Unwinding(flight))
    case Filling(flight, _, _, _) => Advance(s, r, Unwinding(flight)).(permits := s.permits + 1)
    case Arrived | FoundHealthy | Looking | ClockRead(_) | Waiting(_) => Advance(s, r, Cancelled)
    case _ => s
  }

  function StepUnwind(s: Sys, r: nat): Sys
    requires r < |s.requests| && s.requests[r].phase.Unwinding?
  {
    var q := s.requests[r];
    Advance(s, r, Cancelled).(cache := Abandon(s.cache, q.key, q.phase.flight))
  }

  function StepRequest(c: Settings, s: Sys, r: nat, move: Move): Sys
    requires r < |s.requests|
  {
    var phase := s.requests[r].phase;
    match move
    case CheckHealth(healthy) => if phase.Arrived? then StepCheckHealth(c, s, r, healthy) else s
    case ReadRevision(ok) => if phase.FoundHealthy? then StepReadRevision(s, r, ok) else s
    case ReadClock => if phase.Looking? then Advance(s, r, ClockRead(s.clock)) else s
    case Look => if phase.ClockRead? then StepLook(s, r) else s
    case Wake => if phase.Waiting? then StepWake(s, r) else s
    case StartFill => if phase.Leading? then StepStartFill(s, r) else s
    case Query(healthy, rows) => if phase.Filling? then StepQuery(s, r, healthy, rows) else s
    case Evaluate(artifact, used, outcome) => if phase.Filling? then StepEvaluate(c, s, r, artifact, used, outcome) else s
    case EndFill(report) =>
      if phase.Filling? then Advance(s, r, Ended(phase.flight, phase.evaluated, phase.at, report, s.clock)) else s
    case CompleteFill(utc) => if phase.Ended? then StepComplete(c, s, r, utc) else s
    case Release =>
      if phase.Returning? then Advance(s, r, Done(phase.answer)).(permits := s.permits + 1) else s
    case Cancel => StepCancel(s, r)
    case Unwind => if phase.Unwinding? then StepUnwind(s, r) else s
  }

  function Step(c: Settings, s: Sys, a: Action): Sys {
    match a
    case Arrive(key) => s.(requests := s.requests + [Request(key.(revision := None), false, Arrived, 0)])
    case Commit(e, changed) =>
      s.(revisions := s.revisions[e := Revision(s.revisions, e) + if changed then 1 else 0])
    case Tick(elapsed) => s.(clock := s.clock + elapsed)
    case Proceed(r, move) => if r < |s.requests| then StepRequest(c, s, r, move) else s
  }

  function Run(c: Settings, actions: seq<Action>): Sys {
    if actions == [] then Init(c) else Step(c, Run(c, actions[..|actions| - 1]), actions[|actions| - 1])
  }

  // ---- The invariant, one clause per thing it speaks of ----

  /** A live leader of this flight. */
  predicate Owns(q: Request, flight: nat) {
    (q.phase.Leading? || q.phase.Filling? || q.phase.Ended? || q.phase.Unwinding?) && q.phase.flight == flight
  }

  /** A request whose fill is running or whose result it is still handing over. */
  predicate HoldsPermit(q: Request) {
    q.phase.Filling? || q.phase.Ended? || q.phase.Returning?
  }

  function PermitsHeld(requests: seq<Request>): nat {
    if requests == [] then 0
    else PermitsHeld(requests[..|requests| - 1]) + if HoldsPermit(requests[|requests| - 1]) then 1 else 0
  }

  /** A request that has not read its revision. */
  predicate Unread(q: Request) {
    q.phase.Arrived? || q.phase.FoundHealthy?
  }

  predicate ReadingOk(c: Settings, key: CacheKey, x: Reading) {
    UsesOsv(c) && key.revision.Some? ==> x.seen >= key.revision.value
  }

  /** An artifact of the key's ecosystem: not checked, or by statements that all saw the key's revision or a later one. */
  predicate EvaluatedOk(c: Settings, key: CacheKey, x: Evaluated) {
    && x.artifact.ecosystem == key.ecosystem
    && (if Policy.ShouldCheckOsv(c.policy, x.artifact)
        then key.revision.Some? ==> forall n :: n in x.seen ==> n >= key.revision.value
        else x.seen == [] && x.outcome.None?)
  }

  predicate AllEvaluatedOk(c: Settings, key: CacheKey, evaluated: seq<Evaluated>) {
    forall x :: x in evaluated ==> EvaluatedOk(c, key, x)
  }

  predicate ResponseOk(c: Settings, key: CacheKey, r: CachedResponse) {
    && r.origin.key == key
    && AllEvaluatedOk(c, key, r.origin.evaluated)
    && r.origin.evaluatedAt <= r.origin.finishedAt
    && r.origin.validUntil == ValidUntil(c.policy, r.origin.evaluatedAt, r.origin.evaluated)
  }

  /** The bytes of an entry: the key with its texts, and the response with headers and body. */
  function HeldBytes(c: CacheConfig, key: CacheKey, r: CachedResponse): nat {
    c.keySize + c.responseSize + r.headerBytes + r.bodyLength + |key.path|
    + (if key.accept.Some? then |key.accept.value| else 0)
    + (if key.ifNoneMatch.Some? then |key.ifNoneMatch.value| else 0)
    + (if key.ifModifiedSince.Some? then |key.ifModifiedSince.value| else 0)
    + (if key.range.Some? then |key.range.value| else 0)
    + (if key.ifRange.Some? then |key.ifRange.value| else 0)
  }

  predicate EntryOk(c: Settings, e: Entry<CacheKey, CachedResponse>) {
    && ResponseOk(c, e.key, e.response)
    && e.key.revision.Some?
    && AllUsable(c.policy, e.response.origin.evaluated)
    && e.response.status == 200 && !e.response.overloaded && e.response.bodyLength <= c.cache.maxEntry
    && e.weight == HeldBytes(c.cache, e.key, e.response)
    && e.expiresAt <= e.response.origin.finishedAt + c.cache.ttl
    && (e.response.origin.validUntil.Some? ==> e.expiresAt <= e.response.origin.validUntil.value)
  }

  predicate AnswerOk(c: Settings, key: CacheKey, a: Answer) {
    && ResponseOk(c, key, a.response)
    && (a.source.FromCache? ==>
          && key.revision.Some?
          && AllUsable(c.policy, a.response.origin.evaluated)
          && a.source.lookedAt < a.response.origin.finishedAt + c.cache.ttl
          && (a.response.origin.validUntil.Some? ==> a.source.lookedAt < a.response.origin.validUntil.value))
  }

  predicate KeyOk(c: Settings, s: Sys, q: Request) {
    && q.revisionCacheable == q.key.revision.Some?
    && (Unread(q) ==> q.key.revision.None?)
    && (UsesOsv(c) && q.key.revision.Some? ==> q.key.revision.value <= Revision(s.revisions, q.key.ecosystem))
  }

  predicate RequestOk(c: Settings, s: Sys, i: nat)
    requires i < |s.requests|
  {
    var q := s.requests[i];
    && KeyOk(c, s, q)
    && (q.phase.Waiting? ==> q.phase.flight < |s.log| && s.log[q.phase.flight].key == q.key)
    && ((q.phase.Leading? || q.phase.Filling? || q.phase.Ended? || q.phase.Unwinding?) ==>
          && q.phase.flight < |s.log| == |s.cache.flights|
          && s.log[q.phase.flight] == Log(i, q.key)
          && s.cache.flights[q.phase.flight] == Pending)
    && (q.phase.Filling? || q.phase.Ended? ==> AllEvaluatedOk(c, q.key, q.phase.evaluated))
    && (q.phase.Filling? ==> q.phase.at <= s.clock && forall x :: x in q.phase.readings ==> ReadingOk(c, q.key, x))
    && (q.phase.Ended? ==> q.phase.at <= q.phase.now <= s.clock)
    && (q.phase.Returning? || q.phase.Done? ==> AnswerOk(c, q.key, q.phase.answer))
    && q.fills <= 1
    && (Unread(q) || q.phase.Looking? || q.phase.ClockRead? || q.phase.Waiting? || q.phase.Leading? ==>
          q.fills == 0)
  }

  predicate FlightOk(c: Settings, s: Sys, f: nat)
    requires f < |s.log| == |s.cache.flights|
  {
    var log := s.log[f];
    && log.owner < |s.requests|
    && !Unread(s.requests[log.owner])
    && (s.cache.flights[f].Pending? ==>
          Owns(s.requests[log.owner], f) && log.key in s.cache.inflight && s.cache.inflight[log.key] == f)
    && (s.cache.flights[f].Finished? && s.cache.flights[f].response.Some? ==>
          ResponseOk(c, log.key, s.cache.flights[f].response.value))
  }

  ghost predicate InflightOk(s: Sys, key: CacheKey)
    requires |s.log| == |s.cache.flights|
  {
    key in s.cache.inflight ==>
      var f := s.cache.inflight[key];
      f < |s.log| && s.log[f].key == key && s.cache.flights[f] == Pending && !Holds(s.cache.lru, key)
  }

  ghost predicate CacheOk(c: Settings, lru: seq<Entry<CacheKey, CachedResponse>>) {
    DistinctKeys(lru) && Weight(lru) <= c.cache.capacity && forall e :: e in lru ==> EntryOk(c, e)
  }

  ghost predicate Inv(c: Settings, s: Sys) {
    && |s.log| == |s.cache.flights|
    && CacheOk(c, s.cache.lru)
    && (forall i {:trigger RequestOk(c, s, i)} :: 0 <= i < |s.requests| ==> RequestOk(c, s, i))
    && (forall f {:trigger FlightOk(c, s, f)} :: 0 <= f < |s.log| ==> FlightOk(c, s, f))
    && (forall key {:trigger InflightOk(s, key)} :: InflightOk(s, key))
    && s.permits + PermitsHeld(s.requests) == c.cache.fillConcurrency
  }

  // ---- Preservation ----

  lemma {:induction false} PermitsHeldUpdate(requests: seq<Request>, r: nat, q: Request)
    requires r < |requests|
    ensures PermitsHeld(requests[r := q]) + (if HoldsPermit(requests[r]) then 1 else 0)
         == PermitsHeld(requests) + (if HoldsPermit(q) then 1 else 0)
  {
    var n := |requests| - 1;
    if r == n {
      assert requests[r := q][..n] == requests[..n];
    } else {
      assert requests[r := q][..n] == requests[..n][r := q];
      PermitsHeldUpdate(requests[..n], r, q);
    }
  }

  /** One request moves on, keeping whatever flight it owns. */
  lemma Reassign(c: Settings, s: Sys, r: nat, q: Request, permits: nat)
    requires Inv(c, s) && r < |s.requests| && (Unread(q) ==> Unread(s.requests[r]))
    requires RequestOk(c, s.(requests := s.requests[r := q], permits := permits), r)
    requires forall f :: Owns(s.requests[r], f) ==> Owns(q, f)
    requires permits + (if HoldsPermit(q) then 1 else 0) == s.permits + (if HoldsPermit(s.requests[r]) then 1 else 0)
    ensures Inv(c, s.(requests := s.requests[r := q], permits := permits))
  {
    var t := s.(requests := s.requests[r := q], permits := permits);
    PermitsHeldUpdate(s.requests, r, q);
    forall i: nat | i < |t.requests|
      ensures RequestOk(c, t, i)
    {
      assert RequestOk(c, s, i);
    }
    forall f: nat | f < |t.log|
      ensures FlightOk(c, t, f)
    {
      assert FlightOk(c, s, f);
    }
    forall key
      ensures InflightOk(t, key)
    {
      assert InflightOk(s, key);
    }
  }

  /** The retained entries change, but never to a key that is being filled. */
  lemma ChangeLru(c: Settings, s: Sys, lru: seq<Entry<CacheKey, CachedResponse>>)
    requires Inv(c, s) && CacheOk(c, lru)
    requires forall key :: key in s.cache.inflight ==> !Holds(lru, key)
    ensures Inv(c, s.(cache := s.cache.(lru := lru)))
  {
    var t := s.(cache := s.cache.(lru := lru));
    forall i: nat | i < |t.requests|
      ensures RequestOk(c, t, i)
    {
      assert RequestOk(c, s, i);
    }
    forall f: nat | f < |t.log|
      ensures FlightOk(c, t, f)
    {
      assert FlightOk(c, s, f);
    }
    forall key
      ensures InflightOk(t, key)
    {
      assert InflightOk(s, key);
    }
  }

  /** A request finds nothing to serve or join, and starts a flight. */
  lemma Lead(c: Settings, s: Sys, r: nat)
    requires Inv(c, s) && r < |s.requests| && s.requests[r].phase.ClockRead?
    requires s.requests[r].key !in s.cache.inflight && !Holds(s.cache.lru, s.requests[r].key)
    ensures var q, id := s.requests[r], |s.cache.flights|;
      var cache := s.cache.(inflight := s.cache.inflight[q.key := id], flights := s.cache.flights + [Pending]);
      Inv(c, Advance(s, r, Leading(id)).(cache := cache, log := s.log + [Log(r, q.key)]))
  {
    var q, id := s.requests[r], |s.cache.flights|;
    var cache := s.cache.(inflight := s.cache.inflight[q.key := id], flights := s.cache.flights + [Pending]);
    var t := Advance(s, r, Leading(id)).(cache := cache, log := s.log + [Log(r, q.key)]);
    PermitsHeldUpdate(s.requests, r, t.requests[r]);
    forall i: nat | i < |t.requests|
      ensures RequestOk(c, t, i)
    {
      assert RequestOk(c, s, i);
    }
    forall f: nat | f < |t.log|
      ensures FlightOk(c, t, f)
    {
      if f < id {
        assert FlightOk(c, s, f);
      }
    }
    forall key
      ensures InflightOk(t, key)
    {
      assert InflightOk(s, key);
    }
  }

  /** A flight has one owner. */
  lemma OwnerIsUnique(c: Settings, s: Sys, i: nat, j: nat, flight: nat)
    requires Inv(c, s) && i < |s.requests| && j < |s.requests|
    requires Owns(s.requests[i], flight) && Owns(s.requests[j], flight)
    ensures i == j
  {
    assert RequestOk(c, s, i) && RequestOk(c, s, j);
  }

  lemma LandRequests(c: Settings, s: Sys, r: nat, flight: nat, phase: Phase, response: Option<CachedResponse>, i: nat)
    requires Inv(c, s) && r < |s.requests| && Owns(s.requests[r], flight) && i < |s.requests|
    requires (phase.Returning? && s.requests[r].phase.Ended?) || (phase.Cancelled? && s.requests[r].phase.Unwinding?)
    requires phase.Returning? ==> AnswerOk(c, s.requests[r].key, phase.answer)
    ensures var key := s.requests[r].key;
      RequestOk(c, Advance(s, r, phase).(cache := Clear(Settle(s.cache, flight, response), key, flight)), i)
  {
    assert RequestOk(c, s, i) && RequestOk(c, s, r);
    if i != r && Owns(s.requests[i], flight) {
      OwnerIsUnique(c, s, i, r, flight);
    }
  }

  /** A leader settles its flight, takes its key off the map and moves on. */
  lemma Land(c: Settings, s: Sys, r: nat, flight: nat, phase: Phase, response: Option<CachedResponse>)
    requires Inv(c, s) && r < |s.requests| && Owns(s.requests[r], flight)
    requires (phase.Returning? && s.requests[r].phase.Ended?) || (phase.Cancelled? && s.requests[r].phase.Unwinding?)
    requires phase.Returning? ==> AnswerOk(c, s.requests[r].key, phase.answer)
    requires response.Some? ==> ResponseOk(c, s.requests[r].key, response.value)
    ensures var key := s.requests[r].key;
      var cache := Clear(Settle(s.cache, flight, response), key, flight);
      && Inv(c, Advance(s, r, phase).(cache := cache))
      && key !in cache.inflight
  {
    assert RequestOk(c, s, r);
    assert FlightOk(c, s, flight);
    var key := s.requests[r].key;
    var cache := Clear(Settle(s.cache, flight, response), key, flight);
    var t := Advance(s, r, phase).(cache := cache);
    PermitsHeldUpdate(s.requests, r, t.requests[r]);
    forall i: nat | i < |t.requests|
      ensures RequestOk(c, t, i)
    {
      LandRequests(c, s, r, flight, phase, response, i);
    }
    forall f: nat | f < |t.log|
      ensures FlightOk(c, t, f)
    {
      assert FlightOk(c, s, f);
    }
    forall k
      ensures InflightOk(t, k)
    {
      assert InflightOk(s, k);
    }
  }

  /** A narrowed or reordered cache holds no key in flight. */
  lemma NarrowLru(c: Settings, s: Sys, lru: seq<Entry<CacheKey, CachedResponse>>)
    requires Inv(c, s) && DistinctKeys(lru) && Weight(lru) <= Weight(s.cache.lru)
    requires forall e :: e in lru ==> e in s.cache.lru
    ensures Inv(c, s.(cache := s.cache.(lru := lru)))
  {
    forall key | key in s.cache.inflight
      ensures !Holds(lru, key)
    {
      assert InflightOk(s, key);
      assert forall i :: 0 <= i < |lru| ==> lru[i] in lru;
    }
    ChangeLru(c, s, lru);
  }

  lemma HitKeepsInvariant(c: Settings, s: Sys, r: nat, i: nat)
    requires Inv(c, s) && r < |s.requests| && s.requests[r].phase.ClockRead?
    requires i < |s.cache.lru| && s.cache.lru[i].key == s.requests[r].key
    requires s.cache.lru[i].expiresAt > s.requests[r].phase.now
    ensures Inv(c, Advance(s, r, Done(Answer(s.cache.lru[i].response, FromCache(s.requests[r].phase.now))))
                    .(cache := s.cache.(lru := Touch(s.cache.lru, i))))
  {
    var q, lru := s.requests[r], s.cache.lru;
    assert RequestOk(c, s, r);
    assert lru[i] in lru && EntryOk(c, lru[i]);
    var moved := q.(phase := Done(Answer(lru[i].response, FromCache(q.phase.now))));
    Reassign(c, s, r, moved, s.permits);
    TouchKeepsEntries(lru, i);
    NarrowLru(c, s.(requests := s.requests[r := moved]), Touch(lru, i));
  }

  /** A request that finds no entry waits on a flight or leads one. */
  lemma MissKeepsInvariant(c: Settings, s: Sys, r: nat)
    requires Inv(c, s) && r < |s.requests| && s.requests[r].phase.ClockRead? && !Holds(s.cache.lru, s.requests[r].key)
    ensures Inv(c, StepLook(s, r))
  {
    var q := s.requests[r];
    assert Find(s.cache.lru, q.key) == |s.cache.lru|;
    if q.key in s.cache.inflight {
      assert InflightOk(s, q.key);
      assert RequestOk(c, s, r);
      Reassign(c, s, r, q.(phase := Waiting(s.cache.inflight[q.key])), s.permits);
    } else {
      Lead(c, s, r);
    }
  }

  lemma LookKeepsInvariant(c: Settings, s: Sys, r: nat)
    requires Inv(c, s) && r < |s.requests| && s.requests[r].phase.ClockRead?
    ensures Inv(c, StepLook(s, r))
  {
    var q, lru := s.requests[r], s.cache.lru;
    var i := Find(lru, q.key);
    if i < |lru| && lru[i].expiresAt > q.phase.now {
      HitKeepsInvariant(c, s, r, i);
    } else {
      RemoveKeyForgets(lru, q.key);
      NarrowLru(c, s, RemoveKey(lru, q.key));
      MissKeepsInvariant(c, s.(cache := s.cache.(lru := RemoveKey(lru, q.key))), r);
    }
  }

  lemma ResponseIsOk(c: Settings, s: Sys, r: nat)
    requires Inv(c, s) && r < |s.requests| && s.requests[r].phase.Ended?
    ensures ResponseOk(c, s.requests[r].key, ResponseOf(c, s.requests[r]))
  {
    assert RequestOk(c, s, r);
  }

  /** A response that may be kept satisfies what every retained entry must. */
  lemma StoreKeepsCache(c: Settings, s: Sys, r: nat, utc: nat, expiresAt: int)
    requires Inv(c, s) && r < |s.requests| && s.requests[r].phase.Ended? && ValidConfig(c.cache)
    requires s.requests[r].phase.now <= utc && KeepUntil(c, s.requests[r], utc) == Some(expiresAt)
    ensures var q, response := s.requests[r], ResponseOf(c, s.requests[r]);
      var weight := SaturatingAdd(KeyWeight(c.cache, q.key), ResponseWeight(c.cache, response));
      var lru := Insert(s.cache.lru, Entry(q.key, response, expiresAt, weight), c.cache.capacity);
      weight <= c.cache.capacity ==>
        CacheOk(c, lru) && forall key :: Holds(lru, key) ==> key == q.key || Holds(s.cache.lru, key)
  {
    assert RequestOk(c, s, r);
    var q, response := s.requests[r], ResponseOf(c, s.requests[r]);
    var weight := SaturatingAdd(KeyWeight(c.cache, q.key), ResponseWeight(c.cache, response));
    var e := Entry(q.key, response, expiresAt, weight);
    if weight <= c.cache.capacity {
      InsertFits(s.cache.lru, e, c.cache.capacity);
      var lru := Insert(s.cache.lru, e, c.cache.capacity);
      forall key | Holds(lru, key) && key != q.key
        ensures Holds(s.cache.lru, key)
      {
        var i :| 0 <= i < |lru| && lru[i].key == key;
        assert lru[i] in lru && lru[i] in s.cache.lru;
      }
    }
  }

  lemma CompleteKeepsInvariant(c: Settings, s: Sys, r: nat, utc: nat)
    requires Inv(c, s) && ValidConfig(c.cache) && r < |s.requests| && s.requests[r].phase.Ended?
    ensures Inv(c, StepComplete(c, s, r, utc))
  {
    var q := s.requests[r];
    if q.phase.now <= utc <= s.clock {
      ResponseIsOk(c, s, r);
      var flight, response := q.phase.flight, ResponseOf(c, q);
      var settled := if q.phase.outcome.buffered then Some(response) else None;
      var expiresAt := if q.phase.outcome.buffered then KeepUntil(c, q, utc) else None;
      Land(c, s, r, flight, Returning(Answer(response, FromOwnFill)), settled);
      var cache := Clear(Settle(s.cache, flight, settled), q.key, flight);
      var s1 := Advance(s, r, Returning(Answer(response, FromOwnFill))).(cache := cache);
      var weight := SaturatingAdd(KeyWeight(c.cache, q.key), ResponseWeight(c.cache, response));
      if expiresAt.Some? && weight <= c.cache.capacity {
        StoreKeepsCache(c, s, r, utc, expiresAt.value);
        var lru := Insert(s.cache.lru, Entry(q.key, response, expiresAt.value, weight), c.cache.capacity);
        ChangeLru(c, s1, lru) by {
          forall key | key in s1.cache.inflight
            ensures !Holds(lru, key)
          {
            assert InflightOk(s, key);
          }
        }
      }
    }
  }

  lemma ReadKeepsInvariant(c: Settings, s: Sys, r: nat, move: Move)
    requires Inv(c, s) && r < |s.requests| && (move.CheckHealth? || move.ReadRevision?)
    ensures Inv(c, StepRequest(c, s, r, move))
  {
    assert RequestOk(c, s, r);
    if StepRequest(c, s, r, move) != s {
      Reassign(c, s, r, StepRequest(c, s, r, move).requests[r], s.permits);
    }
  }

  lemma WakeKeepsInvariant(c: Settings, s: Sys, r: nat)
    requires Inv(c, s) && r < |s.requests| && s.requests[r].phase.Waiting?
    ensures Inv(c, StepWake(s, r))
  {
    assert RequestOk(c, s, r);
    assert FlightOk(c, s, s.requests[r].phase.flight);
    if StepWake(s, r) != s {
      Reassign(c, s, r, StepWake(s, r).requests[r], s.permits);
    }
  }

  lemma FillKeepsInvariant(c: Settings, s: Sys, r: nat, move: Move)
    requires Inv(c, s) && r < |s.requests|
    requires move.StartFill? || move.EndFill? || move.Release?
    ensures Inv(c, StepRequest(c, s, r, move))
  {
    assert RequestOk(c, s, r);
    var t := StepRequest(c, s, r, move);
    if t != s {
      Reassign(c, s, r, t.requests[r], t.permits);
    }
  }

  /** What a fill evaluates saw no less than what its statements saw. */
  lemma JudgedIsOk(c: Settings, q: Request, artifact: StoreQueries.Artifact, used: seq<nat>, outcome: Policy.OsvOutcome)
    requires MayEvaluate(q, artifact, used) && forall x :: x in q.phase.readings ==> ReadingOk(c, q.key, x)
    ensures EvaluatedOk(c, q.key, Judge(c, q.phase.readings, artifact, used, outcome))
  {
    var seen := SeenBy(q.phase.readings, used);
    forall n | n in seen
      ensures exists x :: x in q.phase.readings && n == x.seen
    {
      var k :| 0 <= k < |seen| && seen[k] == n;
      assert used[k] in used && q.phase.readings[used[k]] in q.phase.readings;
    }
  }

  lemma EvaluationKeepsInvariant(c: Settings, s: Sys, r: nat, move: Move)
    requires Inv(c, s) && r < |s.requests| && (move.Query? || move.Evaluate?)
    ensures Inv(c, StepRequest(c, s, r, move))
  {
    assert RequestOk(c, s, r);
    var t := StepRequest(c, s, r, move);
    if t != s {
      if move.Evaluate? {
        JudgedIsOk(c, s.requests[r], move.artifact, move.used, move.outcome);
      }
      Reassign(c, s, r, t.requests[r], t.permits);
    }
  }

  lemma CancelKeepsInvariant(c: Settings, s: Sys, r: nat)
    requires Inv(c, s) && r < |s.requests|
    ensures Inv(c, StepCancel(s, r))
  {
    assert RequestOk(c, s, r);
    var t := StepCancel(s, r);
    if t != s {
      Reassign(c, s, r, t.requests[r], t.permits);
    }
  }

  lemma MoveKeepsInvariant(c: Settings, s: Sys, r: nat, move: Move)
    requires Inv(c, s) && ValidConfig(c.cache) && r < |s.requests|
    ensures Inv(c, StepRequest(c, s, r, move))
  {
    var phase := s.requests[r].phase;
    match move
    case CheckHealth(_) | ReadRevision(_) => ReadKeepsInvariant(c, s, r, move);
    case ReadClock =>
      if phase.Looking? {
        assert RequestOk(c, s, r);
        Reassign(c, s, r, s.requests[r].(phase := ClockRead(s.clock)), s.permits);
      }
    case Look => if phase.ClockRead? { LookKeepsInvariant(c, s, r); }
    case Wake => if phase.Waiting? { WakeKeepsInvariant(c, s, r); }
    case CompleteFill(utc) => if phase.Ended? { CompleteKeepsInvariant(c, s, r, utc); }
    case Unwind => if phase.Unwinding? { Land(c, s, r, phase.flight, Cancelled, None); }
    case Cancel => CancelKeepsInvariant(c, s, r);
    case Query(_, _) | Evaluate(_, _, _) => EvaluationKeepsInvariant(c, s, r, move);
    case StartFill | EndFill(_) | Release => FillKeepsInvariant(c, s, r, move);
  }

  lemma ArriveKeepsInvariant(c: Settings, s: Sys, key: CacheKey)
    requires Inv(c, s)
    ensures Inv(c, Step(c, s, Arrive(key)))
  {
    var t := Step(c, s, Arrive(key));
    assert t.requests[..|s.requests|] == s.requests;
    forall i: nat | i < |t.requests|
      ensures RequestOk(c, t, i)
    {
      if i < |s.requests| {
        assert RequestOk(c, s, i);
      }
    }
    forall f: nat | f < |t.log|
      ensures FlightOk(c, t, f)
    {
      assert FlightOk(c, s, f);
    }
    forall k
      ensures InflightOk(t, k)
    {
      assert InflightOk(s, k);
    }
  }

  /** Commits and the passing of time only move the store and the clock forward. */
  lemma WorldKeepsInvariant(c: Settings, s: Sys, a: Action)
    requires Inv(c, s) && (a.Commit? || a.Tick?)
    ensures Inv(c, Step(c, s, a))
  {
    var t := Step(c, s, a);
    forall i: nat | i < |t.requests|
      ensures RequestOk(c, t, i)
    {
      assert RequestOk(c, s, i);
    }
    forall f: nat | f < |t.log|
      ensures FlightOk(c, t, f)
    {
      assert FlightOk(c, s, f);
    }
    forall k
      ensures InflightOk(t, k)
    {
      assert InflightOk(s, k);
    }
  }

  lemma StepKeepsInvariant(c: Settings, s: Sys, a: Action)
    requires Inv(c, s) && ValidConfig(c.cache)
    ensures Inv(c, Step(c, s, a))
  {
    match a
    case Arrive(key) => ArriveKeepsInvariant(c, s, key);
    case Proceed(r, move) => if r < |s.requests| { MoveKeepsInvariant(c, s, r, move); }
    case Commit(_, _) => WorldKeepsInvariant(c, s, a);
    case Tick(_) => WorldKeepsInvariant(c, s, a);
  }

  lemma {:induction false} RunKeepsInvariant(c: Settings, actions: seq<Action>)
    requires ValidConfig(c.cache)
    ensures Inv(c, Run(c, actions))
  {
    if actions == [] {
      var s := Init(c);
      forall k
        ensures InflightOk(s, k)
      {
      }
    } else {
      RunKeepsInvariant(c, actions[..|actions| - 1]);
      StepKeepsInvariant(c, Run(c, actions[..|actions| - 1]), actions[|actions| - 1]);
    }
  }

  // ---- What every run guarantees ----

  /** Some request is still going to settle this flight. */
  ghost predicate HasLiveLeader(s: Sys, flight: nat) {
    exists i :: 0 <= i < |s.requests| && Owns(s.requests[i], flight)
  }

  /**
   In every reachable state: requests leading fills for one key are one request;
   every mapped flight is pending and led by a live request for that key; no key
   is both retained and in flight; every waiter's flight is for its own key and
   is finished or still led; no request has run its fill twice; and running
   fills stay within the permits.
   */
  lemma SingleFlightTheorem(c: Settings, actions: seq<Action>)
    requires ValidConfig(c.cache)
    ensures var s := Run(c, actions);
      && (forall i, j, f, g ::
            (0 <= i < |s.requests| && 0 <= j < |s.requests| && s.requests[i].key == s.requests[j].key
             && Owns(s.requests[i], f) && Owns(s.requests[j], g)) ==> i == j)
      && (forall key :: key in s.cache.inflight ==>
            && s.cache.inflight[key] < |s.cache.flights| && s.cache.flights[s.cache.inflight[key]] == Pending
            && HasLiveLeader(s, s.cache.inflight[key])
            && !Holds(s.cache.lru, key))
      && (forall i :: 0 <= i < |s.requests| && s.requests[i].phase.Waiting? ==>
            var f := s.requests[i].phase.flight;
            f < |s.log| == |s.cache.flights| && s.log[f].key == s.requests[i].key
            && (s.cache.flights[f].Finished? || HasLiveLeader(s, f)))
      && (forall i :: 0 <= i < |s.requests| ==> s.requests[i].fills <= 1)
      && s.permits + PermitsHeld(s.requests) == c.cache.fillConcurrency
      && Weight(s.cache.lru) <= c.cache.capacity
  {
    RunKeepsInvariant(c, actions);
    var s := Run(c, actions);
    forall i, j, f, g | 0 <= i < |s.requests| && 0 <= j < |s.requests| && s.requests[i].key == s.requests[j].key
        && Owns(s.requests[i], f) && Owns(s.requests[j], g)
      ensures i == j
    {
      assert RequestOk(c, s, i) && RequestOk(c, s, j) && FlightOk(c, s, f) && FlightOk(c, s, g);
    }
    forall key | key in s.cache.inflight
      ensures s.cache.inflight[key] < |s.cache.flights| && s.cache.flights[s.cache.inflight[key]] == Pending
      ensures HasLiveLeader(s, s.cache.inflight[key]) && !Holds(s.cache.lru, key)
    {
      assert InflightOk(s, key) && FlightOk(c, s, s.cache.inflight[key]);
    }
    forall i | 0 <= i < |s.requests|
      ensures s.requests[i].fills <= 1
      ensures s.requests[i].phase.Waiting? ==>
        var f := s.requests[i].phase.flight;
        f < |s.log| == |s.cache.flights| && s.log[f].key == s.requests[i].key
        && (s.cache.flights[f].Finished? || HasLiveLeader(s, f))
    {
      assert RequestOk(c, s, i);
      if s.requests[i].phase.Waiting? {
        assert FlightOk(c, s, s.requests[i].phase.flight);
      }
    }
  }

  /** A kept response is a successful one under a known revision, is not too long, and is weighed with all its texts and its body. */
  ghost predicate Sound(c: Settings, e: Entry<CacheKey, CachedResponse>) {
    && e.key.revision.Some? && AllUsable(c.policy, e.response.origin.evaluated)
    && e.response.status == 200 && !e.response.overloaded && e.response.bodyLength <= c.cache.maxEntry
    && e.weight == HeldBytes(c.cache, e.key, e.response)
  }

  /** What is known of every response: whether kept, shared with waiters or answered. */
  ghost predicate ResponsesOk(c: Settings, s: Sys) {
    && |s.log| == |s.cache.flights|
    && (forall e :: e in s.cache.lru ==> ResponseOk(c, e.key, e.response) && Sound(c, e))
    && (forall f :: 0 <= f < |s.log| && s.cache.flights[f].Finished? && s.cache.flights[f].response.Some? ==>
          ResponseOk(c, s.log[f].key, s.cache.flights[f].response.value))
    && (forall i :: 0 <= i < |s.requests| && s.requests[i].phase.Done? ==>
          ResponseOk(c, s.requests[i].key, s.requests[i].phase.answer.response))
  }

  /**
   In every reachable state a response holds until exactly the instant that deciding
   its artifacts recorded, its checks saw its key's revision or a later one, and if
   it is kept all of them succeeded, it is a plain success and its weight is what it
   holds.
   */
  lemma ResponsesAreCaptured(c: Settings, actions: seq<Action>)
    requires ValidConfig(c.cache)
    ensures ResponsesOk(c, Run(c, actions))
  {
    RunKeepsInvariant(c, actions);
    var s := Run(c, actions);
    forall e | e in s.cache.lru
      ensures ResponseOk(c, e.key, e.response) && Sound(c, e)
    {
      assert EntryOk(c, e);
    }
    forall f | 0 <= f < |s.log| && s.cache.flights[f].Finished? && s.cache.flights[f].response.Some?
      ensures ResponseOk(c, s.log[f].key, s.cache.flights[f].response.value)
    {
      assert FlightOk(c, s, f);
    }
    forall i | 0 <= i < |s.requests| && s.requests[i].phase.Done?
      ensures ResponseOk(c, s.requests[i].key, s.requests[i].phase.answer.response)
    {
      assert RequestOk(c, s, i);
    }
  }

  /** The request has a move of its own that changes the state. */
  ghost predicate Ready(c: Settings, s: Sys, i: nat)
    requires i < |s.requests|
  {
    exists move: Move :: !move.Cancel? && StepRequest(c, s, i, move) != s
  }

  lemma {:induction false} SomeoneHoldsAPermit(requests: seq<Request>) returns (k: nat)
    requires PermitsHeld(requests) > 0
    ensures k < |requests| && HoldsPermit(requests[k])
  {
    var n := |requests| - 1;
    if HoldsPermit(requests[n]) {
      k := n;
    } else {
      k := SomeoneHoldsAPermit(requests[..n]);
    }
  }

  predicate Unfinished(s: Sys, i: nat) {
    i < |s.requests| && !s.requests[i].phase.Done? && !s.requests[i].phase.Cancelled?
  }

  lemma Unblocked(c: Settings, s: Sys, i: nat)
    requires Inv(c, s) && ValidConfig(c.cache) && Unfinished(s, i)
    requires s.requests[i].phase.Waiting? ==>
      s.requests[i].phase.flight < |s.cache.flights| && s.cache.flights[s.requests[i].phase.flight].Finished?
    requires s.requests[i].phase.Leading? ==> s.permits > 0
    ensures Ready(c, s, i)
  {
    assert RequestOk(c, s, i);
    var move := match s.requests[i].phase
      case Arrived => CheckHealth(true)
      case FoundHealthy => ReadRevision(true)
      case Looking => ReadClock
      case ClockRead(_) => Look
      case Waiting(_) => Wake
      case Leading(_) => StartFill
      case Filling(_, _, _, _) => EndFill(Outcome(true, 200, 0, 0, false))
      case Ended(_, _, _, _, _) => CompleteFill(s.clock)
      case Returning(_) => Release
      case _ => Unwind;
    assert StepRequest(c, s, i, move).requests[i] != s.requests[i];
  }

  /**
   No request is stranded: an unfinished request can move, or it waits on a
   flight whose live leader can move or queues for a permit, and whenever a
   leader queues some permit holder can move.
   */
  lemma NoRequestIsStranded(c: Settings, actions: seq<Action>, i: nat) returns (leader: nat, holder: nat)
    requires ValidConfig(c.cache)
    requires Unfinished(Run(c, actions), i)
    ensures var s := Run(c, actions);
      && leader < |s.requests| && holder < |s.requests|
      && (leader != i ==> s.requests[i].phase.Waiting? && Owns(s.requests[leader], s.requests[i].phase.flight))
      && (holder != leader ==> s.requests[leader].phase.Leading? && HoldsPermit(s.requests[holder]))
      && Ready(c, s, holder)
  {
    RunKeepsInvariant(c, actions);
    var s := Run(c, actions);
    assert RequestOk(c, s, i);
    leader := i;
    if s.requests[i].phase.Waiting? {
      var f := s.requests[i].phase.flight;
      assert FlightOk(c, s, f);
      if s.cache.flights[f].Pending? {
        leader := s.log[f].owner;
      }
    }
    holder := leader;
    if s.requests[leader].phase.Leading? && s.permits == 0 {
      holder := SomeoneHoldsAPermit(s.requests);
    }
    Unblocked(c, s, holder);
  }

  /** A move touches its own request only, and its key only before the revision is read. */
  lemma MoveIsLocal(c: Settings, s: Sys, r: nat, move: Move)
    requires r < |s.requests|
    ensures var t := StepRequest(c, s, r, move);
      && t.revisions == s.revisions
      && t.requests == s.requests[r := t.requests[r]]
      && (t.requests[r].key == s.requests[r].key
          || (s.requests[r].phase.Arrived? && move.CheckHealth? && t == StepCheckHealth(c, s, r, move.healthy))
          || (s.requests[r].phase.FoundHealthy? && move.ReadRevision? && t == StepReadRevision(s, r, move.ok)))
  {
  }

  /** No revision has dropped below the floor, and a key read since names at least the floor. */
  ghost predicate AboveFloor(floor: map<Ecosystem, nat>, s: Sys, r: nat) {
    && (forall e :: Revision(floor, e) <= Revision(s.revisions, e))
    && (r < |s.requests| && s.requests[r].key.revision.Some? ==>
          s.requests[r].key.revision.value >= Revision(floor, s.requests[r].key.ecosystem))
  }

  lemma StepStaysAboveFloor(c: Settings, floor: map<Ecosystem, nat>, s: Sys, a: Action, r: nat)
    requires AboveFloor(floor, s, r) && UsesOsv(c)
    ensures AboveFloor(floor, Step(c, s, a), r)
  {
    if a.Proceed? && a.r < |s.requests| {
      MoveIsLocal(c, s, a.r, a.move);
    }
  }

  /** This request is still to come, or has not read its revision. */
  predicate NotYetRead(s: Sys, r: nat) {
    r >= |s.requests| || Unread(s.requests[r])
  }

  lemma {:induction false} RunStaysAboveFloor(c: Settings, before: seq<Action>, after: seq<Action>, r: nat)
    requires ValidConfig(c.cache) && UsesOsv(c)
    requires NotYetRead(Run(c, before), r)
    ensures AboveFloor(Run(c, before).revisions, Run(c, before + after), r)
  {
    if after == [] {
      assert before + after == before;
      RunKeepsInvariant(c, before);
      var s := Run(c, before);
      assert r < |s.requests| ==> RequestOk(c, s, r);
    } else {
      var rest, a := after[..|after| - 1], after[|after| - 1];
      assert (before + after)[..|before + after| - 1] == before + rest;
      RunStaysAboveFloor(c, before, rest, r);
      StepStaysAboveFloor(c, Run(c, before).revisions, Run(c, before + rest), a, r);
    }
  }

  /**
   The documented promise: a request that had not yet read its revision at some
   instant of a run is never answered from a statement on the OSV store that saw less
   than that instant's revision, however syncs, hits, shared fills and cancellations interleave.  If
   it found the store unhealthy it is never answered from a retained entry; and
   a retained entry is served only if all its checks succeeded, and before its TTL
   and the instant that deciding its artifacts recorded.
   */
  lemma FreshnessTheorem(c: Settings, before: seq<Action>, after: seq<Action>, r: nat)
    requires ValidConfig(c.cache) && UsesOsv(c)
    requires r < |Run(c, before + after).requests| && Run(c, before + after).requests[r].phase.Done?
    requires NotYetRead(Run(c, before), r)
    ensures var s, q := Run(c, before), Run(c, before + after).requests[r];
      var answer := q.phase.answer;
      var origin := answer.response.origin;
      && origin.key == q.key
      && (q.key.revision.Some? ==>
            forall x, n :: x in origin.evaluated && n in x.seen ==> n >= Revision(s.revisions, q.key.ecosystem))
      && origin.validUntil == ValidUntil(c.policy, origin.evaluatedAt, origin.evaluated)
      && (answer.source.FromCache? ==>
            && q.key.revision.Some?
            && AllUsable(c.policy, origin.evaluated)
            && answer.source.lookedAt < origin.finishedAt + c.cache.ttl
            && (origin.validUntil.Some? ==> answer.source.lookedAt < origin.validUntil.value))
  {
    RunKeepsInvariant(c, before + after);
    RunStaysAboveFloor(c, before, after, r);
    assert RequestOk(c, Run(c, before + after), r);
  }
}
