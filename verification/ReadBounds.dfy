/** Where what the responses rest on comes from. */
module ReadBounds {
  import opened Prelude
  import opened LruSequence
  import opened CacheSteps
  import opened CacheState
  import opened SingleFlight

  ghost predicate ResponseFrom(good: iset<Evaluated>, response: CachedResponse) {
    forall x :: x in response.origin.evaluated ==> x in good
  }

  ghost predicate RequestFrom(good: iset<Evaluated>, q: Request) {
    && (q.phase.Filling? || q.phase.Ended? ==> forall x :: x in q.phase.evaluated ==> x in good)
    && (q.phase.Returning? || q.phase.Done? ==> ResponseFrom(good, q.phase.answer.response))
  }

  ghost predicate FlightFrom(good: iset<Evaluated>, f: InflightState<CachedResponse>) {
    f.Finished? && f.response.Some? ==> ResponseFrom(good, f.response.value)
  }

  ghost predicate CacheFrom(good: iset<Evaluated>, cache: CacheView) {
    && (forall e :: e in cache.lru ==> ResponseFrom(good, e.response))
    && (forall f :: f in cache.flights ==> FlightFrom(good, f))
  }

  /** Every evaluation behind a running fill or a response, kept, shared or answered, is one of these. */
  ghost predicate AllFrom(good: iset<Evaluated>, s: Sys) {
    CacheFrom(good, s.cache) && forall q :: q in s.requests ==> RequestFrom(good, q)
  }

  lemma WiderIsFine(good: iset<Evaluated>, more: iset<Evaluated>, s: Sys)
    requires AllFrom(good, s) && good <= more
    ensures AllFrom(more, s)
  {
    assert forall r :: ResponseFrom(good, r) ==> ResponseFrom(more, r);
    assert forall q :: q in s.requests ==> RequestFrom(good, q);
    assert forall f :: FlightFrom(good, f) ==> FlightFrom(more, f);
  }

  lemma RequestsStayFrom(good: iset<Evaluated>, s: Sys, r: nat, q: Request, cache: CacheView)
    requires AllFrom(good, s) && r < |s.requests| && RequestFrom(good, q) && CacheFrom(good, cache)
    ensures forall t: Sys :: t.requests == s.requests[r := q] && t.cache == cache ==> AllFrom(good, t)
  {
  }

  lemma LookupStaysFrom(good: iset<Evaluated>, v: CacheView, key: CacheKey, now: int)
    requires CacheFrom(good, v)
    ensures CacheFrom(good, Lookup(v, key, now).0)
    ensures Lookup(v, key, now).1.Hit? ==> ResponseFrom(good, Lookup(v, key, now).1.response)
  {
    var i := Find(v.lru, key);
    if i < |v.lru| {
      assert v.lru[i] in v.lru;
      assert forall e :: e in RemoveAt(v.lru, i) ==> e in v.lru;
    }
  }

  lemma StoreStaysFrom(
    c: CacheConfig, good: iset<Evaluated>, v: CacheView, key: CacheKey, response: Option<CachedResponse>,
    expiresAt: Option<int>)
    requires CacheFrom(good, v) && (response.Some? ==> ResponseFrom(good, response.value))
    ensures CacheFrom(good, CacheSteps.Store(c, v, key, response, expiresAt))
  {
    if response.Some? && expiresAt.Some? {
      var weight := SaturatingAdd(KeyWeight(c, key), ResponseWeight(c, response.value));
      var rest := RemoveKey(v.lru, key);
      var n := MakeRoomDropsShortestPrefix(rest, weight, c.capacity);
      assert forall e :: e in rest[n..] ==> e in rest;
      assert forall e :: e in rest ==> e in v.lru;
    }
  }

  lemma CompleteStaysFrom(
    c: CacheConfig, good: iset<Evaluated>, v: CacheView, key: CacheKey, flight: nat,
    response: Option<CachedResponse>, expiresAt: Option<int>)
    requires CacheFrom(good, v) && (response.Some? ==> ResponseFrom(good, response.value))
    ensures CacheFrom(good, Complete(c, v, key, flight, response, expiresAt))
    ensures CacheFrom(good, Abandon(v, key, flight))
  {
    assert CacheFrom(good, Settle(v, flight, response));
    StoreStaysFrom(c, good, Settle(v, flight, response), key, response, expiresAt);
  }

  lemma LookStaysFrom(good: iset<Evaluated>, s: Sys, r: nat)
    requires AllFrom(good, s) && r < |s.requests| && s.requests[r].phase.ClockRead?
    ensures AllFrom(good, StepLook(s, r))
  {
    var q := s.requests[r];
    LookupStaysFrom(good, s.cache, q.key, q.phase.now);
    RequestsStayFrom(good, s, r, StepLook(s, r).requests[r], StepLook(s, r).cache);
  }

  lemma CompletionStaysFrom(c: Settings, good: iset<Evaluated>, s: Sys, r: nat, utc: nat)
    requires AllFrom(good, s) && r < |s.requests| && s.requests[r].phase.Ended?
    ensures AllFrom(good, StepComplete(c, s, r, utc))
  {
    var q := s.requests[r];
    assert q in s.requests;
    if q.phase.now <= utc <= s.clock {
      CompleteStaysFrom(
        c.cache, good, s.cache, q.key, q.phase.flight,
        if q.phase.outcome.buffered then Some(ResponseOf(c, q)) else None,
        if q.phase.outcome.buffered then KeepUntil(c, q, utc) else None);
      RequestsStayFrom(good, s, r, StepComplete(c, s, r, utc).requests[r], StepComplete(c, s, r, utc).cache);
    }
  }

  /** What a step evaluates, if it evaluates anything, is one of these. */
  ghost predicate Brings(c: Settings, good: iset<Evaluated>, s: Sys, a: Action) {
    a.Proceed? && a.move.Evaluate? && a.r < |s.requests| && MayEvaluate(s.requests[a.r], a.move.artifact, a.move.used) ==>
      Judge(c, s.requests[a.r].phase.readings, a.move.artifact, a.move.used, a.move.outcome) in good
  }

  lemma MoveStaysFrom(c: Settings, good: iset<Evaluated>, s: Sys, r: nat, move: Move)
    requires AllFrom(good, s) && r < |s.requests| && Brings(c, good, s, Proceed(r, move))
    ensures AllFrom(good, StepRequest(c, s, r, move))
  {
    var q := s.requests[r];
    if move.Look? && q.phase.ClockRead? {
      LookStaysFrom(good, s, r);
    } else if move.CompleteFill? && q.phase.Ended? {
      CompletionStaysFrom(c, good, s, r, move.utc);
    } else {
      var t := StepRequest(c, s, r, move);
      MoveIsLocal(c, s, r, move);
      assert q in s.requests;
      if move.Unwind? && q.phase.Unwinding? {
        CompleteStaysFrom(c.cache, good, s.cache, q.key, q.phase.flight, None, None);
      } else if move.Wake? && q.phase.Waiting? && q.phase.flight < |s.cache.flights| {
        assert s.cache.flights[q.phase.flight] in s.cache.flights;
      }
      RequestsStayFrom(good, s, r, t.requests[r], t.cache);
    }
  }

  /** A step brings in nothing but what it evaluates. */
  lemma StepStaysFrom(c: Settings, good: iset<Evaluated>, s: Sys, a: Action)
    requires AllFrom(good, s) && Brings(c, good, s, a)
    ensures AllFrom(good, Step(c, s, a))
  {
    if a.Proceed? && a.r < |s.requests| {
      MoveStaysFrom(c, good, s, a.r, a.move);
    }
  }

  // ---- Readings ----

  /** What a running fill has read is what it had read before, with one statement more if it has just run one. */
  predicate ReadOn(s: Sys, before: Request, after: Request, move: Option<Move>) {
    && before.phase.Filling? && after.phase.Filling? && before.key == after.key
    && (after.phase.readings == before.phase.readings
        || (move.Some? && move.value.Query?
            && after.phase.readings == before.phase.readings
                 + [Reading(Revision(s.revisions, after.key.ecosystem), move.value.healthy, move.value.rows)]))
  }

  lemma MoveReadings(c: Settings, s: Sys, r: nat, move: Move)
    requires r < |s.requests| && StepRequest(c, s, r, move).requests[r].phase.Filling?
    ensures var q := StepRequest(c, s, r, move).requests[r];
      q.phase.readings == [] || ReadOn(s, s.requests[r], q, Some(move))
  {
    match move
    case StartFill =>
    case Query(_, _) =>
    case Evaluate(_, _, _) =>
    case Look =>
    case CompleteFill(_) =>
    case _ =>
  }

  /** How a step changes what a running fill has read: not at all, by one statement more, or by starting. */
  lemma ReadingsGrow(c: Settings, s: Sys, a: Action, i: nat)
    requires i < |Step(c, s, a).requests| && Step(c, s, a).requests[i].phase.Filling?
    ensures var q := Step(c, s, a).requests[i];
      || q.phase.readings == []
      || (i < |s.requests| && ReadOn(s, s.requests[i], q, if a.Proceed? && a.r == i then Some(a.move) else None))
  {
    if a.Proceed? && a.r < |s.requests| {
      if a.r == i {
        MoveReadings(c, s, i, a.move);
      } else {
        MoveIsLocal(c, s, a.r, a.move);
      }
    }
  }

  /** No statement of a running fill saw a revision beyond these. */
  ghost predicate ReadingsUpTo(s: Sys) {
    forall i, x :: 0 <= i < |s.requests| && s.requests[i].phase.Filling? && x in s.requests[i].phase.readings ==>
      x.seen <= Revision(s.revisions, s.requests[i].key.ecosystem)
  }

  lemma RevisionsDoNotDrop(c: Settings, s: Sys, a: Action, e: Ecosystem)
    ensures Revision(s.revisions, e) <= Revision(Step(c, s, a).revisions, e)
  {
    if a.Proceed? && a.r < |s.requests| {
      MoveIsLocal(c, s, a.r, a.move);
    }
  }

  lemma ReadingsStayUpTo(c: Settings, s: Sys, a: Action)
    requires ReadingsUpTo(s)
    ensures ReadingsUpTo(Step(c, s, a))
  {
    var t := Step(c, s, a);
    forall i, x | 0 <= i < |t.requests| && t.requests[i].phase.Filling? && x in t.requests[i].phase.readings
      ensures x.seen <= Revision(t.revisions, t.requests[i].key.ecosystem)
    {
      ReadingsGrow(c, s, a, i);
      RevisionsDoNotDrop(c, s, a, t.requests[i].key.ecosystem);
    }
  }

  /** The evaluations of which no statement saw a revision beyond these. */
  ghost function UpTo(revisions: map<Ecosystem, nat>): iset<Evaluated> {
    iset x: Evaluated | forall n :: n in x.seen ==> n <= Revision(revisions, x.artifact.ecosystem)
  }

  lemma BringsUpTo(c: Settings, s: Sys, a: Action)
    requires ReadingsUpTo(s)
    ensures Brings(c, UpTo(s.revisions), s, a)
  {
    if a.Proceed? && a.move.Evaluate? && a.r < |s.requests| && MayEvaluate(s.requests[a.r], a.move.artifact, a.move.used) {
      var readings := s.requests[a.r].phase.readings;
      var seen := SeenBy(readings, a.move.used);
      forall n | n in seen
        ensures n <= Revision(s.revisions, a.move.artifact.ecosystem)
      {
        var k :| 0 <= k < |seen| && seen[k] == n;
        assert readings[a.move.used[k]] in readings;
      }
    }
  }

  /** No response, kept, shared or answered, rests on a revision that the store has not reached. */
  lemma {:induction false} RunStaysBounded(c: Settings, actions: seq<Action>)
    ensures ReadingsUpTo(Run(c, actions))
    ensures AllFrom(UpTo(Run(c, actions).revisions), Run(c, actions))
  {
    if actions != [] {
      var s, a := Run(c, actions[..|actions| - 1]), actions[|actions| - 1];
      RunStaysBounded(c, actions[..|actions| - 1]);
      ReadingsStayUpTo(c, s, a);
      BringsUpTo(c, s, a);
      StepStaysFrom(c, UpTo(s.revisions), s, a);
      forall e
        ensures Revision(s.revisions, e) <= Revision(Step(c, s, a).revisions, e)
      {
        RevisionsDoNotDrop(c, s, a, e);
      }
      WiderIsFine(UpTo(s.revisions), UpTo(Step(c, s, a).revisions), Step(c, s, a));
    }
  }
}
