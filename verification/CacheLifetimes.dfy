/** Which responses the cache keeps, and how long it goes on serving them. */
module CacheLifetimes {
  import opened Prelude
  import opened LruSequence
  import opened CacheState
  import opened CacheSteps
  import opened SingleFlight
  import Policy

  type CacheEntry = Entry<CacheKey, CachedResponse>

  // ---- What is kept ----

  /**
   The fill's response may be kept: it is a buffered, sound and complete answer under
   a known revision, with a lifetime left, and it fits.
   */
  ghost predicate MayKeep(c: Settings, q: Request, utc: nat)
    requires q.phase.Ended?
  {
    var o, validUntil := q.phase.outcome, ValidUntil(c.policy, q.phase.at, q.phase.evaluated);
    && o.buffered && o.status == 200 && !o.overloaded && o.bodyLength <= c.cache.maxEntry
    && q.key.revision.Some?
    && (forall x :: x in q.phase.evaluated && Policy.ShouldCheckOsv(c.policy, x.artifact) ==>
          x.outcome.Some? && x.outcome.value.Ok?)
    && (validUntil.Some? ==> utc < validUntil.value)
    && HeldBytes(c.cache, q.key, ResponseOf(c, q)) <= c.cache.capacity
  }

  /** The entry is this fill's, and expires with its TTL or its policy's own term. */
  ghost predicate EntryOf(c: Settings, q: Request, utc: nat, e: CacheEntry)
    requires q.phase.Ended?
  {
    && e.key == q.key && e.response == ResponseOf(c, q)
    && forall t :: t < e.expiresAt <==>
         Lives(c.cache.ttl, ValidUntil(c.policy, q.phase.at, q.phase.evaluated), q.phase.now, utc, t)
  }

  lemma UsableExactly(c: Settings, evaluated: seq<Evaluated>)
    ensures AllUsable(c.policy, evaluated) <==>
      forall x :: x in evaluated && Policy.ShouldCheckOsv(c.policy, x.artifact) ==> x.outcome.Some? && x.outcome.value.Ok?
  {
  }

  lemma KeepUntilExactly(c: Settings, s: Sys, r: nat, utc: nat)
    requires Inv(c, s) && r < |s.requests| && s.requests[r].phase.Ended? && s.requests[r].phase.now <= utc
    ensures var q := s.requests[r];
      MayKeep(c, q, utc) <==>
        q.phase.outcome.buffered && KeepUntil(c, q, utc).Some?
        && HeldBytes(c.cache, q.key, ResponseOf(c, q)) <= c.cache.capacity
  {
    assert RequestOk(c, s, r);
    UsableExactly(c, s.requests[r].phase.evaluated);
  }

  lemma WeightIsHeldBytes(c: CacheConfig, key: CacheKey, r: CachedResponse)
    requires ValidConfig(c)
    ensures var weight := SaturatingAdd(KeyWeight(c, key), ResponseWeight(c, r));
      && (weight <= c.capacity <==> HeldBytes(c, key, r) <= c.capacity)
      && (weight <= c.capacity ==> weight == HeldBytes(c, key, r))
  {
  }

  /**
   A completed fill's response is in the cache exactly when it may be kept; it is then
   the most recently used entry.
   */
  lemma KeptExactly(c: Settings, s: Sys, r: nat, utc: nat)
    requires Inv(c, s) && ValidConfig(c.cache) && r < |s.requests| && s.requests[r].phase.Ended?
    requires s.requests[r].phase.now <= utc <= s.clock
    ensures var q, lru := s.requests[r], StepComplete(c, s, r, utc).cache.lru;
      && (MayKeep(c, q, utc) <==> Holds(lru, q.key))
      && (MayKeep(c, q, utc) ==> lru != [] && EntryOf(c, q, utc, lru[|lru| - 1]))
  {
    var q := s.requests[r];
    assert RequestOk(c, s, r) && FlightOk(c, s, q.phase.flight) && InflightOk(s, q.key);
    KeepUntilExactly(c, s, r, utc);
    WeightIsHeldBytes(c.cache, q.key, ResponseOf(c, q));
    var lru := StepComplete(c, s, r, utc).cache.lru;
    if MayKeep(c, q, utc) {
      assert lru[|lru| - 1].key == q.key;
    } else {
      assert lru == s.cache.lru;
    }
  }

  // ---- How long it is served ----

  /** The request at the head of its lookup asks for this key at this clock reading. */
  predicate Asks(s: Sys, r: nat, key: CacheKey, now: nat) {
    r < |s.requests| && s.requests[r].phase == ClockRead(now) && s.requests[r].key == key
  }

  lemma LookFindsEntry(s: Sys, e: CacheEntry, r: nat, now: nat)
    requires DistinctKeys(s.cache.lru) && e in s.cache.lru && Asks(s, r, e.key, now)
    ensures var phase := StepLook(s, r).requests[r].phase;
      if now < e.expiresAt then phase == Done(Answer(e.response, FromCache(now))) else phase.Waiting? || phase.Leading?
  {
    var i := Find(s.cache.lru, e.key);
    var j :| 0 <= j < |s.cache.lru| && s.cache.lru[j] == e;
    assert i == j;
  }

  /** Where a lookup of the fill's key gets while its entry is there. */
  predicate ServedOrAnew(c: Settings, q: Request, utc: nat, now: nat, phase: Phase)
    requires q.phase.Ended?
  {
    if Lives(c.cache.ttl, ValidUntil(c.policy, q.phase.at, q.phase.evaluated), q.phase.now, utc, now)
    then phase == Done(Answer(ResponseOf(c, q), FromCache(now)))
    else phase.Waiting? || phase.Leading?
  }

  lemma EntryServes(c: Settings, t: Sys, q: Request, utc: nat, e: CacheEntry, reader: nat, now: nat)
    requires DistinctKeys(t.cache.lru) && q.phase.Ended? && EntryOf(c, q, utc, e)
    requires e in t.cache.lru && Asks(t, reader, q.key, now)
    ensures ServedOrAnew(c, q, utc, now, StepLook(t, reader).requests[reader].phase)
  {
    LookFindsEntry(t, e, reader, now);
  }

  /** The state after further actions. */
  function After(c: Settings, s: Sys, actions: seq<Action>): Sys
    decreases |actions|
  {
    if actions == [] then s else After(c, Step(c, s, actions[0]), actions[1..])
  }

  /** Every state below is reached in this way. */
  lemma {:induction false} RunGoesOn(c: Settings, before: seq<Action>, after: seq<Action>)
    ensures Run(c, before + after) == After(c, Run(c, before), after)
    decreases |after|
  {
    if after == [] {
      assert before + after == before;
    } else {
      assert before + after == before + [after[0]] + after[1..];
      assert (before + [after[0]])[..|before|] == before;
      RunGoesOn(c, before + [after[0]], after[1..]);
    }
  }

  lemma {:induction false} AfterKeepsInvariant(c: Settings, s: Sys, actions: seq<Action>)
    requires Inv(c, s) && ValidConfig(c.cache)
    ensures Inv(c, After(c, s, actions))
    decreases |actions|
  {
    if actions != [] {
      StepKeepsInvariant(c, s, actions[0]);
      AfterKeepsInvariant(c, Step(c, s, actions[0]), actions[1..]);
    }
  }

  lemma KeysStayDistinct(c: Settings, s: Sys, actions: seq<Action>)
    requires Inv(c, s) && ValidConfig(c.cache)
    ensures DistinctKeys(After(c, s, actions).cache.lru)
  {
    AfterKeepsInvariant(c, s, actions);
  }

  /** The fill has ended, its completion may come now, and its response may be kept. */
  ghost predicate MayComplete(c: Settings, s: Sys, r: nat, utc: nat) {
    && r < |s.requests| && s.requests[r].phase.Ended? && s.requests[r].phase.now <= utc <= s.clock
    && MayKeep(c, s.requests[r], utc)
  }

  function Completed(c: Settings, s: Sys, r: nat, utc: nat): Sys {
    Step(c, s, Proceed(r, CompleteFill(utc)))
  }

  /** The entry right after the completion. */
  lemma KeptNow(c: Settings, s: Sys, r: nat, utc: nat) returns (e: CacheEntry)
    requires ValidConfig(c.cache) && Inv(c, s) && MayComplete(c, s, r, utc)
    ensures e in Completed(c, s, r, utc).cache.lru && EntryOf(c, s.requests[r], utc, e)
  {
    KeptExactly(c, s, r, utc);
    var lru := StepComplete(c, s, r, utc).cache.lru;
    e := lru[|lru| - 1];
  }

  lemma CompletionKeepsInvariant(c: Settings, s: Sys, r: nat, utc: nat)
    requires ValidConfig(c.cache) && Inv(c, s)
    ensures Inv(c, Completed(c, s, r, utc))
  {
    StepKeepsInvariant(c, s, Proceed(r, CompleteFill(utc)));
  }

  /**
   What a completed fill leaves in the cache is served: in every reachable state, as
   long as its entry is there, every lookup of its key, at whatever clock reading, is a
   hit with this response if and only if neither the TTL nor the policy's term is
   over, and otherwise waits or fills anew.
   */
  lemma KeptIsServed(c: Settings, s: Sys, r: nat, utc: nat) returns (e: CacheEntry)
    requires ValidConfig(c.cache) && Inv(c, s) && MayComplete(c, s, r, utc)
    ensures e in Completed(c, s, r, utc).cache.lru && EntryOf(c, s.requests[r], utc, e)
    ensures forall after, reader: nat, now: nat ::
      var t := After(c, Completed(c, s, r, utc), after);
      e in t.cache.lru && Asks(t, reader, e.key, now) ==>
        ServedOrAnew(c, s.requests[r], utc, now, StepLook(t, reader).requests[reader].phase)
  {
    e := KeptNow(c, s, r, utc);
    CompletionKeepsInvariant(c, s, r, utc);
    forall after, reader: nat, now: nat | e in After(c, Completed(c, s, r, utc), after).cache.lru
        && Asks(After(c, Completed(c, s, r, utc), after), reader, e.key, now)
      ensures ServedOrAnew(
        c, s.requests[r], utc, now, StepLook(After(c, Completed(c, s, r, utc), after), reader).requests[reader].phase)
    {
      KeysStayDistinct(c, Completed(c, s, r, utc), after);
      EntryServes(c, After(c, Completed(c, s, r, utc), after), s.requests[r], utc, e, reader, now);
    }
  }

  /** The key of a request that finds the store healthy. */
  function PresentKey(c: Settings, s: Sys, arriving: CacheKey): CacheKey {
    arriving.(revision := Some(if UsesOsv(c) then Revision(s.revisions, arriving.ecosystem) else 0))
  }

  /** A request's way to its lookup, which it comes to after this time. */
  function Visit(n: nat, arriving: CacheKey, elapsed: nat): seq<Action> {
    [Arrive(arriving), Proceed(n, CheckHealth(true)), Proceed(n, ReadRevision(true)), Tick(elapsed), Proceed(n, ReadClock)]
  }

  lemma {:induction false} AfterFive(c: Settings, s: Sys, more: seq<Action>)
    requires |more| == 5
    ensures After(c, s, more) ==
      Step(c, Step(c, Step(c, Step(c, Step(c, s, more[0]), more[1]), more[2]), more[3]), more[4])
  {
    var s1 := Step(c, s, more[0]);
    var s2 := Step(c, s1, more[1]);
    var s3 := Step(c, s2, more[2]);
    var s4 := Step(c, s3, more[3]);
    assert After(c, s, more) == After(c, s1, more[1..]);
    assert After(c, s1, more[1..]) == After(c, s2, more[2..]) by { assert more[1..][1..] == more[2..]; }
    assert After(c, s2, more[2..]) == After(c, s3, more[3..]) by { assert more[2..][1..] == more[3..]; }
    assert After(c, s3, more[3..]) == After(c, s4, more[4..]) by { assert more[3..][1..] == more[4..]; }
    assert more[4..] == [more[4]] && more[4..][1..] == [];
  }

  /** Nothing but its own request and the clock changes while a request comes to its lookup. */
  lemma VisitComesToLookup(c: Settings, s: Sys, arriving: CacheKey, elapsed: nat)
    ensures var t := After(c, s, Visit(|s.requests|, arriving, elapsed));
      t.cache == s.cache && Asks(t, |s.requests|, PresentKey(c, s, arriving), s.clock + elapsed)
  {
    AfterFive(c, s, Visit(|s.requests|, arriving, elapsed));
  }

  lemma CompletionKeepsClock(c: Settings, s: Sys, r: nat, utc: nat)
    ensures Completed(c, s, r, utc).clock == s.clock && Completed(c, s, r, utc).revisions == s.revisions
  {
  }

  /**
   The next request for the same thing: made while the store is healthy and still at
   the revision of a response just kept, it is served that response exactly while
   TTL and policy let it, counted from when the fill finished.
   */
  lemma NextRequestIsServed(c: Settings, s: Sys, r: nat, utc: nat, arriving: CacheKey, elapsed: nat)
    requires ValidConfig(c.cache) && Inv(c, s) && MayComplete(c, s, r, utc)
    requires PresentKey(c, s, arriving) == s.requests[r].key
    ensures var kept := Completed(c, s, r, utc);
      var n, t := |kept.requests|, After(c, kept, Visit(|kept.requests|, arriving, elapsed));
      && Asks(t, n, s.requests[r].key, s.clock + elapsed)
      && ServedOrAnew(c, s.requests[r], utc, s.clock + elapsed, StepLook(t, n).requests[n].phase)
  {
    var e := KeptNow(c, s, r, utc);
    var kept := Completed(c, s, r, utc);
    var visit := Visit(|kept.requests|, arriving, elapsed);
    CompletionKeepsClock(c, s, r, utc);
    CompletionKeepsInvariant(c, s, r, utc);
    VisitComesToLookup(c, kept, arriving, elapsed);
    KeysStayDistinct(c, kept, visit);
    EntryServes(c, After(c, kept, visit), s.requests[r], utc, e, |kept.requests|, s.clock + elapsed);
  }

  // ---- Why an entry leaves ----

  /** A request has found the entry expired. */
  predicate Expires(s: Sys, a: Action, e: CacheEntry) {
    && a.Proceed? && a.move.Look? && a.r < |s.requests| && s.requests[a.r].phase.ClockRead?
    && s.requests[a.r].key == e.key && e.expiresAt <= s.requests[a.r].phase.now
  }

  /** A fill that is kept under another key does not fit beside everything that is there. */
  ghost predicate Evicts(c: Settings, s: Sys, a: Action) {
    && a.Proceed? && a.move.CompleteFill? && a.r < |s.requests| && s.requests[a.r].phase.Ended?
    && Weight(s.cache.lru) + HeldBytes(c.cache, s.requests[a.r].key, ResponseOf(c, s.requests[a.r])) > c.cache.capacity
  }

  lemma CompletionKeepsEntries(c: Settings, s: Sys, r: nat, utc: nat, e: CacheEntry)
    requires Inv(c, s) && ValidConfig(c.cache) && r < |s.requests| && s.requests[r].phase.Ended?
    requires e in s.cache.lru && e !in StepComplete(c, s, r, utc).cache.lru
    ensures Evicts(c, s, Proceed(r, CompleteFill(utc)))
  {
    var q := s.requests[r];
    assert RequestOk(c, s, r) && FlightOk(c, s, q.phase.flight) && InflightOk(s, q.key);
    WeightIsHeldBytes(c.cache, q.key, ResponseOf(c, q));
    assert Find(s.cache.lru, q.key) == |s.cache.lru|;
  }

  lemma LookKeepsEntries(s: Sys, r: nat, e: CacheEntry)
    requires DistinctKeys(s.cache.lru) && r < |s.requests| && s.requests[r].phase.ClockRead?
    requires e in s.cache.lru && e !in StepLook(s, r).cache.lru
    ensures Expires(s, Proceed(r, Look), e)
  {
    var i := Find(s.cache.lru, s.requests[r].key);
    if i < |s.cache.lru| {
      RemoveAtMembers(s.cache.lru, i);
      TouchKeepsEntries(s.cache.lru, i);
    }
  }

  lemma OtherMovesKeepEntries(c: Settings, s: Sys, r: nat, move: Move)
    requires r < |s.requests|
    requires !(move.Look? && s.requests[r].phase.ClockRead?) && !(move.CompleteFill? && s.requests[r].phase.Ended?)
    ensures StepRequest(c, s, r, move).cache.lru == s.cache.lru
  {
  }

  /** An entry leaves the cache only when a request finds it expired, or to make room for one that would not fit. */
  lemma EntriesStay(c: Settings, s: Sys, a: Action, e: CacheEntry)
    requires ValidConfig(c.cache) && Inv(c, s) && e in s.cache.lru
    ensures e in Step(c, s, a).cache.lru || Expires(s, a, e) || Evicts(c, s, a)
  {
    if a.Proceed? && a.r < |s.requests| && e !in StepRequest(c, s, a.r, a.move).cache.lru {
      if a.move.CompleteFill? && s.requests[a.r].phase.Ended? {
        CompletionKeepsEntries(c, s, a.r, a.move.utc, e);
      } else if a.move.Look? && s.requests[a.r].phase.ClockRead? {
        LookKeepsEntries(s, a.r, e);
      } else {
        OtherMovesKeepEntries(c, s, a.r, a.move);
        assert false;
      }
    }
  }
}
