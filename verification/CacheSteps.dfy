/**
 The cache's three critical sections as functions on its abstract state.
 MetadataCache proves its locked methods equal to them; SingleFlight composes
 them into whole runs.
 */
module CacheSteps {
  import opened Prelude
  import opened LruSequence
  import opened CacheState
  import StoreQueries
  import Policy

  datatype CacheKey = CacheKey(
    ecosystem: Ecosystem,
    revision: Option<nat>,
    path: string,
    accept: Option<string>,
    ifNoneMatch: Option<string>,
    ifModifiedSince: Option<string>,
    range: Option<string>,
    ifRange: Option<string>)

  /**
   One artifact that a fill evaluated: the outcome of its OSV check and the revision
   that each statement behind this outcome saw, or nothing when it needs no check.
   */
  datatype Evaluated = Evaluated(artifact: StoreQueries.Artifact, outcome: Policy.OsvOutcome, seen: seq<nat>)

  /**
   What a response body was computed from: the key it was filled for, the artifacts
   evaluated and the clock reading their decisions used, when its lifetime was
   computed, and the instant its decisions may change.
   */
  datatype Origin = Origin(
    key: CacheKey, evaluated: seq<Evaluated>, evaluatedAt: nat, finishedAt: nat, validUntil: Option<int>)

  datatype CachedResponse = CachedResponse(
    status: nat, headerBytes: nat, bodyLength: nat, overloaded: bool, origin: Origin)

  /** Validated configuration; the two sizes are the structs' own sizes in bytes. */
  datatype CacheConfig = CacheConfig(
    capacity: nat, maxEntry: nat, ttl: nat, fillConcurrency: nat, keySize: nat, responseSize: nat)

  const CAPACITY_MAX: nat := 4 * 1024 * 1024 * 1024
  const ENTRY_MAX: nat := 128 * 1024 * 1024

  predicate ValidConfig(c: CacheConfig) {
    && 0 < c.capacity <= CAPACITY_MAX
    && 0 < c.maxEntry <= ENTRY_MAX
    && c.maxEntry <= c.capacity
    && 0 < c.ttl
    && 0 < c.fillConcurrency
  }

  function OptionLength(s: Option<string>): nat {
    if s.Some? then |s.value| else 0
  }

  function KeyWeight(c: CacheConfig, key: CacheKey): nat {
    c.keySize + |key.path| + OptionLength(key.accept) + OptionLength(key.ifNoneMatch)
    + OptionLength(key.ifModifiedSince) + OptionLength(key.range) + OptionLength(key.ifRange)
  }

  function ResponseWeight(c: CacheConfig, r: CachedResponse): nat {
    c.responseSize + r.bodyLength + r.headerBytes
  }

  datatype CacheView = CacheView(
    lru: seq<Entry<CacheKey, CachedResponse>>,
    inflight: map<CacheKey, nat>,
    flights: seq<InflightState<CachedResponse>>)

  const EMPTY: CacheView := CacheView([], map[], [])

  datatype LookupResult = Hit(response: CachedResponse) | Wait(flight: nat) | Fill(flight: nat)

  function Lookup(v: CacheView, key: CacheKey, now: int): (CacheView, LookupResult) {
    var i := Find(v.lru, key);
    if i < |v.lru| && v.lru[i].expiresAt > now then
      (v.(lru := Touch(v.lru, i)), Hit(v.lru[i].response))
    else
      var w := if i < |v.lru| then v.(lru := RemoveAt(v.lru, i)) else v;
      if key in w.inflight then
        (w, Wait(w.inflight[key]))
      else
        var id := |w.flights|;
        (w.(inflight := w.inflight[key := id], flights := w.flights + [Pending]), Fill(id))
  }

  function Settle(v: CacheView, flight: nat, response: Option<CachedResponse>): CacheView {
    if flight < |v.flights| then v.(flights := v.flights[flight := Finished(response)]) else v
  }

  /** Take a key off the in-flight map if it still names this flight. */
  function Clear(v: CacheView, key: CacheKey, flight: nat): CacheView {
    if key in v.inflight && v.inflight[key] == flight then v.(inflight := v.inflight - {key}) else v
  }

  function Store(
    c: CacheConfig, v: CacheView, key: CacheKey, response: Option<CachedResponse>, expiresAt: Option<int>): CacheView
  {
    if response.None? || expiresAt.None? then v
    else
      var weight := SaturatingAdd(KeyWeight(c, key), ResponseWeight(c, response.value));
      if weight <= c.capacity
      then v.(lru := Insert(v.lru, Entry(key, response.value, expiresAt.value, weight), c.capacity))
      else v
  }

  /** The end of a fill: wake the waiters, keep the response if it may be kept, stop being in flight. */
  function Complete(
    c: CacheConfig, v: CacheView, key: CacheKey, flight: nat, response: Option<CachedResponse>, expiresAt: Option<int>)
    : CacheView
  {
    Clear(Store(c, Settle(v, flight, response), key, response, expiresAt), key, flight)
  }

  /** The end of a cancelled fill: wake the waiters with nothing. */
  function Abandon(v: CacheView, key: CacheKey, flight: nat): CacheView {
    Clear(Settle(v, flight, None), key, flight)
  }

  /** For a response finished at this instant neither the TTL nor what was left of the policy's own term is over. */
  predicate Lives(ttl: nat, validUntil: Option<int>, finishedAt: nat, utc: nat, t: int) {
    t - finishedAt < ttl && (validUntil.Some? ==> t - finishedAt < validUntil.value - utc)
  }

  /**
   When a response stops being served: the earlier of the TTL and the policy's
   own expiry.  `now` is the monotonic reading and `utc` the later wall-clock one.
   */
  function Expiration(ttl: nat, validUntil: Option<int>, now: nat, utc: nat): (e: Option<int>)
    requires now <= utc
    ensures e.Some? ==> forall t {:trigger Lives(ttl, validUntil, now, utc, t)} ::
      t < e.value <==> Lives(ttl, validUntil, now, utc, t)
    ensures e.None? <==> validUntil.Some? && validUntil.value <= utc
  {
    if validUntil.Some? then
      if validUntil.value - utc <= 0 then None else Some(now + Min(ttl, validUntil.value - utc))
    else Some(now + ttl)
  }
}
