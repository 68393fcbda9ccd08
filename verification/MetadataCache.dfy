/** The shared cache object; each method is one critical section under its mutex. */
module MetadataCache {
  import opened Prelude
  import opened LruSequence
  import CS = CacheState
  import opened CacheSteps

  datatype LookupOutcome =
    | Hit(response: CachedResponse)
    | Wait(flight: CS.Inflight<CachedResponse>)
    | Fill(flight: CS.Inflight<CachedResponse>)

  class MetadataCache {
    const config: CacheConfig
    const state: CS.CacheState<CacheKey, CachedResponse>

    /** Every flight ever started, in order. */
    ghost var flights: seq<CS.Inflight<CachedResponse>>

    ghost predicate Valid()
      reads this, state, flights
    {
      && ValidConfig(config)
      && state.Valid()
      && state.totalWeight <= config.capacity
      && (forall i :: 0 <= i < |flights| ==> flights[i].id == i)
      && (forall key :: key in state.inflight ==> state.inflight[key] in flights)
    }

    ghost function View(): CacheView
      reads this, state, flights
    {
      CacheView(
        state.contents,
        map key | key in state.inflight :: state.inflight[key].id,
        seq(|flights|, i requires 0 <= i < |flights| reads this, flights => flights[i].state))
    }

    constructor (config: CacheConfig)
      requires ValidConfig(config)
      ensures Valid() && View() == EMPTY && this.config == config
    {
      this.config := config;
      state := new CS.CacheState();
      flights := [];
    }

    /** Serve a live entry as the most recently used one, or drop an expired one. */
    method ServeOrExpire(key: CacheKey, now: int) returns (hit: Option<CachedResponse>)
      requires Valid()
      modifies state
      ensures Valid() && flights == old(flights) && state.inflight == old(state.inflight)
      ensures var lru, i := old(state.contents), Find(old(state.contents), key);
        if i < |lru| && lru[i].expiresAt > now
        then hit == Some(lru[i].response) && state.contents == Touch(lru, i)
        else hit == None && state.contents == if i < |lru| then RemoveAt(lru, i) else lru
      ensures View() == old(View()).(lru := state.contents)
    {
      CS.EntryInIndex(state.nodes, state.order, state.contents, state.freeNodes, state.entries, key);
      if key !in state.entries {
        return None;
      }
      var index := state.entries[key];
      ghost var k := Find(state.contents, key);
      assert CS.Position(state.order, index) == k;
      assert CS.Joined(state.nodes, state.order, state.contents, k);
      var node := state.nodes[index].value;
      if node.expiresAt <= now {
        state.RemoveIndex(index);
        return None;
      } else {
        state.Touch(index);
        return Some(node.response);
      }
    }

    /** Join the fill in progress for a key, or become the leader of a new one. */
    method JoinOrLead(key: CacheKey) returns (r: LookupOutcome)
      requires Valid()
      modifies this`flights, state`inflight
      ensures Valid() && state.contents == old(state.contents)
      ensures if key in old(state.inflight)
        then View() == old(View()) && r == LookupOutcome.Wait(old(state.inflight)[key]) && r.flight in flights
        else
          && r.Fill? && fresh(r.flight) && r.flight.id == |old(flights)|
          && View() == old(View()).(
               inflight := old(View()).inflight[key := r.flight.id], flights := old(View()).flights + [CS.Pending])
    {
      if key in state.inflight {
        return LookupOutcome.Wait(state.inflight[key]);
      }
      var flight := new CS.Inflight<CachedResponse>(|flights|);
      state.inflight := state.inflight[key := flight];
      flights := flights + [flight];
      return LookupOutcome.Fill(flight);
    }

    /** Serve a live entry, join a fill in progress, or become the leader of a new one. */
    method Lookup(key: CacheKey, now: int) returns (r: LookupOutcome)
      requires Valid()
      modifies this`flights, state
      ensures Valid()
      ensures View() == CacheSteps.Lookup(old(View()), key, now).0
      ensures match CacheSteps.Lookup(old(View()), key, now).1
        case Hit(response) => r == LookupOutcome.Hit(response)
        case Wait(id) => r.Wait? && r.flight in old(flights) && r.flight.id == id
        case Fill(id) => r.Fill? && fresh(r.flight) && r.flight.id == id
    {
      var hit := ServeOrExpire(key, now);
      if hit.Some? {
        return LookupOutcome.Hit(hit.value);
      }
      r := JoinOrLead(key);
    }

    /** The end of a fill. */
    method Complete(key: CacheKey, flight: CS.Inflight<CachedResponse>, response: Option<CachedResponse>, expiresAt: Option<int>)
      requires Valid() && flight in flights
      modifies state, flight
      ensures Valid() && flights == old(flights)
      ensures View() == CacheSteps.Complete(config, old(View()), key, flight.id, response, expiresAt)
    {
      Wake(flight, response);
      Keep(key, response, expiresAt);
      Release(key, flight);
    }

    /** Wake everyone waiting on a flight. */
    method Wake(flight: CS.Inflight<CachedResponse>, response: Option<CachedResponse>)
      requires Valid() && flight in flights
      modifies flight
      ensures Valid() && flights == old(flights)
      ensures View() == Settle(old(View()), flight.id, response)
    {
      flight.Finish(response);
    }

    /** Keep a response that has an expiry and fits. */
    method Keep(key: CacheKey, response: Option<CachedResponse>, expiresAt: Option<int>)
      requires Valid()
      modifies state
      ensures Valid() && flights == old(flights)
      ensures View() == Store(config, old(View()), key, response, expiresAt)
    {
      if response.Some? && expiresAt.Some? {
        var weight := CS.SaturatingAdd(KeyWeight(config, key), ResponseWeight(config, response.value));
        if weight <= config.capacity {
          state.Insert(key, response.value, expiresAt.value, weight, config.capacity);
        }
      }
    }

    /** Stop being in flight, if this flight still is. */
    method Release(key: CacheKey, flight: CS.Inflight<CachedResponse>)
      requires Valid() && flight in flights
      modifies state`inflight
      ensures Valid() && flights == old(flights)
      ensures View() == Clear(old(View()), key, flight.id)
    {
      if key in state.inflight && state.inflight[key] == flight {
        state.inflight := state.inflight - {key};
      }
    }

    /** The end of a cancelled fill. */
    method Abandon(key: CacheKey, flight: CS.Inflight<CachedResponse>)
      requires Valid() && flight in flights
      modifies state`inflight, flight
      ensures Valid() && flights == old(flights)
      ensures View() == CacheSteps.Abandon(old(View()), key, flight.id)
    {
      Wake(flight, None);
      Release(key, flight);
    }
  }
}
