/** Where the revisions in cache keys come from. */
module KeyReads {
  import opened Prelude
  import opened CacheSteps
  import opened SingleFlight
  import OsvStore
  import opened JointRuns

  /** At this instant of the run the ecosystem could be used. */
  ghost predicate HealthyAt(env: Env, events: seq<Event>, e: Ecosystem, h: nat) {
    h <= |events| && OsvStore.StoreHealthy(env.rules, Outside(events[..h]).db, e, Inside(env, events[..h]).clock)
  }

  /** The revision is the store's at an instant no earlier than one at which the ecosystem could be used. */
  ghost predicate ReadBetween(env: Env, events: seq<Event>, e: Ecosystem, revision: nat, h: nat, v: nat) {
    && h <= v <= |events| && HealthyAt(env, events, e, h)
    && revision == OsvStore.ContentRevision(Outside(events[..v]).db, e)
  }

  ghost predicate KeyRead(env: Env, events: seq<Event>, q: Request) {
    && (q.phase.FoundHealthy? ==> exists h: nat :: HealthyAt(env, events, q.key.ecosystem, h))
    && (q.key.revision.Some? ==>
          exists h: nat, v: nat :: ReadBetween(env, events, q.key.ecosystem, q.key.revision.value, h, v))
  }

  ghost predicate AllKeysRead(env: Env, events: seq<Event>) {
    forall i {:trigger Inside(env, events).requests[i]} :: 0 <= i < |Inside(env, events).requests| ==>
      KeyRead(env, events, Inside(env, events).requests[i])
  }

  lemma {:induction false} HealthyStays(env: Env, events: seq<Event>, e: Ecosystem, h: nat)
    requires events != [] && HealthyAt(env, events[..|events| - 1], e, h)
    ensures HealthyAt(env, events, e, h)
  {
    assert events[..|events| - 1][..h] == events[..h];
  }

  lemma {:induction false} ReadStaysBetween(env: Env, events: seq<Event>, e: Ecosystem, revision: nat, h: nat, v: nat)
    requires events != [] && ReadBetween(env, events[..|events| - 1], e, revision, h, v)
    ensures ReadBetween(env, events, e, revision, h, v)
  {
    HealthyStays(env, events, e, h);
    assert events[..|events| - 1][..v] == events[..v];
  }

  lemma {:induction false} KeyStaysRead(env: Env, events: seq<Event>, q: Request)
    requires events != [] && KeyRead(env, events[..|events| - 1], q)
    ensures KeyRead(env, events, q)
  {
    var front, e := events[..|events| - 1], q.key.ecosystem;
    if q.phase.FoundHealthy? {
      var h: nat :| HealthyAt(env, front, e, h);
      HealthyStays(env, events, e, h);
    }
    if q.key.revision.Some? {
      var h: nat, v: nat :| ReadBetween(env, front, e, q.key.revision.value, h, v);
      ReadStaysBetween(env, events, e, q.key.revision.value, h, v);
    }
  }

  /** Only the two statements of reading a revision concern it. */
  lemma OthersKeepKeys(c: Settings, s: Sys, r: nat, move: Move)
    requires r < |s.requests| && UsesOsv(c)
    requires !(move.CheckHealth? && s.requests[r].phase.Arrived?) && !(move.ReadRevision? && s.requests[r].phase.FoundHealthy?)
    ensures r < |StepRequest(c, s, r, move).requests|
    ensures var q := StepRequest(c, s, r, move).requests[r];
      q.key == s.requests[r].key && (q.phase.FoundHealthy? ==> s.requests[r].phase.FoundHealthy?)
  {
    MoveIsLocal(c, s, r, move);
  }

  /** The first statement finds the store as it is at this step. */
  lemma {:induction false} HealthIsRead(env: Env, events: seq<Event>, i: nat)
    requires events != [] && LastHeard(env, events).Some? && UsesOsv(env.settings)
    requires var s, a := Inside(env, events[..|events| - 1]), LastHeard(env, events).value;
      && i < |s.requests| && a.Proceed? && a.r == i && a.move.CheckHealth? && s.requests[i].phase.Arrived?
      && s.requests[i].key.revision.None?
    ensures i < |Inside(env, events).requests| && KeyRead(env, events, Inside(env, events).requests[i])
  {
    var front := events[..|events| - 1];
    ProxySnoc(env, events);
    var q := Inside(env, events).requests[i];
    if q.phase.FoundHealthy? {
      assert HealthSeen(env, Outside(front), Inside(env, front), i);
      assert HealthyAt(env, events, q.key.ecosystem, |events| - 1);
    }
  }

  /** The second statement reads the revision as it is at this step. */
  lemma {:induction false} RevisionIsRead(env: Env, events: seq<Event>, i: nat)
    requires events != [] && LastHeard(env, events).Some? && UsesOsv(env.settings)
    requires var s, a := Inside(env, events[..|events| - 1]), LastHeard(env, events).value;
      && i < |s.requests| && a.Proceed? && a.r == i && a.move.ReadRevision? && s.requests[i].phase.FoundHealthy?
      && KeyRead(env, events[..|events| - 1], s.requests[i])
    ensures i < |Inside(env, events).requests| && KeyRead(env, events, Inside(env, events).requests[i])
  {
    var front := events[..|events| - 1];
    var e := Inside(env, front).requests[i].key.ecosystem;
    ProxySnoc(env, events);
    RevisionsAgree(env, front, e);
    var h: nat :| HealthyAt(env, front, e, h);
    HealthyStays(env, events, e, h);
    var q := Inside(env, events).requests[i];
    if q.key.revision.Some? {
      assert ReadBetween(env, events, e, q.key.revision.value, h, |events| - 1);
    }
  }

  lemma {:induction false} OwnMoveReads(env: Env, events: seq<Event>, i: nat)
    requires events != [] && LastHeard(env, events).Some? && UsesOsv(env.settings) && AllKeysRead(env, events[..|events| - 1])
    requires var s, a := Inside(env, events[..|events| - 1]), LastHeard(env, events).value;
      && i < |s.requests| && a.Proceed? && a.r == i
      && (Unread(s.requests[i]) ==> s.requests[i].key.revision.None?)
    ensures i < |Inside(env, events).requests| && KeyRead(env, events, Inside(env, events).requests[i])
  {
    var s, a := Inside(env, events[..|events| - 1]), LastHeard(env, events).value;
    ProxySnoc(env, events);
    if a.move.CheckHealth? && s.requests[i].phase.Arrived? {
      HealthIsRead(env, events, i);
    } else if a.move.ReadRevision? && s.requests[i].phase.FoundHealthy? {
      RevisionIsRead(env, events, i);
    } else {
      OthersKeepKeys(env.settings, s, i, a.move);
      KeyStaysRead(env, events, s.requests[i]);
    }
  }

  lemma {:induction false} StepReads(env: Env, events: seq<Event>, i: nat)
    requires events != [] && UsesOsv(env.settings) && ValidConfig(env.settings.cache)
    requires AllKeysRead(env, events[..|events| - 1]) && i < |Inside(env, events).requests|
    ensures KeyRead(env, events, Inside(env, events).requests[i])
  {
    var front := events[..|events| - 1];
    var s := Inside(env, front);
    ProxySnoc(env, events);
    RunKeepsInvariant(env.settings, ProxyPart(env, front));
    if LastHeard(env, events).None? {
      KeyStaysRead(env, events, s.requests[i]);
    } else {
      var a := LastHeard(env, events).value;
      if a.Proceed? && a.r < |s.requests| {
        MoveIsLocal(env.settings, s, a.r, a.move);
        assert RequestOk(env.settings, s, i);
        if a.r == i {
          OwnMoveReads(env, events, i);
        } else {
          KeyStaysRead(env, events, s.requests[i]);
        }
      } else if i < |s.requests| {
        KeyStaysRead(env, events, s.requests[i]);
      }
    }
  }

  /**
   In every joint run the revision in a request's key is one that the store had at an
   instant of the run, no earlier than one at which its ecosystem was healthy; without
   a healthy store no key has a revision.
   */
  lemma {:induction false} KeysAreRead(env: Env, events: seq<Event>)
    requires UsesOsv(env.settings) && ValidConfig(env.settings.cache)
    ensures AllKeysRead(env, events)
  {
    if events != [] {
      KeysAreRead(env, events[..|events| - 1]);
      forall i | 0 <= i < |Inside(env, events).requests|
        ensures KeyRead(env, events, Inside(env, events).requests[i])
      {
        StepReads(env, events, i);
      }
    }
  }
}
