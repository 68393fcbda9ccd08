/** Requests, syncs and the policy together in one run. */
module JointRuns {
  import opened Prelude
  import opened CacheSteps
  import opened SingleFlight
  import opened ReadBounds
  import OsvStore
  import SyncProtocol
  import opened StoreQueries
  import opened Policy

  // A joint run interleaves requests with upstream edits and syncs.  There is no
  // transaction around the statements of a check, so each is an event of its own and
  // commits may fall between any two of them.

  /** What a deployment fixes: configuration, rules for the store's health, and the version libraries. */
  datatype Env = Env(settings: Settings, rules: OsvStore.HealthRules, cmp: Comparators, normalize: string -> string)

  // ---- Checks ----

  /** The rows of an ecosystem that a statement on this store sees. */
  ghost function RowsAt(env: Env, db: OsvStore.Db, e: Ecosystem): seq<PackageRow> {
    match OsvStore.ActiveDocs(db, e)
    case Some(docs) => TableOf(docs, docs.Keys, e, env.normalize)
    case None => []
  }

  /** What the statements of one check saw. */
  function Seen(healthy: bool, exact: seq<PackageRow>, ranges: seq<PackageRow>): Store {
    Store(_ => healthy, (_, _, _) => exact, (_, _) => ranges)
  }

  /** What checking an artifact gives the policy, by what the check's three statements see. */
  function OutcomeFrom(
    env: Env, healthy: bool, exact: seq<PackageRow>, ranges: seq<PackageRow>, a: Artifact): OsvOutcome
  {
    if !ShouldCheckOsv(env.settings.policy, a) then None
    else match Check(Seen(healthy, exact, ranges), env.cmp, a)
      case Ok(findings) => Some(Ok(findings))
      case Err(error) => Some(Err(CheckFailed(error)))
  }

  /** What checking an artifact against one state of the store gives. */
  ghost function OutcomeAt(env: Env, db: OsvStore.Db, now: nat, a: Artifact): OsvOutcome {
    var rows := RowsAt(env, db, a.ecosystem);
    OutcomeFrom(env, OsvStore.StoreHealthy(env.rules, db, a.ecosystem, now), rows, rows, a)
  }

  /** What succeeded gives the same findings wherever the store is healthy and every statement sees the same rows. */
  lemma {:induction false} SameRowsSameOutcome(
    env: Env, healthy: bool, exact: seq<PackageRow>, ranges: seq<PackageRow>, a: Artifact)
    requires Usable(env.settings.policy, a, OutcomeFrom(env, healthy, exact, ranges, a))
    ensures OutcomeFrom(env, true, exact, ranges, a) == OutcomeFrom(env, healthy, exact, ranges, a)
    ensures ShouldCheckOsv(env.settings.policy, a) ==> healthy
  {
  }

  /** Once the store is not healthy every needed check fails, and artifacts are refused where errors block. */
  lemma {:induction false} UnhealthyStoreRefuses(env: Env, db: OsvStore.Db, now: nat, a: Artifact)
    requires ShouldCheckOsv(env.settings.policy, a) && !OsvStore.StoreHealthy(env.rules, db, a.ecosystem, now)
    ensures OutcomeAt(env, db, now, a) == Some(Err(CheckFailed(Unhealthy(a.ecosystem))))
    ensures env.settings.policy.onError.BlockOnError? ==>
      !Decide(env.settings.policy, a, now, OutcomeAt(env, db, now, a)).allowed
  {
  }

  // ---- Joint runs ----

  /**
   Something upstream, a sync or the store does; something the proxy does; a fill
   running one statement of a check; or a fill evaluating an artifact by the results
   of a health, an exact and a range statement it has run, the health statement
   first, unless the check fails for a reason of its own, such as another check of
   its batch.
   */
  datatype Event =
    | World(deed: SyncProtocol.Action)
    | Proxy(step: SingleFlight.Action)
    | Statement(r: nat)
    | Evaluation(r: nat, artifact: Artifact, health: nat, exact: nat, ranges: nat, failure: Option<CheckFailure>)

  function WorldPart(events: seq<Event>): seq<SyncProtocol.Action> {
    if events == [] then []
    else
      var front, last := WorldPart(events[..|events| - 1]), events[|events| - 1];
      if last.World? then front + [last.deed] else front
  }

  /** The store and upstream after these events. */
  function Outside(events: seq<Event>): SyncProtocol.Sys {
    SyncProtocol.Run(WorldPart(events))
  }

  /** How the proxy's view of revisions hears of a step of the store. */
  function Notice(s: SyncProtocol.Sys, a: SyncProtocol.Action): SingleFlight.Action {
    var e := if s.phase.Idle? then Npm else s.phase.e;
    Commit(e, OsvStore.ContentRevision(SyncProtocol.Step(s, a).db, e) != OsvStore.ContentRevision(s.db, e))
  }

  /** What a statement for this request sees of its ecosystem's health. */
  function HealthSeen(env: Env, w: SyncProtocol.Sys, s: SingleFlight.Sys, r: nat): bool {
    r < |s.requests| && OsvStore.StoreHealthy(env.rules, w.db, s.requests[r].key.ecosystem, s.clock)
  }

  predicate MayJudge(s: SingleFlight.Sys, event: Event)
    requires event.Evaluation?
  {
    && event.r < |s.requests| && s.requests[event.r].phase.Filling?
    && event.health < event.exact < |s.requests[event.r].phase.readings|
    && event.health < event.ranges < |s.requests[event.r].phase.readings|
  }

  /** What evaluating an artifact is for the proxy. */
  function Judged(env: Env, s: SingleFlight.Sys, event: Event): Option<SingleFlight.Action>
    requires event.Evaluation?
  {
    var Evaluation(r, a, health, exact, ranges, failure) := event;
    if !ShouldCheckOsv(env.settings.policy, a) then Some(Proceed(r, Evaluate(a, [], None)))
    else if failure.Some? then Some(Proceed(r, Evaluate(a, [], Some(Err(failure.value)))))
    else if !MayJudge(s, event) then None
    else
      var readings := s.requests[r].phase.readings;
      Some(Proceed(r, Evaluate(
        a, [health, exact, ranges],
        OutcomeFrom(env, readings[health].healthy, readings[exact].rows, readings[ranges].rows, a))))
  }

  /**
   The step that an event is for the proxy, if any: commits are the store's, and
   what a statement sees is what the store holds.
   */
  ghost function Heard(env: Env, w: SyncProtocol.Sys, s: SingleFlight.Sys, event: Event): Option<SingleFlight.Action> {
    match event
    case World(a) => Some(Notice(w, a))
    case Statement(r) =>
      if r < |s.requests| then
        Some(Proceed(r, Query(HealthSeen(env, w, s, r), RowsAt(env, w.db, s.requests[r].key.ecosystem))))
      else None
    case Evaluation(_, _, _, _, _, _) => Judged(env, s, event)
    case Proxy(a) =>
      if a.Commit? || (a.Proceed? && (a.move.Evaluate? || a.move.Query?)) then None
      else if a.Proceed? && a.move.CheckHealth? then
        Some(Proceed(a.r, CheckHealth(a.move.healthy && HealthSeen(env, w, s, a.r))))
      else Some(a)
  }

  ghost function ProxyPart(env: Env, events: seq<Event>): seq<SingleFlight.Action> {
    if events == [] then []
    else
      var n := |events| - 1;
      var front := ProxyPart(env, events[..n]);
      var heard := Heard(env, Outside(events[..n]), SingleFlight.Run(env.settings, front), events[n]);
      if heard.Some? then front + [heard.value] else front
  }

  /** The proxy after these events. */
  ghost function Inside(env: Env, events: seq<Event>): SingleFlight.Sys {
    SingleFlight.Run(env.settings, ProxyPart(env, events))
  }

  /** A commit raises its own ecosystem's revision by one at most, and no other's. */
  lemma CommitRevision(db: OsvStore.Db, p: SyncProtocol.Phase, x: Ecosystem)
    requires p.Fetching? && SyncProtocol.CommitResult(db, p).Ok?
    ensures var after := SyncProtocol.CommitResult(db, p).value;
      OsvStore.ContentRevision(after, x) == OsvStore.ContentRevision(db, x)
        + if x == p.e && OsvStore.ContentRevision(after, x) != OsvStore.ContentRevision(db, x) then 1 else 0
  {
  }

  lemma FailureRevision(db: OsvStore.Db, e: Ecosystem, at: OsvStore.Stamp, x: Ecosystem)
    ensures OsvStore.ContentRevision(OsvStore.RecordFailure(db, e, at), x) == OsvStore.ContentRevision(db, x)
  {
  }

  lemma NoticeIsExact(s: SyncProtocol.Sys, a: SyncProtocol.Action, x: Ecosystem)
    ensures OsvStore.ContentRevision(SyncProtocol.Step(s, a).db, x) ==
      OsvStore.ContentRevision(s.db, x)
      + if x == Notice(s, a).ecosystem && Notice(s, a).changed then 1 else 0
  {
    if !s.phase.Idle? {
      FailureRevision(s.db, s.phase.e, s.phase.at, x);
      FailureRevision(s.db, s.phase.e, s.phase.at, s.phase.e);
    }
    if s.phase.Fetching? && SyncProtocol.CommitResult(s.db, s.phase).Ok? {
      CommitRevision(s.db, s.phase, x);
      CommitRevision(s.db, s.phase, s.phase.e);
    }
  }

  lemma NoticeIsHeard(c: Settings, s: SingleFlight.Sys, w: SyncProtocol.Sys, a: SyncProtocol.Action, x: Ecosystem)
    ensures Revision(SingleFlight.Step(c, s, Notice(w, a)).revisions, x) ==
      Revision(s.revisions, x) + if x == Notice(w, a).ecosystem && Notice(w, a).changed then 1 else 0
  {
  }

  lemma WorldSnoc(events: seq<Event>)
    requires events != []
    ensures var front, last := events[..|events| - 1], events[|events| - 1];
      Outside(events) == if last.World? then SyncProtocol.Step(Outside(front), last.deed) else Outside(front)
  {
    var front, last := events[..|events| - 1], events[|events| - 1];
    if last.World? {
      assert WorldPart(events)[..|WorldPart(front)|] == WorldPart(front);
    }
  }

  /** What the proxy hears of the last of these events. */
  ghost function LastHeard(env: Env, events: seq<Event>): Option<SingleFlight.Action>
    requires events != []
  {
    var front := events[..|events| - 1];
    Heard(env, Outside(front), Inside(env, front), events[|events| - 1])
  }

  lemma ProxySnoc(env: Env, events: seq<Event>)
    requires events != []
    ensures var before := Inside(env, events[..|events| - 1]);
      Inside(env, events) ==
        if LastHeard(env, events).Some? then SingleFlight.Step(env.settings, before, LastHeard(env, events).value) else before
  {
    var front := events[..|events| - 1];
    if LastHeard(env, events).Some? {
      assert ProxyPart(env, events)[..|ProxyPart(env, front)|] == ProxyPart(env, front);
    }
  }

  /** The revisions the proxy reads are the store's. */
  lemma {:induction false} RevisionsAgree(env: Env, events: seq<Event>, e: Ecosystem)
    ensures Revision(Inside(env, events).revisions, e) == OsvStore.ContentRevision(Outside(events).db, e)
  {
    if events != [] {
      var front, last := events[..|events| - 1], events[|events| - 1];
      RevisionsAgree(env, front, e);
      ProxySnoc(env, events);
      WorldSnoc(events);
      if last.World? {
        NoticeIsExact(Outside(front), last.deed, e);
        NoticeIsHeard(env.settings, Inside(env, front), Outside(front), last.deed, e);
      } else if LastHeard(env, events).Some? {
        OnlyCommitsMoveRevisions(env.settings, Inside(env, front), LastHeard(env, events).value, e);
      }
    }
  }

  lemma OnlyCommitsMoveRevisions(c: Settings, s: SingleFlight.Sys, a: SingleFlight.Action, e: Ecosystem)
    ensures !a.Commit? ==> Revision(SingleFlight.Step(c, s, a).revisions, e) == Revision(s.revisions, e)
  {
    if a.Proceed? && a.r < |s.requests| {
      MoveIsLocal(c, s, a.r, a.move);
    }
  }

  lemma {:induction false} WorldConcat(a: seq<Event>, b: seq<Event>) returns (more: seq<SyncProtocol.Action>)
    ensures WorldPart(a + b) == WorldPart(a) + more
  {
    if b == [] {
      assert a + b == a;
      more := [];
    } else {
      assert (a + b)[..|a + b| - 1] == a + b[..|b| - 1];
      more := WorldConcat(a, b[..|b| - 1]);
      if b[|b| - 1].World? {
        more := more + [b[|b| - 1].deed];
      }
    }
  }

  /** Between two instants of a joint run the revision does not drop, and while it stays so do the documents. */
  lemma InstantsAreSound(events: seq<Event>, k: nat, e: Ecosystem)
    requires k <= |events|
    ensures OsvStore.RevisionSound(Outside(events[..k]).db, Outside(events).db, e)
  {
    assert events == events[..k] + events[k..];
    var more := WorldConcat(events[..k], events[k..]);
    SyncProtocol.RevisionIsSound(WorldPart(events[..k]), more, e);
  }

  // ---- Where evaluations come from ----

  /** What a statement saw of an ecosystem is the store at this instant of the run. */
  ghost predicate ReadAt(env: Env, events: seq<Event>, e: Ecosystem, x: Reading, k: nat) {
    && k <= |events|
    && x == Reading(
         OsvStore.ContentRevision(Outside(events[..k]).db, e),
         OsvStore.StoreHealthy(env.rules, Outside(events[..k]).db, e, Inside(env, events[..k]).clock),
         RowsAt(env, Outside(events[..k]).db, e))
  }

  /** A fill's statements saw the store at these instants, one after the other. */
  ghost predicate Placed(env: Env, events: seq<Event>, e: Ecosystem, readings: seq<Reading>, instants: seq<nat>) {
    && |instants| == |readings|
    && (forall i, j :: 0 <= i < j < |instants| ==> instants[i] <= instants[j])
    && (forall i :: 0 <= i < |readings| ==> ReadAt(env, events, e, readings[i], instants[i]))
  }

  ghost predicate PlacedAt(env: Env, events: seq<Event>, i: nat)
    requires i < |Inside(env, events).requests|
  {
    var q := Inside(env, events).requests[i];
    q.phase.Filling? ==> exists instants :: Placed(env, events, q.key.ecosystem, q.phase.readings, instants)
  }

  ghost predicate AllPlaced(env: Env, events: seq<Event>) {
    forall i {:trigger PlacedAt(env, events, i)} :: 0 <= i < |Inside(env, events).requests| ==> PlacedAt(env, events, i)
  }

  lemma {:induction false} ReadStays(env: Env, events: seq<Event>, e: Ecosystem, x: Reading, k: nat)
    requires events != [] && ReadAt(env, events[..|events| - 1], e, x, k)
    ensures ReadAt(env, events, e, x, k)
  {
    assert events[..|events| - 1][..k] == events[..k];
  }

  lemma {:induction false} PlacedStays(env: Env, events: seq<Event>, e: Ecosystem, readings: seq<Reading>, instants: seq<nat>)
    requires events != [] && Placed(env, events[..|events| - 1], e, readings, instants)
    ensures Placed(env, events, e, readings, instants)
  {
    forall i | 0 <= i < |readings|
      ensures ReadAt(env, events, e, readings[i], instants[i])
    {
      ReadStays(env, events, e, readings[i], instants[i]);
    }
  }

  /** A statement just run saw the store as it was before this step. */
  lemma {:induction false} PlacedGrows(
    env: Env, events: seq<Event>, e: Ecosystem, readings: seq<Reading>, instants: seq<nat>, x: Reading)
    requires events != [] && Placed(env, events[..|events| - 1], e, readings, instants)
    requires ReadAt(env, events, e, x, |events| - 1)
    ensures Placed(env, events, e, readings + [x], instants + [|events| - 1])
  {
    PlacedStays(env, events, e, readings, instants);
    forall i | 0 <= i < |instants|
      ensures instants[i] <= |events| - 1
    {
      assert ReadAt(env, events[..|events| - 1], e, readings[i], instants[i]);
    }
  }

  /** What a statement gives is what the store holds at that step. */
  lemma {:induction false} QuerySees(env: Env, events: seq<Event>, i: nat)
    requires events != [] && LastHeard(env, events).Some? && i < |Inside(env, events[..|events| - 1]).requests|
    requires LastHeard(env, events).value.Proceed? && LastHeard(env, events).value.r == i
    requires LastHeard(env, events).value.move.Query?
    ensures var s, move := Inside(env, events[..|events| - 1]), LastHeard(env, events).value.move;
      var e := s.requests[i].key.ecosystem;
      ReadAt(env, events, e, Reading(Revision(s.revisions, e), move.healthy, move.rows), |events| - 1)
  {
    var front := events[..|events| - 1];
    RevisionsAgree(env, front, Inside(env, front).requests[i].key.ecosystem);
    assert events[|events| - 1].Statement?;
  }

  lemma {:induction false} FillIsPlaced(
    env: Env, events: seq<Event>, before: Request, after: Request, move: Option<Move>, instants: seq<nat>)
    requires events != [] && ReadOn(Inside(env, events[..|events| - 1]), before, after, move)
    requires Placed(env, events[..|events| - 1], before.key.ecosystem, before.phase.readings, instants)
    requires var s, e := Inside(env, events[..|events| - 1]), after.key.ecosystem;
      move.Some? && move.value.Query? ==>
        ReadAt(env, events, e, Reading(Revision(s.revisions, e), move.value.healthy, move.value.rows), |events| - 1)
    ensures exists later :: Placed(env, events, after.key.ecosystem, after.phase.readings, later)
  {
    var front, e := events[..|events| - 1], after.key.ecosystem;
    if after.phase.readings == before.phase.readings {
      PlacedStays(env, events, e, after.phase.readings, instants);
    } else {
      var x := Reading(Revision(Inside(env, front).revisions, e), move.value.healthy, move.value.rows);
      PlacedGrows(env, events, e, before.phase.readings, instants, x);
    }
  }

  lemma {:induction false} StepIsPlaced(env: Env, events: seq<Event>, i: nat)
    requires events != [] && LastHeard(env, events).Some?
    requires AllPlaced(env, events[..|events| - 1])
    requires i < |Inside(env, events).requests|
    ensures PlacedAt(env, events, i)
  {
    var front := events[..|events| - 1];
    var s, a := Inside(env, front), LastHeard(env, events).value;
    ProxySnoc(env, events);
    var q := Inside(env, events).requests[i];
    if q.phase.Filling? {
      ReadingsGrow(env.settings, s, a, i);
      if q.phase.readings == [] {
        assert Placed(env, events, q.key.ecosystem, [], []);
      } else {
        assert PlacedAt(env, front, i);
        var move := if a.Proceed? && a.r == i then Some(a.move) else None;
        if move.Some? && move.value.Query? {
          QuerySees(env, events, i);
        }
        var instants :| Placed(env, front, q.key.ecosystem, s.requests[i].phase.readings, instants);
        FillIsPlaced(env, events, s.requests[i], q, move, instants);
      }
    }
  }

  /** In every joint run the statements of a running fill saw the store at instants of the run, in order. */
  lemma {:induction false} StatementsArePlaced(env: Env, events: seq<Event>)
    ensures AllPlaced(env, events)
  {
    if events != [] {
      var front := events[..|events| - 1];
      StatementsArePlaced(env, front);
      ProxySnoc(env, events);
      forall i: nat | i < |Inside(env, events).requests|
        ensures PlacedAt(env, events, i)
      {
        if LastHeard(env, events).Some? {
          StepIsPlaced(env, events, i);
        } else {
          assert PlacedAt(env, front, i);
          var q := Inside(env, events).requests[i];
          if q.phase.Filling? {
            var instants :| Placed(env, front, q.key.ecosystem, q.phase.readings, instants);
            PlacedStays(env, events, q.key.ecosystem, q.phase.readings, instants);
          }
        }
      }
    }
  }

  /** What the health, exact and range statements of a check of this artifact give, run at these instants. */
  ghost function OutcomeAcross(env: Env, events: seq<Event>, a: Artifact, health: nat, exact: nat, ranges: nat): OsvOutcome
    requires health <= |events| && exact <= |events| && ranges <= |events|
  {
    OutcomeFrom(
      env,
      OsvStore.StoreHealthy(env.rules, Outside(events[..health]).db, a.ecosystem, Inside(env, events[..health]).clock),
      RowsAt(env, Outside(events[..exact]).db, a.ecosystem), RowsAt(env, Outside(events[..ranges]).db, a.ecosystem), a)
  }

  /** The evaluation is by three statements run at these instants, the health statement first. */
  ghost predicate CheckedAcross(env: Env, events: seq<Event>, x: Evaluated, health: nat, exact: nat, ranges: nat) {
    && health <= exact <= |events| && health <= ranges <= |events|
    && x.seen == [
         OsvStore.ContentRevision(Outside(events[..health]).db, x.artifact.ecosystem),
         OsvStore.ContentRevision(Outside(events[..exact]).db, x.artifact.ecosystem),
         OsvStore.ContentRevision(Outside(events[..ranges]).db, x.artifact.ecosystem)]
    && x.outcome == OutcomeAcross(env, events, x.artifact, health, exact, ranges)
  }

  /** An evaluation that needed no check, whose check failed, or whose three statements ran at instants of the run. */
  ghost predicate Genuine(env: Env, events: seq<Event>, x: Evaluated) {
    ShouldCheckOsv(env.settings.policy, x.artifact) ==>
      || (x.outcome.Some? && x.outcome.value.Err?)
      || exists health: nat, exact: nat, ranges: nat :: CheckedAcross(env, events, x, health, exact, ranges)
  }

  ghost function GenuineOnes(env: Env, events: seq<Event>): iset<Evaluated> {
    iset x: Evaluated | Genuine(env, events, x)
  }

  lemma {:induction false} GenuineStays(env: Env, events: seq<Event>)
    requires events != []
    ensures GenuineOnes(env, events[..|events| - 1]) <= GenuineOnes(env, events)
  {
    var front := events[..|events| - 1];
    forall x | Genuine(env, front, x)
      ensures Genuine(env, events, x)
    {
      if health: nat, exact: nat, ranges: nat :| CheckedAcross(env, front, x, health, exact, ranges) {
        assert front[..health] == events[..health] && front[..exact] == events[..exact] && front[..ranges] == events[..ranges];
        assert CheckedAcross(env, events, x, health, exact, ranges);
      }
    }
  }

  /** What three readings give an artifact. */
  function ByReadings(env: Env, a: Artifact, health: Reading, exact: Reading, ranges: Reading): Evaluated {
    Evaluated(a, OutcomeFrom(env, health.healthy, exact.rows, ranges.rows, a), [health.seen, exact.seen, ranges.seen])
  }

  lemma {:induction false} ReadingsAreAcross(
    env: Env, events: seq<Event>, a: Artifact, x: Reading, y: Reading, z: Reading, health: nat, exact: nat, ranges: nat)
    requires ReadAt(env, events, a.ecosystem, x, health) && ReadAt(env, events, a.ecosystem, y, exact)
    requires ReadAt(env, events, a.ecosystem, z, ranges) && health <= exact && health <= ranges
    ensures CheckedAcross(env, events, ByReadings(env, a, x, y, z), health, exact, ranges)
  {
  }

  lemma JudgedByReadings(env: Env, readings: seq<Reading>, a: Artifact, i: nat, j: nat, k: nat)
    requires i < |readings| && j < |readings| && k < |readings| && ShouldCheckOsv(env.settings.policy, a)
    ensures Made(readings, [i, j, k])
    ensures Judge(env.settings, readings, a, [i, j, k], OutcomeFrom(env, readings[i].healthy, readings[j].rows, readings[k].rows, a))
         == ByReadings(env, a, readings[i], readings[j], readings[k])
  {
    var seen := SeenBy(readings, [i, j, k]);
    assert seen[0] == readings[i].seen && seen[1] == readings[j].seen && seen[2] == readings[k].seen;
    assert seen == [readings[i].seen, readings[j].seen, readings[k].seen];
  }

  /** An artifact evaluated by three statements that a fill has run. */
  lemma {:induction false} JudgedIsGenuine(env: Env, events: seq<Event>, event: Event)
    requires event.Evaluation? && MayJudge(Inside(env, events), event)
    requires event.artifact.ecosystem == Inside(env, events).requests[event.r].key.ecosystem
    ensures var readings := Inside(env, events).requests[event.r].phase.readings;
      Genuine(env, events, ByReadings(env, event.artifact, readings[event.health], readings[event.exact], readings[event.ranges]))
  {
    var q, e := Inside(env, events).requests[event.r], event.artifact.ecosystem;
    var readings := q.phase.readings;
    StatementsArePlaced(env, events);
    assert PlacedAt(env, events, event.r);
    var instants :| Placed(env, events, e, readings, instants);
    var health, exact, ranges := instants[event.health], instants[event.exact], instants[event.ranges];
    ReadingsAreAcross(
      env, events, event.artifact, readings[event.health], readings[event.exact], readings[event.ranges], health, exact, ranges);
  }

  /** What a step of the run evaluates is genuine. */
  lemma {:induction false} StepBringsGenuine(env: Env, events: seq<Event>, a: SingleFlight.Action)
    requires events != [] && LastHeard(env, events) == Some(a)
    ensures Brings(env.settings, GenuineOnes(env, events[..|events| - 1]), Inside(env, events[..|events| - 1]), a)
  {
    var front, event := events[..|events| - 1], events[|events| - 1];
    var s := Inside(env, front);
    if a.Proceed? && a.move.Evaluate? && a.r < |s.requests| && MayEvaluate(s.requests[a.r], a.move.artifact, a.move.used) {
      if ShouldCheckOsv(env.settings.policy, event.artifact) && event.failure.None? {
        JudgedIsGenuine(env, front, event);
        JudgedByReadings(
          env, s.requests[a.r].phase.readings, event.artifact, event.health, event.exact, event.ranges);
      }
    }
  }

  /** In every joint run each evaluation behind a fill or a response, kept, shared or answered, is genuine. */
  lemma {:induction false} EvaluationsAreGenuine(env: Env, events: seq<Event>)
    ensures AllFrom(GenuineOnes(env, events), Inside(env, events))
  {
    if events != [] {
      var front := events[..|events| - 1];
      EvaluationsAreGenuine(env, front);
      ProxySnoc(env, events);
      if LastHeard(env, events).Some? {
        var a := LastHeard(env, events).value;
        StepBringsGenuine(env, events, a);
        StepStaysFrom(env.settings, GenuineOnes(env, front), Inside(env, front), a);
      }
      GenuineStays(env, events);
      WiderIsFine(GenuineOnes(env, front), GenuineOnes(env, events), Inside(env, events));
    }
  }

  // ---- Checks across commits ----

  /** Between two instants of a run: while the revision is the same, so are the documents. */
  lemma {:induction false} BetweenInstants(events: seq<Event>, j: nat, k: nat, e: Ecosystem)
    requires j <= k <= |events|
    ensures OsvStore.RevisionSound(Outside(events[..j]).db, Outside(events[..k]).db, e)
  {
    assert events[..k][..j] == events[..j];
    InstantsAreSound(events[..k], j, e);
  }

  /**
   A check whose first and last statements saw one revision is the check of one
   instant, the first statement's, whatever commits fell between them.
   */
  lemma {:induction false} UnmovedCheckIsOfOneInstant(
    env: Env, events: seq<Event>, x: Evaluated, health: nat, exact: nat, ranges: nat)
    requires CheckedAcross(env, events, x, health, exact, ranges)
    requires x.seen[0] == Max(x.seen[1], x.seen[2])
    ensures x.outcome == OutcomeAt(env, Outside(events[..health]).db, Inside(env, events[..health]).clock, x.artifact)
    ensures forall k :: k == exact || k == ranges ==>
      OsvStore.ActiveDocs(Outside(events[..k]).db, x.artifact.ecosystem) ==
      OsvStore.ActiveDocs(Outside(events[..health]).db, x.artifact.ecosystem)
  {
    BetweenInstants(events, health, exact, x.artifact.ecosystem);
    BetweenInstants(events, health, ranges, x.artifact.ecosystem);
  }
}
