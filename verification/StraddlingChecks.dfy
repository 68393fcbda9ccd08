/** A check whose statements straddle a commit can find what no state of the store says. */
module StraddlingChecks {
  import opened Prelude
  import opened CacheSteps
  import opened SingleFlight
  import RangeEvents
  import opened OsvStore
  import Sync = SyncProtocol
  import opened Findings
  import opened StoreQueries
  import opened Policy
  import opened JointRuns

  // A malicious advisory names its versions by a range at first and is then published
  // anew with a list of versions.  A check that asks for exact versions before the new
  // text is committed and for ranges after it sees neither.

  const ID: string := "MAL-1"

  function Listed(modified: Stamp, versions: seq<string>, ranges: seq<RangeSpec>): Advisory {
    Advisory(ID, None, Some(modified), None, None, [], [Affected("Maven", "p", [], versions, ranges)])
  }

  /** The text that names all versions by a range, and the one that lists version 1. */
  const BY_RANGE: Advisory := Listed(1, [], [RangeSpec("ECOSYSTEM", [[("introduced", "0")]])])
  const BY_VERSION: Advisory := Listed(2, ["1"], [])

  /** Version 1 of the package, under whatever name the proxy knows it by. */
  function Package(env: Env): Artifact {
    Artifact(Maven, env.normalize("p"), "1", None)
  }

  // ---- What the store says of either text ----

  function RowOfText(env: Env, modified: Stamp, versions: seq<string>, ranges: seq<StoredRange>): PackageRow {
    PackageRow(ID, None, "osv-gcs", Ok(Some(modified)), env.normalize("p"), None, None, versions, ranges)
  }

  function RangeRow(env: Env): PackageRow {
    RowOfText(env, 1, [], [StoredRange("ECOSYSTEM", [RangeEvents.Event("introduced", "0")])])
  }

  function VersionRow(env: Env): PackageRow {
    RowOfText(env, 2, ["1"], [])
  }

  lemma {:induction false} TableOfOne(env: Env, text: Advisory)
    requires text.id == ID && text.withdrawn.None?
    ensures TableOf(map[ID := text], {ID}, Maven, env.normalize) == AdvisoryRows(text, text.affected, Maven, env.normalize)
  {
    var docs, ids := map[ID := text], {ID};
    assert Smallest(ids) == ID;
    assert ids - {ID} == {};
    assert TableOf(docs, ids - {ID}, Maven, env.normalize) == [];
  }

  lemma {:induction false} RowsOfRange(env: Env)
    ensures AdvisoryRows(BY_RANGE, BY_RANGE.affected, Maven, env.normalize) == [RangeRow(env)]
  {
    var p := BY_RANGE.affected[0];
    assert BY_RANGE.affected == [p];
    assert IsMalicious(ID);
    assert StoredEvents([[("introduced", "0")]]) == [RangeEvents.Event("introduced", "0")];
    assert RangeRows(p.ranges) == RangeRow(env).ranges;
    assert AdvisoryRows(BY_RANGE, [p][1..], Maven, env.normalize) == [];
  }

  lemma {:induction false} RowsOfVersion(env: Env)
    ensures AdvisoryRows(BY_VERSION, BY_VERSION.affected, Maven, env.normalize) == [VersionRow(env)]
  {
    var p := BY_VERSION.affected[0];
    assert BY_VERSION.affected == [p];
    assert IsMalicious(ID);
    assert AdvisoryRows(BY_VERSION, [p][1..], Maven, env.normalize) == [];
  }

  /** A store that holds one of the two texts. */
  lemma {:induction false} RowsOfStore(env: Env, db: Db)
    ensures ActiveDocs(db, Maven) == Some(map[ID := BY_RANGE]) ==> RowsAt(env, db, Maven) == [RangeRow(env)]
    ensures ActiveDocs(db, Maven) == Some(map[ID := BY_VERSION]) ==> RowsAt(env, db, Maven) == [VersionRow(env)]
  {
    TableOfOne(env, BY_RANGE);
    TableOfOne(env, BY_VERSION);
    RowsOfRange(env);
    RowsOfVersion(env);
    assert map[ID := BY_RANGE].Keys == {ID} && map[ID := BY_VERSION].Keys == {ID};
  }

  function FindingOf(modified: Stamp): Finding {
    Finding(ID, None, "osv-gcs", Some(modified), None, None)
  }

  lemma ConsolidateOne(f: Finding)
    ensures Consolidate([f]) == [f]
  {
    assert [f][..0] == [];
  }

  lemma FindingsOfOne(row: PackageRow)
    ensures RowFinding(row).Ok? ==> RowFindings([row]) == Ok([RowFinding(row).value])
  {
    var none: seq<Finding> := [];
    assert [row][..0] == [] && RowFindings([]) == Ok(none);
    if RowFinding(row).Ok? {
      assert none + [RowFinding(row).value] == [RowFinding(row).value];
    }
  }

  lemma ExactRowsOfOne(row: PackageRow, name: string, version: string)
    ensures ExactRows([row], name, version) == if row.name == name && version in row.versions then [row] else []
  {
    assert [row][..0] == [];
  }

  lemma ExactOfRow(env: Env)
    ensures var n := env.normalize("p");
      && ExactHits([RangeRow(env)], n, "1") == Ok([])
      && ExactHits([VersionRow(env)], n, "1") == Ok([FindingOf(2)])
  {
    ExactRowsOfOne(RangeRow(env), env.normalize("p"), "1");
    ExactRowsOfOne(VersionRow(env), env.normalize("p"), "1");
    FindingsOfOne(VersionRow(env));
    ConsolidateOne(FindingOf(2));
  }

  lemma RangesOfOne(row: PackageRow, name: string)
    requires row.name == name && RowFinding(row).Ok?
    ensures |row.ranges| == 1 ==> StoredRanges([row], name) == Ok([AdvisoryRange(RowFinding(row).value, row.ranges[0])])
    ensures row.ranges == [] ==> StoredRanges([row], name) == Ok([])
  {
    var none: seq<AdvisoryRange> := [];
    assert [row][..0] == [] && StoredRanges([], name) == Ok(none);
    if |row.ranges| == 1 {
      var found := AdvisoryRange(RowFinding(row).value, row.ranges[0]);
      assert row.ranges[1..] == [];
      assert RangesOf(found.advisory, row.ranges) == [found] + none == [found];
      assert none + RangesOf(found.advisory, row.ranges) == [found];
    }
  }

  lemma {:induction false} MatchingOfOne(cmp: Comparators, found: AdvisoryRange, e: Ecosystem, version: string)
    requires RangeMatches(cmp, found.range, e, version) == Ok(true)
    ensures MatchingRanges(cmp, [found], e, version) == Ok([found.advisory])
  {
    var none: seq<Finding> := [];
    assert [found][..0] == [] && MatchingRanges(cmp, [], e, version) == Ok(none);
    assert none + [found.advisory] == [found.advisory];
  }

  lemma {:induction false} FromStartMatches(cmp: Comparators, range: StoredRange, version: string)
    requires range == StoredRange("ECOSYSTEM", [RangeEvents.Event("introduced", "0")])
    ensures RangeMatches(cmp, range, Maven, version) == Ok(true)
  {
    assert range.events[..0] == [];
  }

  lemma {:induction false} RangeOfRow(env: Env)
    ensures var n := env.normalize("p");
      && RangeHits(env.cmp, [RangeRow(env)], Maven, n, "1") == Ok([FindingOf(1)])
      && RangeHits(env.cmp, [VersionRow(env)], Maven, n, "1") == Ok([])
  {
    var range := RangeRow(env).ranges[0];
    RangesOfOne(RangeRow(env), env.normalize("p"));
    RangesOfOne(VersionRow(env), env.normalize("p"));
    FromStartMatches(env.cmp, range, "1");
    MatchingOfOne(env.cmp, AdvisoryRange(FindingOf(1), range), Maven, "1");
    ConsolidateOne(FindingOf(1));
  }

  /** What the package's check gives by what its exact and range hits are. */
  lemma {:induction false} OutcomeOfHits(
    env: Env, exactRow: PackageRow, rangeRow: PackageRow, exact: seq<Finding>, ranges: seq<Finding>)
    requires ShouldCheckOsv(env.settings.policy, Package(env))
    requires ExactHits([exactRow], env.normalize("p"), "1") == Ok(exact)
    requires RangeHits(env.cmp, [rangeRow], Maven, env.normalize("p"), "1") == Ok(ranges)
    ensures OutcomeFrom(env, true, [exactRow], [rangeRow], Package(env)) == Some(Ok(Consolidate(exact + ranges)))
  {
  }

  /** Either text by itself yields the advisory; the exact rows of the one and the ranges of the other yield nothing. */
  lemma {:induction false} NeitherText(env: Env)
    requires ShouldCheckOsv(env.settings.policy, Package(env))
    ensures OutcomeFrom(env, true, [RangeRow(env)], [RangeRow(env)], Package(env)) == Some(Ok([FindingOf(1)]))
    ensures OutcomeFrom(env, true, [VersionRow(env)], [VersionRow(env)], Package(env)) == Some(Ok([FindingOf(2)]))
    ensures OutcomeFrom(env, true, [RangeRow(env)], [VersionRow(env)], Package(env)) == Some(Ok([]))
  {
    ExactOfRow(env);
    RangeOfRow(env);
    OutcomeOfHits(env, RangeRow(env), RangeRow(env), [], [FindingOf(1)]);
    OutcomeOfHits(env, VersionRow(env), VersionRow(env), [FindingOf(2)], []);
    OutcomeOfHits(env, RangeRow(env), VersionRow(env), [], []);
    ConsolidateOne(FindingOf(1));
    ConsolidateOne(FindingOf(2));
    assert [] + [FindingOf(1)] == [FindingOf(1)] && [FindingOf(2)] + [] == [FindingOf(2)];
    assert Consolidate([]) == [];
  }

  // ---- The store and upstream ----

  const HELD: seq<Docs> := [map[], map[ID := BY_RANGE]]
  const EDITED: seq<Docs> := [map[], map[ID := BY_RANGE], map[ID := BY_VERSION]]

  /** The store before and after its first sync, and after the one that brings the second text. */
  const EMPTY_DB: Db := Sync.INITIAL.db
  const FIRST_DB: Db := SwapIn(EMPTY_DB, Maven, map[ID := BY_RANGE], 0, Some(1))
  const SECOND_DB: Db := Rewrite(FIRST_DB, Maven, 0, map[ID := BY_VERSION], 0, Some(2), true)

  /** The states of the run; `d` is what upstream has held. */
  function State(db: Db, d: seq<Docs>, phase: Sync.Phase): Sync.Sys {
    Sync.Sys(db, map[Maven := d], phase, map[Maven := {}])
  }

  function Bootstrapping(): Sync.Phase {
    Sync.Fetching(Maven, 0, true, [BY_RANGE], [], [], Some(1), {}, true)
  }

  function CatchingUp(fetched: seq<Advisory>): Sync.Phase {
    Sync.Fetching(Maven, 0, false, [], [Sync.Row(2, ID)], fetched, Some(2), {}, true)
  }

  lemma FirstText()
    ensures Sync.Step(Sync.INITIAL, Sync.Publish(Maven, BY_RANGE)) == State(EMPTY_DB, HELD, Sync.Idle)
  {
    var none: set<string> := {};
    assert Sync.History(Sync.INITIAL, Maven) + [map[ID := BY_RANGE]] == HELD;
    assert none - {ID} == none && Sync.INITIAL.stale[Maven := none] == map[Maven := none];
  }

  lemma Archive()
    ensures Sync.Step(State(EMPTY_DB, HELD, Sync.Idle), Sync.BeginBootstrap(Maven, 0, 1, [BY_RANGE]))
         == State(EMPTY_DB, HELD, Sync.Downloaded(Maven, 0, [BY_RANGE], true))
  {
    assert Sync.Archives([BY_RANGE], map[ID := BY_RANGE]);
  }

  lemma FirstListing()
    ensures Sync.Step(State(EMPTY_DB, HELD, Sync.Downloaded(Maven, 0, [BY_RANGE], true)), Sync.ReadCsv([Sync.Row(1, ID)]))
         == State(EMPTY_DB, HELD, Bootstrapping())
  {
    var rows := [Sync.Row(1, ID)];
    assert rows[1..] == [];
    assert Sync.ArchiveStamp([BY_RANGE], ID) == Some(1);
    assert Sync.Missing(rows, [BY_RANGE]) == [];
    assert rows[0] in rows && Sync.Lists(rows, map[ID := BY_RANGE]);
    assert Sync.Disagreeing([BY_RANGE], map[ID := BY_RANGE]) == {};
  }

  lemma ImportOf(docs: Docs, text: Advisory)
    requires text.id == ID && Importable(Maven, text) && !(ID in docs && docs[ID] == text)
    ensures Import(Maven, docs, [text]).Ok? && Import(Maven, docs, [text]).value.0 == docs[ID := text]
    ensures Import(Maven, docs, [text]).value.1.contentChanged
  {
    var start: Progress := Ok((docs, ImportStats(0, 0, false)));
    assert [text][..0] == [];
    assert ImportFrom(Maven, start, [text]) == ImportOne(Maven, ImportFrom(Maven, start, []), text);
  }

  lemma FirstCommit()
    ensures Sync.Step(State(EMPTY_DB, HELD, Bootstrapping()), Sync.CommitSync) == State(FIRST_DB, HELD, Sync.Idle)
  {
    ImportOf(map[], BY_RANGE);
    var none: seq<Advisory> := [];
    assert [BY_RANGE] + none == [BY_RANGE];
    var stale: set<string> := {};
    assert map[Maven := stale][Maven := stale] == map[Maven := stale];
  }

  lemma SecondText()
    ensures Sync.Step(State(FIRST_DB, HELD, Sync.Idle), Sync.Publish(Maven, BY_VERSION)) == State(FIRST_DB, EDITED, Sync.Idle)
  {
    var none: set<string> := {};
    var s := State(FIRST_DB, HELD, Sync.Idle);
    assert map[ID := BY_RANGE][ID := BY_VERSION] == map[ID := BY_VERSION];
    assert HELD + [map[ID := BY_VERSION]] == EDITED;
    assert none - {ID} == none && s.stale[Maven := none] == map[Maven := none];
    assert s.upstream[Maven := EDITED] == map[Maven := EDITED];
  }

  lemma SecondListing()
    ensures Sync.Step(State(FIRST_DB, EDITED, Sync.Idle), Sync.BeginIncremental(Maven, 0, [Sync.Row(2, ID)]))
         == State(FIRST_DB, EDITED, CatchingUp([]))
  {
    var rows, none: set<string> := [Sync.Row(2, ID)], {};
    assert rows[1..] == [];
    assert Sync.Recent(rows, Some(1)) == rows;
    assert rows[0] in rows && Sync.Lists(rows, map[ID := BY_VERSION]);
    assert none - Sync.IdsOf(rows) == none;
  }

  lemma Fetch()
    ensures Sync.Step(State(FIRST_DB, EDITED, CatchingUp([])), Sync.FetchNext) == State(FIRST_DB, EDITED, CatchingUp([BY_VERSION]))
  {
    var none: seq<Advisory> := [];
    assert none + [BY_VERSION] == [BY_VERSION];
  }

  lemma SecondCommit()
    ensures Sync.Step(State(FIRST_DB, EDITED, CatchingUp([BY_VERSION])), Sync.CommitSync) == State(SECOND_DB, EDITED, Sync.Idle)
  {
    ImportOf(map[ID := BY_RANGE], BY_VERSION);
    assert map[ID := BY_RANGE][ID := BY_VERSION] == map[ID := BY_VERSION];
    var stale: set<string> := {};
    assert map[Maven := stale][Maven := stale] == map[Maven := stale];
  }

  /** What the three states hold, and whether a check may use them. */
  lemma StoresOfRun(env: Env)
    ensures ActiveDocs(FIRST_DB, Maven) == Some(map[ID := BY_RANGE]) && ActiveDocs(SECOND_DB, Maven) == Some(map[ID := BY_VERSION])
    ensures StoreHealthy(env.rules, FIRST_DB, Maven, 0) && StoreHealthy(env.rules, SECOND_DB, Maven, 0)
    ensures !StoreHealthy(env.rules, EMPTY_DB, Maven, 0)
  {
  }

  /** No state of the run's store gives a check no findings. */
  lemma {:induction false} NoStateIsClean(env: Env, db: Db)
    requires ShouldCheckOsv(env.settings.policy, Package(env)) && (db == EMPTY_DB || db == FIRST_DB || db == SECOND_DB)
    ensures OutcomeAt(env, db, 0, Package(env)) != Some(Ok([]))
  {
    StoresOfRun(env);
    RowsOfStore(env, db);
    NeitherText(env);
  }

  // ---- The run ----

  lemma {:induction false} Next(env: Env, events: seq<Event>, event: Event)
    ensures Outside(events + [event]) == if event.World? then Sync.Step(Outside(events), event.deed) else Outside(events)
    ensures var heard := Heard(env, Outside(events), Inside(env, events), event);
      Inside(env, events + [event]) ==
        if heard.Some? then SingleFlight.Step(env.settings, Inside(env, events), heard.value) else Inside(env, events)
  {
    assert (events + [event])[..|events|] == events;
    WorldSnoc(events + [event]);
    ProxySnoc(env, events + [event]);
  }

  /** The clock stands still and the store is in one of the three states. */
  ghost predicate KnownAt(env: Env, events: seq<Event>) {
    var db := Outside(events).db;
    (db == EMPTY_DB || db == FIRST_DB || db == SECOND_DB) && Inside(env, events).clock == 0
  }

  /** So it has been at every instant. */
  ghost predicate Known(env: Env, events: seq<Event>) {
    KnownAt(env, events) && (events != [] ==> Known(env, events[..|events| - 1]))
  }

  lemma {:induction false} KnownAlways(env: Env, events: seq<Event>, k: nat)
    requires Known(env, events) && k <= |events|
    ensures KnownAt(env, events[..k])
  {
    if k == |events| {
      assert events[..k] == events;
    } else {
      assert events[..|events| - 1][..k] == events[..k];
      KnownAlways(env, events[..|events| - 1], k);
    }
  }

  lemma {:induction false} KnownNext(env: Env, events: seq<Event>, event: Event)
    requires Known(env, events) && KnownAt(env, events + [event])
    ensures Known(env, events + [event])
  {
    assert (events + [event])[..|events|] == events;
  }

  /** No request has arrived. */
  ghost predicate Fresh(c: Settings, s: SingleFlight.Sys) {
    s.requests == [] && s.cache == EMPTY && s.log == [] && s.permits == c.cache.fillConcurrency && s.clock == 0
  }

  lemma {:induction false} WorldNext(env: Env, events: seq<Event>, deed: Sync.Action, w: Sync.Sys) returns (more: seq<Event>)
    requires Known(env, events) && Fresh(env.settings, Inside(env, events)) && Sync.Step(Outside(events), deed) == w
    requires w.db == EMPTY_DB || w.db == FIRST_DB
    ensures Outside(more) == w && Known(env, more) && Fresh(env.settings, Inside(env, more))
  {
    more := events + [World(deed)];
    Next(env, events, World(deed));
    KnownNext(env, events, World(deed));
  }

  /** The store holds the first text, and a sync is about to commit the second one. */
  lemma {:induction false} AboutToCommit(env: Env) returns (events: seq<Event>)
    ensures Outside(events) == State(FIRST_DB, EDITED, CatchingUp([BY_VERSION]))
    ensures Known(env, events) && Fresh(env.settings, Inside(env, events))
  {
    events := [];
    FirstText();
    events := WorldNext(env, events, Sync.Publish(Maven, BY_RANGE), State(EMPTY_DB, HELD, Sync.Idle));
    Archive();
    events := WorldNext(env, events, Sync.BeginBootstrap(Maven, 0, 1, [BY_RANGE]),
                        State(EMPTY_DB, HELD, Sync.Downloaded(Maven, 0, [BY_RANGE], true)));
    FirstListing();
    events := WorldNext(env, events, Sync.ReadCsv([Sync.Row(1, ID)]), State(EMPTY_DB, HELD, Bootstrapping()));
    FirstCommit();
    events := WorldNext(env, events, Sync.CommitSync, State(FIRST_DB, HELD, Sync.Idle));
    SecondText();
    events := WorldNext(env, events, Sync.Publish(Maven, BY_VERSION), State(FIRST_DB, EDITED, Sync.Idle));
    SecondListing();
    events := WorldNext(env, events, Sync.BeginIncremental(Maven, 0, [Sync.Row(2, ID)]), State(FIRST_DB, EDITED, CatchingUp([])));
    Fetch();
    events := WorldNext(env, events, Sync.FetchNext, State(FIRST_DB, EDITED, CatchingUp([BY_VERSION])));
  }

  /** The only request is in this phase. */
  ghost predicate Alone(s: SingleFlight.Sys, phase: Phase) {
    |s.requests| == 1 && s.requests[0].phase == phase && s.requests[0].key.ecosystem == Maven && s.clock == 0
  }

  /** Nothing is kept or in flight yet, and permits are free. */
  ghost predicate Unused(s: SingleFlight.Sys) {
    s.cache == EMPTY && s.log == [] && s.permits > 0
  }

  lemma RequestArrives(c: Settings, s: SingleFlight.Sys, key: CacheKey)
    requires Fresh(c, s) && c.cache.fillConcurrency > 0 && key.ecosystem == Maven
    ensures Alone(SingleFlight.Step(c, s, Arrive(key)), Arrived) && Unused(SingleFlight.Step(c, s, Arrive(key)))
  {
  }

  /** One of the request's own steps up to its lookup. */
  lemma RequestMoves(c: Settings, s: SingleFlight.Sys, move: Move, before: Phase, after: Phase)
    requires UsesOsv(c) && Alone(s, before) && Unused(s)
    requires
      || (move == CheckHealth(true) && before == Arrived && after == FoundHealthy)
      || (move == ReadRevision(true) && before == FoundHealthy && after == Looking)
      || (move == ReadClock && before == Looking && after == ClockRead(0))
    ensures Alone(SingleFlight.Step(c, s, Proceed(0, move)), after) && Unused(SingleFlight.Step(c, s, Proceed(0, move)))
  {
  }

  /** It finds nothing kept or in flight, leads a fill and starts it. */
  lemma RequestLeads(c: Settings, s: SingleFlight.Sys)
    requires Alone(s, ClockRead(0)) && Unused(s)
    ensures var led := SingleFlight.Step(c, s, Proceed(0, Look));
      && Alone(led, Leading(0)) && led.permits > 0
      && Alone(SingleFlight.Step(c, led, Proceed(0, StartFill)), Filling(0, [], [], 0))
  {
  }

  lemma RequestQueries(c: Settings, s: SingleFlight.Sys, readings: seq<Reading>, healthy: bool, rows: seq<PackageRow>)
    requires Alone(s, Filling(0, readings, [], 0))
    ensures Alone(SingleFlight.Step(c, s, Proceed(0, Query(healthy, rows))),
                  Filling(0, readings + [Reading(Revision(s.revisions, Maven), healthy, rows)], [], 0))
  {
  }

  /** What the proxy hears of an event it does by itself or with the store's help. */
  lemma {:induction false} Happens(env: Env, events: seq<Event>, event: Event, a: SingleFlight.Action) returns (more: seq<Event>)
    requires Known(env, events) && !event.World?
    requires Heard(env, Outside(events), Inside(env, events), event) == Some(a)
    requires SingleFlight.Step(env.settings, Inside(env, events), a).clock == 0
    ensures Outside(more) == Outside(events) && Known(env, more)
    ensures Inside(env, more) == SingleFlight.Step(env.settings, Inside(env, events), a)
  {
    more := events + [event];
    Next(env, events, event);
    KnownNext(env, events, event);
  }

  lemma {:induction false} Healthy(env: Env, events: seq<Event>, phase: Phase)
    requires Outside(events).db == FIRST_DB && Alone(Inside(env, events), phase)
    ensures HealthSeen(env, Outside(events), Inside(env, events), 0)
  {
    StoresOfRun(env);
  }

  /** The request's first steps, while the store holds the first text. */
  lemma {:induction false} Moves(env: Env, events: seq<Event>, move: Move, before: Phase, after: Phase)
    returns (more: seq<Event>)
    requires UsesOsv(env.settings) && Outside(events).db == FIRST_DB
    requires Known(env, events) && Alone(Inside(env, events), before) && Unused(Inside(env, events))
    requires
      || (move == CheckHealth(true) && before == Arrived && after == FoundHealthy)
      || (move == ReadRevision(true) && before == FoundHealthy && after == Looking)
      || (move == ReadClock && before == Looking && after == ClockRead(0))
    ensures Outside(more) == Outside(events) && Known(env, more)
    ensures Alone(Inside(env, more), after) && Unused(Inside(env, more))
  {
    Healthy(env, events, before);
    RequestMoves(env.settings, Inside(env, events), move, before, after);
    more := Happens(env, events, Proxy(Proceed(0, move)), Proceed(0, move));
  }

  lemma {:induction false} Arrives(env: Env, events: seq<Event>) returns (more: seq<Event>)
    requires ValidConfig(env.settings.cache) && Known(env, events) && Fresh(env.settings, Inside(env, events))
    ensures Outside(more) == Outside(events) && Known(env, more)
    ensures Alone(Inside(env, more), Arrived) && Unused(Inside(env, more))
  {
    var key := CacheKey(Maven, None, "/maven/p/maven-metadata.xml", None, None, None, None, None);
    RequestArrives(env.settings, Inside(env, events), key);
    more := Happens(env, events, Proxy(Arrive(key)), Arrive(key));
  }

  lemma {:induction false} Leads(env: Env, events: seq<Event>) returns (more: seq<Event>)
    requires Known(env, events) && Alone(Inside(env, events), ClockRead(0)) && Unused(Inside(env, events))
    ensures Outside(more) == Outside(events) && Known(env, more)
    ensures Alone(Inside(env, more), Filling(0, [], [], 0))
  {
    RequestLeads(env.settings, Inside(env, events));
    var led := Happens(env, events, Proxy(Proceed(0, Look)), Proceed(0, Look));
    more := Happens(env, led, Proxy(Proceed(0, StartFill)), Proceed(0, StartFill));
  }

  /** A request fills while the sync is about to commit. */
  lemma {:induction false} AboutToCheck(env: Env) returns (events: seq<Event>)
    requires ValidConfig(env.settings.cache) && UsesOsv(env.settings)
    ensures Outside(events) == State(FIRST_DB, EDITED, CatchingUp([BY_VERSION])) && Known(env, events)
    ensures Alone(Inside(env, events), Filling(0, [], [], 0))
  {
    events := AboutToCommit(env);
    events := Arrives(env, events);
    events := Moves(env, events, CheckHealth(true), Arrived, FoundHealthy);
    events := Moves(env, events, ReadRevision(true), FoundHealthy, Looking);
    events := Moves(env, events, ReadClock, Looking, ClockRead(0));
    events := Leads(env, events);
  }

  /** The row of the text that a state of the store holds. */
  function RowIn(env: Env, db: Db): PackageRow {
    if db == FIRST_DB then RangeRow(env) else VersionRow(env)
  }

  lemma {:induction false} StatementHears(env: Env, w: Sync.Sys, s: SingleFlight.Sys, phase: Phase)
    requires (w.db == FIRST_DB || w.db == SECOND_DB) && Alone(s, phase)
    ensures Heard(env, w, s, Statement(0)) == Some(Proceed(0, Query(true, [RowIn(env, w.db)])))
  {
    StoresOfRun(env);
    RowsOfStore(env, w.db);
  }

  /** A statement of the check sees the row of the text that the store holds. */
  lemma {:induction false} Queries(env: Env, events: seq<Event>, readings: seq<Reading>) returns (more: seq<Event>, x: Reading)
    requires Known(env, events) && Alone(Inside(env, events), Filling(0, readings, [], 0))
    requires Outside(events).db == FIRST_DB || Outside(events).db == SECOND_DB
    ensures x.healthy && x.rows == [RowIn(env, Outside(events).db)]
    ensures Outside(more) == Outside(events) && Known(env, more)
    ensures Alone(Inside(env, more), Filling(0, readings + [x], [], 0))
  {
    var s, rows := Inside(env, events), [RowIn(env, Outside(events).db)];
    StatementHears(env, Outside(events), s, Filling(0, readings, [], 0));
    RequestQueries(env.settings, s, readings, true, rows);
    more := Happens(env, events, Statement(0), Proceed(0, Query(true, rows)));
    x := Reading(Revision(s.revisions, Maven), true, rows);
  }

  lemma {:induction false} Commits(env: Env, events: seq<Event>, phase: Phase) returns (more: seq<Event>)
    requires Known(env, events) && Alone(Inside(env, events), phase)
    requires Outside(events) == State(FIRST_DB, EDITED, CatchingUp([BY_VERSION]))
    ensures Outside(more) == State(SECOND_DB, EDITED, Sync.Idle) && Known(env, more)
    ensures Alone(Inside(env, more), phase)
  {
    SecondCommit();
    more := events + [World(Sync.CommitSync)];
    Next(env, events, World(Sync.CommitSync));
    KnownNext(env, events, World(Sync.CommitSync));
  }

  lemma {:induction false} RequestEvaluates(env: Env, s: SingleFlight.Sys, w: Sync.Sys, x: Reading, y: Reading, z: Reading)
    requires ShouldCheckOsv(env.settings.policy, Package(env)) && Alone(s, Filling(0, [x, y, z], [], 0))
    ensures var heard := Heard(env, w, s, Evaluation(0, Package(env), 0, 1, 2, None));
      && heard.Some?
      && Alone(SingleFlight.Step(env.settings, s, heard.value),
               Filling(0, [x, y, z], [ByReadings(env, Package(env), x, y, z)], 0))
  {
    JudgedByReadings(env, [x, y, z], Package(env), 0, 1, 2);
    var none: seq<Evaluated> := [];
    assert none + [ByReadings(env, Package(env), x, y, z)] == [ByReadings(env, Package(env), x, y, z)];
  }

  lemma StoresDiffer()
    ensures FIRST_DB != SECOND_DB
  {
    assert ContentRevision(FIRST_DB, Maven) != ContentRevision(SECOND_DB, Maven);
  }

  lemma {:induction false} RowsInStores(env: Env, w: Sync.Sys, phase: Sync.Phase)
    ensures w == State(SECOND_DB, EDITED, phase) ==> RowIn(env, w.db) == VersionRow(env)
  {
    StoresDiffer();
  }

  /** The fill's health and exact statements see the first text. */
  lemma {:induction false} HalfWay(env: Env, before: seq<Event>) returns (events: seq<Event>, x: Reading, y: Reading)
    requires Known(env, before) && Alone(Inside(env, before), Filling(0, [], [], 0)) && Outside(before).db == FIRST_DB
    ensures Outside(events) == Outside(before) && Known(env, events)
    ensures Alone(Inside(env, events), Filling(0, [x, y], [], 0)) && x.healthy && y.rows == [RangeRow(env)]
  {
    events, x := Queries(env, before, []);
    assert [] + [x] == [x];
    events, y := Queries(env, events, [x]);
    assert [x] + [y] == [x, y];
  }

  /** Then the second text is committed, and the range statement sees that. */
  lemma {:induction false} OtherHalf(env: Env, before: seq<Event>, x: Reading, y: Reading) returns (events: seq<Event>, z: Reading)
    requires Outside(before) == State(FIRST_DB, EDITED, CatchingUp([BY_VERSION])) && Known(env, before)
    requires Alone(Inside(env, before), Filling(0, [x, y], [], 0))
    ensures Known(env, events) && Alone(Inside(env, events), Filling(0, [x, y, z], [], 0)) && z.rows == [VersionRow(env)]
  {
    var committed := Commits(env, before, Filling(0, [x, y], [], 0));
    RowsInStores(env, Outside(committed), Sync.Idle);
    events, z := Queries(env, committed, [x, y]);
    assert [x, y] + [z] == [x, y, z];
  }

  /**
   In every deployment whose policy checks the package there is a run in which a fill
   evaluates it as free of findings by statements on both sides of a commit, although
   at no instant of the run would a check have said so.
   */
  lemma {:induction false} StraddlingCheckFindsNothing(env: Env) returns (events: seq<Event>, x: Evaluated)
    requires ValidConfig(env.settings.cache) && ShouldCheckOsv(env.settings.policy, Package(env))
    ensures |Inside(env, events).requests| == 1 && Inside(env, events).requests[0].phase.Filling?
    ensures x in Inside(env, events).requests[0].phase.evaluated
    ensures x.artifact == Package(env) && x.outcome == Some(Ok([]))
    ensures forall k: nat :: k <= |events| ==>
      x.outcome != OutcomeAt(env, Outside(events[..k]).db, Inside(env, events[..k]).clock, x.artifact)
  {
    events := AboutToCheck(env);
    var halfway, health, exact := HalfWay(env, events);
    var ranges;
    events, ranges := OtherHalf(env, halfway, health, exact);
    var event := Evaluation(0, Package(env), 0, 1, 2, None);
    RequestEvaluates(env, Inside(env, events), Outside(events), health, exact, ranges);
    events := Happens(env, events, event, Heard(env, Outside(events), Inside(env, events), event).value);
    x := ByReadings(env, Package(env), health, exact, ranges);
    NeitherText(env);
    forall k: nat | k <= |events|
      ensures x.outcome != OutcomeAt(env, Outside(events[..k]).db, Inside(env, events[..k]).clock, x.artifact)
    {
      KnownAlways(env, events, k);
      NoStateIsClean(env, Outside(events[..k]).db);
    }
  }
}
