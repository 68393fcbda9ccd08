/** Syncs get somewhere: from every reachable state the store can be brought up to date. */
module SyncProgress {
  import opened Prelude
  import opened OsvStore
  import opened SyncProtocol

  // Safety alone would be kept by syncs that never fetch or commit anything.  Here a
  // run is built, from any state, in which upstream rests and a sync succeeds.

  predicate Quiet(actions: seq<Action>) {
    forall a :: a in actions ==> !a.Publish?
  }

  /** The state after further actions. */
  function RunFrom(s: Sys, actions: seq<Action>): Sys
    decreases |actions|
  {
    if actions == [] then s else RunFrom(Step(s, actions[0]), actions[1..])
  }

  lemma {:induction false} RunGoesOn(actions: seq<Action>, more: seq<Action>)
    ensures Run(actions + more) == RunFrom(Run(actions), more)
    decreases |more|
  {
    if more == [] {
      assert actions + more == actions;
    } else {
      assert actions + more == actions + [more[0]] + more[1..];
      assert (actions + [more[0]])[..|actions|] == actions;
      RunGoesOn(actions + [more[0]], more[1..]);
    }
  }

  lemma {:induction false} RunFromConcat(s: Sys, a: seq<Action>, b: seq<Action>)
    ensures RunFrom(s, a + b) == RunFrom(RunFrom(s, a), b)
    decreases |a|
  {
    if a == [] {
      assert a + b == b;
    } else {
      assert (a + b)[1..] == a[1..] + b;
      RunFromConcat(Step(s, a[0]), a[1..], b);
    }
  }

  lemma {:induction false} ListingExists(docs: Docs) returns (rows: seq<Row>)
    requires Wellformed(docs)
    ensures Lists(rows, docs)
    decreases |docs|
  {
    if docs == map[] {
      rows := [];
    } else {
      var id :| id in docs;
      var rest := ListingExists(docs - {id});
      rows := [Row(StampOf(docs[id]), id)] + rest;
      forall x | x in docs
        ensures Row(StampOf(docs[x]), x) in rows
      {
        if x != id {
          assert x in docs - {id};
        }
      }
    }
  }

  lemma {:induction false} ArchiveExists(docs: Docs) returns (archive: seq<Advisory>)
    requires Wellformed(docs)
    ensures Archives(archive, docs)
    decreases |docs|
  {
    if docs == map[] {
      archive := [];
    } else {
      var id :| id in docs;
      var rest := ArchiveExists(docs - {id});
      archive := [docs[id]] + rest;
      forall x | x in docs
        ensures docs[x] in archive
      {
        if x != id {
          assert x in docs - {id};
        }
      }
    }
  }

  /** Every document that upstream holds can be read. */
  ghost predicate Readable(e: Ecosystem, docs: Docs) {
    forall id :: id in docs ==> Importable(e, docs[id])
  }

  lemma ReadableImports(e: Ecosystem, docs: Docs, list: seq<Advisory>)
    requires forall a :: a in list ==> Importable(e, a)
    ensures Import(e, docs, list).Ok?
  {
    ImportFailsExactly(e, docs, list);
    forall i: nat | i < |list|
      ensures Importable(e, list[i])
    {
      assert list[i] in list;
    }
  }

  lemma ReadableCommits(s: Sys)
    requires s.phase.Fetching?
    requires forall a :: a in s.phase.archive || a in s.phase.fetched ==> Importable(s.phase.e, a)
    requires s.phase.bootstrap || ActiveGeneration(s.db, s.phase.e).Some?
    ensures CommitResult(s.db, s.phase).Ok?
  {
    if s.phase.bootstrap {
      ReadableImports(s.phase.e, map[], s.phase.archive + s.phase.fetched);
    } else {
      ReadableImports(
        s.phase.e, s.db.generations[ActiveGeneration(s.db, s.phase.e).value].docs, s.phase.fetched);
    }
  }

  /** A quiet sync that is under way: everything it holds can be read, and its watermark covers what upstream holds. */
  ghost predicate UnderWay(s: Sys, e: Ecosystem) {
    && s.phase.Fetching? && s.phase.e == e && s.phase.quiet
    && Readable(e, Now(s, e))
    && (forall a :: a in s.phase.archive || a in s.phase.fetched ==> Importable(e, a))
    && (forall id :: id in Now(s, e) ==>
          s.phase.watermark.Some? && StampOf(Now(s, e)[id]) <= s.phase.watermark.value)
  }

  /** What stays the same while a sync fetches. */
  predicate SameSync(s: Sys, t: Sys) {
    && s.phase.Fetching? && t.phase.Fetching?
    && t.db == s.db && t.upstream == s.upstream && t.stale == s.stale
    && t.phase == s.phase.(fetched := t.phase.fetched)
  }

  lemma FetchGoesOn(s: Sys, e: Ecosystem)
    requires Inv(s) && UnderWay(s, e) && |s.phase.fetched| < |s.phase.todo|
    ensures var t := Step(s, FetchNext);
      UnderWay(t, e) && SameSync(s, t) && |t.phase.fetched| == |s.phase.fetched| + 1
  {
    assert s.phase.todo[|s.phase.fetched|] in s.phase.todo;
    assert Now(Step(s, FetchNext), e) == Now(s, e);
  }

  /** Fetching goes on until nothing is left to fetch. */
  lemma {:induction false} FetchesEverything(s: Sys, e: Ecosystem) returns (more: seq<Action>)
    requires Inv(s) && UnderWay(s, e) && |s.phase.fetched| <= |s.phase.todo|
    ensures Quiet(more) && SameSync(s, RunFrom(s, more)) && UnderWay(RunFrom(s, more), e) && Inv(RunFrom(s, more))
    ensures |RunFrom(s, more).phase.fetched| == |RunFrom(s, more).phase.todo|
    decreases |s.phase.todo| - |s.phase.fetched|
  {
    if |s.phase.fetched| == |s.phase.todo| {
      more := [];
    } else {
      FetchGoesOn(s, e);
      StepKeepsInvariant(s, FetchNext);
      var rest := FetchesEverything(Step(s, FetchNext), e);
      more := [FetchNext] + rest;
    }
  }

  lemma NewestCovers(rows: seq<Row>, docs: Docs)
    requires Lists(rows, docs)
    ensures forall id :: id in docs ==> Newest(rows).Some? && StampOf(docs[id]) <= Newest(rows).value
  {
    forall id | id in docs
      ensures Newest(rows).Some? && StampOf(docs[id]) <= Newest(rows).value
    {
      assert Row(StampOf(docs[id]), id) in rows;
    }
  }

  /** A sync that lists what upstream holds takes a watermark that covers it. */
  lemma IncrementalCoversNow(db: Db, e: Ecosystem, at: Stamp, rows: seq<Row>, docs: Docs, stale: set<string>)
    requires Lists(rows, docs)
    ensures var w := IncrementalStart(db, e, at, rows, stale).watermark;
      forall id :: id in docs ==> w.Some? && StampOf(docs[id]) <= w.value
  {
    forall id | id in docs
      ensures var w := IncrementalStart(db, e, at, rows, stale).watermark; w.Some? && StampOf(docs[id]) <= w.value
    {
      assert Row(StampOf(docs[id]), id) in rows;
    }
  }

  lemma ArchiveIsPresent(archive: seq<Advisory>, docs: Docs)
    requires Archives(archive, docs)
    ensures Disagreeing(archive, docs) == {}
  {
  }

  /** A sync of this ecosystem that has just begun in this state. */
  ghost predicate BegunIn(s: Sys, e: Ecosystem, at: Stamp, t: Sys) {
    && Inv(t) && UnderWay(t, e) && t.phase.at == at && t.phase.fetched == []
    && t.db == s.db && t.upstream == s.upstream && t.stale == s.stale
    && (t.phase.bootstrap <==> LastSuccess(s.db, e).None?)
    && (t.phase.bootstrap ==> t.phase.pending == {})
    && t.phase.pending <= Stale(s, e)
  }

  lemma IncrementalBegins(s: Sys, e: Ecosystem, at: Stamp, rows: seq<Row>)
    requires Inv(s) && s.phase.Idle? && Readable(e, Now(s, e)) && MayIncrement(s.db, e) && Lists(rows, Now(s, e))
    ensures BegunIn(s, e, at, Step(s, BeginIncremental(e, at, rows)))
  {
    HealthyExactly(HealthRules(0, false, false), s.db, e, 0);
    IncrementalCoversNow(s.db, e, at, rows, Now(s, e), Stale(s, e));
    StepKeepsInvariant(s, BeginIncremental(e, at, rows));
    assert Now(Step(s, BeginIncremental(e, at, rows)), e) == Now(s, e);
  }

  lemma BootstrapUnderWay(s: Sys, t: Sys, e: Ecosystem, at: Stamp, rows: seq<Row>, archive: seq<Advisory>)
    requires Readable(e, Now(s, e)) && Lists(rows, Now(s, e)) && Archives(archive, Now(s, e))
    requires t == s.(phase := Downloaded(e, at, archive, true))
    ensures var u := Step(t, ReadCsv(rows));
      && UnderWay(u, e) && u.phase.at == at && u.phase.fetched == []
      && u.db == s.db && u.upstream == s.upstream && u.stale == s.stale
      && u.phase.bootstrap && u.phase.pending == {}
  {
    ArchiveIsPresent(archive, Now(s, e));
    NewestCovers(rows, Now(s, e));
    assert Now(t, e) == Now(s, e) && Now(Step(t, ReadCsv(rows)), e) == Now(s, e);
  }

  lemma BootstrapStarts(s: Sys, e: Ecosystem, at: Stamp, archive: seq<Advisory>)
    requires Inv(s) && s.phase.Idle? && !MayIncrement(s.db, e)
    requires Archives(archive, Now(s, e)) && Wellformed(Now(s, e))
    ensures Step(s, BeginBootstrap(e, at, |History(s, e)| - 1, archive)) == s.(phase := Downloaded(e, at, archive, true))
    ensures Inv(s.(phase := Downloaded(e, at, archive, true)))
    ensures LastSuccess(s.db, e).None?
  {
    HealthyExactly(HealthRules(0, false, false), s.db, e, 0);
    StepKeepsInvariant(s, BeginBootstrap(e, at, |History(s, e)| - 1, archive));
  }

  lemma BootstrapBegins(s: Sys, e: Ecosystem, at: Stamp, rows: seq<Row>, archive: seq<Advisory>)
    requires Inv(s) && s.phase.Idle? && Readable(e, Now(s, e)) && !MayIncrement(s.db, e)
    requires Lists(rows, Now(s, e)) && Archives(archive, Now(s, e)) && Wellformed(Now(s, e))
    ensures BegunIn(s, e, at, Step(Step(s, BeginBootstrap(e, at, |History(s, e)| - 1, archive)), ReadCsv(rows)))
  {
    BootstrapStarts(s, e, at, archive);
    BootstrapUnderWay(s, s.(phase := Downloaded(e, at, archive, true)), e, at, rows, archive);
    StepKeepsInvariant(s.(phase := Downloaded(e, at, archive, true)), ReadCsv(rows));
  }

  lemma RunOfTwo(s: Sys, a: Action, b: Action)
    ensures RunFrom(s, [a]) == Step(s, a)
    ensures RunFrom(s, [a, b]) == Step(Step(s, a), b)
  {
    assert [a][1..] == [] && [a, b][1..] == [b] && [b][1..] == [];
    assert RunFrom(s, [a, b]) == RunFrom(Step(s, a), [b]) == RunFrom(Step(Step(s, a), b), []);
  }

  /** A sync may begin when none is under way. */
  lemma SyncBegins(s: Sys, e: Ecosystem, at: Stamp) returns (more: seq<Action>)
    requires Inv(s) && s.phase.Idle? && Readable(e, Now(s, e))
    ensures Quiet(more) && BegunIn(s, e, at, RunFrom(s, more))
  {
    assert UpstreamOk(s, e) && SnapshotOk(Now(s, e), History(s, e)[|History(s, e)| - 1]);
    var rows := ListingExists(Now(s, e));
    if MayIncrement(s.db, e) {
      IncrementalBegins(s, e, at, rows);
      more := [BeginIncremental(e, at, rows)];
      RunOfTwo(s, more[0], more[0]);
    } else {
      var archive := ArchiveExists(Now(s, e));
      BootstrapBegins(s, e, at, rows, archive);
      more := [BeginBootstrap(e, at, |History(s, e)| - 1, archive), ReadCsv(rows)];
      RunOfTwo(s, more[0], more[1]);
    }
  }

  /** Everything fetched is committed, and the store is then as far as upstream, but for what was stale before. */
  lemma SyncCommits(s: Sys, e: Ecosystem)
    requires Inv(s) && UnderWay(s, e) && |s.phase.fetched| == |s.phase.todo|
    ensures var t := Step(s, CommitSync);
      && UpToDate(t, e, s.phase.at) && t.upstream == s.upstream && Stale(t, e) == s.phase.pending
  {
    assert PhaseOk(s) && UpstreamOk(s, e);
    HealthyExactly(HealthRules(0, false, false), s.db, e, 0);
    ReadableCommits(s);
    CommitView(s, e);
    QuietCommit(s.db, s.phase, Now(s, e), Stale(s, e));
    CommittedDocs(s.db, s.phase);
    CommitSucceeds(s);
  }

  lemma CommitSucceeds(s: Sys)
    requires Inv(s) && s.phase.Fetching? && |s.phase.fetched| == |s.phase.todo| && CommitResult(s.db, s.phase).Ok?
    ensures LastSuccess(Step(s, CommitSync).db, s.phase.e) == Some(s.phase.at)
  {
  }

  /** The ecosystem is stored as upstream has it but for its stale documents, up to the newest, and last succeeded then. */
  ghost predicate UpToDate(s: Sys, e: Ecosystem, at: Stamp) {
    && s.phase.Idle? && ActiveDocs(s.db, e).Some? && LastSuccess(s.db, e) == Some(at)
    && (forall id :: Lookup(ActiveDocs(s.db, e).value, id) == Lookup(Now(s, e), id) <==> id !in Stale(s, e))
    && (forall id :: id in Now(s, e) ==>
          Watermark(s.db, e).Some? && StampOf(Now(s, e)[id]) <= Watermark(s.db, e).value)
  }

  /**
   From every reachable state, whatever sync was interrupted in it, a run goes on in
   which upstream rests and one sync brings the ecosystem up to date, as long as what
   upstream holds can be read: nothing becomes stale by it, and after a first
   bootstrap nothing is.
   */
  lemma CanCatchUp(actions: seq<Action>, e: Ecosystem, at: Stamp) returns (more: seq<Action>)
    requires Readable(e, Now(Run(actions), e))
    ensures Quiet(more) && UpToDate(Run(actions + more), e, at)
    ensures Now(Run(actions + more), e) == Now(Run(actions), e)
    ensures Stale(Run(actions + more), e) <= Stale(Run(actions), e)
    ensures LastSuccess(Run(actions).db, e).None? ==> Stale(Run(actions + more), e) == {}
  {
    RunKeepsInvariant(actions);
    CrashIdles(Run(actions), e);
    var rest := CatchesUp(Step(Run(actions), Crash), e, at);
    more := [Crash] + rest;
    RunGoesOn(actions, more);
    RunAfter(Run(actions), Crash, rest);
  }

  /** Whatever was under way can be given up. */
  lemma CrashIdles(s: Sys, e: Ecosystem)
    requires Inv(s)
    ensures var t := Step(s, Crash);
      Inv(t) && t.phase.Idle? && t.db == s.db && Now(t, e) == Now(s, e) && Stale(t, e) == Stale(s, e)
  {
    StepKeepsInvariant(s, Crash);
  }

  lemma RunAfter(s: Sys, first: Action, rest: seq<Action>)
    ensures RunFrom(s, [first] + rest) == RunFrom(Step(s, first), rest)
  {
    assert ([first] + rest)[1..] == rest;
  }

  lemma RunThen(s: Sys, a: seq<Action>, last: Action)
    ensures RunFrom(s, a + [last]) == Step(RunFrom(s, a), last)
  {
    RunFromConcat(s, a, [last]);
    RunOfTwo(RunFrom(s, a), last, last);
  }

  lemma SyncFinishes(s: Sys, e: Ecosystem) returns (more: seq<Action>)
    requires Inv(s) && UnderWay(s, e) && |s.phase.fetched| <= |s.phase.todo|
    ensures Quiet(more)
    ensures var t := RunFrom(s, more);
      UpToDate(t, e, s.phase.at) && t.upstream == s.upstream && Stale(t, e) == s.phase.pending
  {
    var fetch := FetchesEverything(s, e);
    SyncCommits(RunFrom(s, fetch), e);
    RunThen(s, fetch, CommitSync);
    more := fetch + [CommitSync];
  }

  lemma CatchesUp(s: Sys, e: Ecosystem, at: Stamp) returns (more: seq<Action>)
    requires Inv(s) && s.phase.Idle? && Readable(e, Now(s, e))
    ensures Quiet(more) && UpToDate(RunFrom(s, more), e, at) && Now(RunFrom(s, more), e) == Now(s, e)
    ensures Stale(RunFrom(s, more), e) <= Stale(s, e)
    ensures LastSuccess(s.db, e).None? ==> Stale(RunFrom(s, more), e) == {}
  {
    var begin := SyncBegins(s, e, at);
    var rest := SyncFinishes(RunFrom(s, begin), e);
    RunFromConcat(s, begin, rest);
    more := begin + rest;
  }
}
