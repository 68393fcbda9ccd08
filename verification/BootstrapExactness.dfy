/** When a bootstrap can lose an update. */
module BootstrapExactness {
  import opened Prelude
  import opened OsvStore
  import opened SyncProtocol

  // Its archive may be older than the listing it reads next, and what the listing does
  // not stamp later is not fetched again.  An upstream that raises a document's
  // timestamp with every edit never loses one; an edit under an unchanged timestamp
  // can be lost.

  /** Upstream never edits a document without raising its timestamp. */
  predicate StrictlyRaises(now: Docs, doc: Advisory) {
    doc.id in now ==> StampOf(doc) > StampOf(now[doc.id])
  }

  predicate StrictRun(actions: seq<Action>) {
    actions == [] ||
    var front, last := actions[..|actions| - 1], actions[|actions| - 1];
    StrictRun(front) && (last.Publish? ==> StrictlyRaises(Now(Run(front), last.e), last.doc))
  }

  /** An old document is older by its timestamp, or still current. */
  predicate Consistent(now: Docs, a: Advisory) {
    a.id in now && (StampOf(a) < StampOf(now[a.id]) || a == now[a.id])
  }

  ghost predicate SnapshotConsistent(now: Docs, snapshot: Docs) {
    forall id :: id in snapshot ==> snapshot[id].id == id && Consistent(now, snapshot[id])
  }

  ghost predicate HistoryConsistent(history: seq<Docs>, now: Docs) {
    forall k {:trigger SnapshotConsistent(now, history[k])} :: 0 <= k < |history| ==> SnapshotConsistent(now, history[k])
  }

  ghost predicate ConsistentAt(s: Sys, e: Ecosystem) {
    HistoryConsistent(History(s, e), Now(s, e)) && Stale(s, e) == {}
  }

  ghost predicate StrictInv(s: Sys) {
    && (s.phase.Fetching? ==> s.phase.pending == {})
    && (forall e {:trigger ConsistentAt(s, e)} :: ConsistentAt(s, e))
    && (s.phase.Downloaded? ==> forall a :: a in s.phase.archive ==> Consistent(Now(s, s.phase.e), a))
  }

  lemma StrictPublishKeepsConsistent(now: Docs, doc: Advisory, a: Advisory)
    requires Consistent(now, a) && StrictlyRaises(now, doc)
    ensures Consistent(now[doc.id := doc], a)
  {
  }

  lemma StrictPublishKeepsHistory(history: seq<Docs>, now: Docs, doc: Advisory)
    requires HistoryConsistent(history, now) && StrictlyRaises(now, doc) && forall id :: id in now ==> now[id].id == id
    ensures HistoryConsistent(history + [now[doc.id := doc]], now[doc.id := doc])
  {
    var after := now[doc.id := doc];
    var longer := history + [after];
    forall k | 0 <= k < |longer|
      ensures SnapshotConsistent(after, longer[k])
    {
      if k < |history| {
        assert longer[k] == history[k] && SnapshotConsistent(now, history[k]);
        forall id | id in history[k]
          ensures history[k][id].id == id && Consistent(after, history[k][id])
        {
          StrictPublishKeepsConsistent(now, doc, history[k][id]);
        }
      }
    }
  }

  lemma StrictPublishAt(s: Sys, e: Ecosystem, doc: Advisory, x: Ecosystem)
    requires StrictInv(s) && StrictlyRaises(Now(s, e), doc) && MayPublish(Now(s, e), doc)
    ensures ConsistentAt(StepPublish(s, e, doc), x)
  {
    assert ConsistentAt(s, x);
    PublishHistory(s, e, doc, x);
    PublishStale(s, e, doc, x);
    PublishView(s, e, doc, x);
    if x == e {
      assert Stale(s, e) - {doc.id} == {};
      assert SnapshotConsistent(Now(s, e), History(s, e)[|History(s, e)| - 1]);
      StrictPublishKeepsHistory(History(s, e), Now(s, e), doc);
    }
  }

  lemma StrictPublishPhase(s: Sys, e: Ecosystem, doc: Advisory)
    requires StrictInv(s) && StrictlyRaises(Now(s, e), doc) && MayPublish(Now(s, e), doc) && s.phase.Downloaded?
    ensures forall a :: a in s.phase.archive ==> Consistent(Now(StepPublish(s, e, doc), s.phase.e), a)
  {
    PublishView(s, e, doc, s.phase.e);
    forall a | a in s.phase.archive
      ensures Consistent(Now(StepPublish(s, e, doc), s.phase.e), a)
    {
      if s.phase.e == e {
        StrictPublishKeepsConsistent(Now(s, e), doc, a);
      }
    }
  }

  lemma StrictPublish(s: Sys, e: Ecosystem, doc: Advisory)
    requires StrictInv(s) && StrictlyRaises(Now(s, e), doc)
    ensures StrictInv(StepPublish(s, e, doc))
  {
    if MayPublish(Now(s, e), doc) {
      forall x
        ensures ConsistentAt(StepPublish(s, e, doc), x)
      {
        StrictPublishAt(s, e, doc, x);
      }
      if s.phase.Downloaded? {
        StrictPublishPhase(s, e, doc);
      }
    }
  }

  lemma StrictBegin(s: Sys, a: Action)
    requires StrictInv(s) && a.BeginBootstrap?
    ensures StrictInv(Step(s, a))
  {
    var t := Step(s, a);
    if t != s {
      assert ConsistentAt(s, a.e);
      assert SnapshotConsistent(Now(s, a.e), History(s, a.e)[a.snapshot]);
      forall x
        ensures ConsistentAt(t, x)
      {
        assert ConsistentAt(s, x);
      }
    }
  }

  lemma StrictListing(s: Sys, rows: seq<Row>)
    requires StrictInv(s) && s.phase.Downloaded?
    ensures StepReadCsv(s, rows).phase.Fetching? ==> StepReadCsv(s, rows).phase.pending == {}
  {
    var now := Now(s, s.phase.e);
    forall a | a in s.phase.archive
      ensures !Disagrees(now, a)
    {
      assert Consistent(now, a);
    }
  }

  lemma StrictCommit(s: Sys)
    requires StrictInv(s) && s.phase.Fetching?
    ensures StrictInv(StepCommit(s))
  {
    forall x
      ensures ConsistentAt(StepCommit(s), x)
    {
      assert ConsistentAt(s, x);
      if |s.phase.fetched| == |s.phase.todo| && CommitResult(s.db, s.phase).Ok? {
        CommitView(s, x);
      }
    }
  }

  /** Starting a sync, fetching and failing leave what upstream held and what is stale alone. */
  lemma StrictSync(s: Sys, a: Action)
    requires StrictInv(s) && (a.ReadCsv? || a.BeginIncremental? || a.FetchNext? || a.FailSync? || a.Crash?)
    ensures StrictInv(Step(s, a))
  {
    if a.ReadCsv? && s.phase.Downloaded? {
      StrictListing(s, a.rows);
    } else if a.BeginIncremental? {
      assert ConsistentAt(s, a.e);
    }
    forall x
      ensures ConsistentAt(Step(s, a), x)
    {
      assert ConsistentAt(s, x);
    }
  }

  lemma StrictStep(s: Sys, a: Action)
    requires StrictInv(s) && (a.Publish? ==> StrictlyRaises(Now(s, a.e), a.doc))
    ensures StrictInv(Step(s, a))
  {
    match a
    case Publish(e, doc) => StrictPublish(s, e, doc);
    case BeginBootstrap(_, _, _, _) => StrictBegin(s, a);
    case CommitSync => if s.phase.Fetching? { StrictCommit(s); }
    case _ => StrictSync(s, a);
  }

  /** If upstream always raises a timestamp when it edits, no document ever goes stale. */
  lemma {:induction false} StrictRunsNeverGoStale(actions: seq<Action>)
    requires StrictRun(actions)
    ensures StrictInv(Run(actions)) && forall e :: Stale(Run(actions), e) == {}
  {
    if actions == [] {
      forall x
        ensures ConsistentAt(INITIAL, x)
      {
      }
    } else {
      var front := actions[..|actions| - 1];
      StrictRunsNeverGoStale(front);
      StrictStep(Run(front), actions[|actions| - 1]);
    }
    forall e
      ensures Stale(Run(actions), e) == {}
    {
      assert ConsistentAt(Run(actions), e);
    }
  }

  // ---- What makes a document stale ----

  /** An incremental sync leaves nothing behind but what is stale already. */
  predicate PendingOk(s: Sys) {
    s.phase.Fetching? && !s.phase.bootstrap ==> s.phase.pending <= Stale(s, s.phase.e)
  }

  lemma StepKeepsPending(s: Sys, a: Action)
    requires PendingOk(s)
    ensures PendingOk(Step(s, a))
  {
    if a.Publish? && MayPublish(Now(s, a.e), a.doc) && s.phase.Fetching? {
      PublishStale(s, a.e, a.doc, s.phase.e);
    }
  }

  lemma {:induction false} RunKeepsPending(actions: seq<Action>)
    ensures PendingOk(Run(actions))
  {
    if actions != [] {
      RunKeepsPending(actions[..|actions| - 1]);
      StepKeepsPending(Run(actions[..|actions| - 1]), actions[|actions| - 1]);
    }
  }

  /**
   A document goes stale only when a bootstrap of its own ecosystem commits that
   left it pending: edits, incremental syncs, failures, crashes and the syncs of
   other ecosystems make none stale.
   */
  lemma OnlyBootstrapsMakeStale(actions: seq<Action>, a: Action, e: Ecosystem, id: string)
    requires id in Stale(Step(Run(actions), a), e) && id !in Stale(Run(actions), e)
    ensures var p := Run(actions).phase;
      a.CommitSync? && p.Fetching? && p.bootstrap && p.e == e && id in p.pending
  {
    var s := Run(actions);
    RunKeepsPending(actions);
    if a.Publish? && MayPublish(Now(s, a.e), a.doc) {
      PublishStale(s, a.e, a.doc, e);
    } else if a.CommitSync? && s.phase.Fetching? && |s.phase.fetched| == |s.phase.todo| && CommitResult(s.db, s.phase).Ok? {
      CommitView(s, e);
    }
  }

  // ---- One bootstrap ----

  /** What an undisturbed bootstrap ends up with, id by id. */
  lemma QuietBootstrapDocs(now: Docs, archive: seq<Advisory>, rows: seq<Row>, fetched: seq<Advisory>, id: string)
    requires ArchiveOk(now, archive) && Lists(rows, now)
    requires FetchedUndisturbed(now, Missing(rows, archive), fetched)
    ensures LastMention(map[], archive + fetched, id) ==
      if Listed(Missing(rows, archive), id) then Lookup(now, id) else LastMention(map[], archive, id)
  {
    var todo := Missing(rows, archive);
    forall a | a in fetched
      ensures a.id in now && a == now[a.id] && Listed(todo, a.id)
    {
      var i :| 0 <= i < |fetched| && fetched[i] == a;
      assert todo[i] in todo;
    }
    LastMentionConcat(map[], archive, fetched, id);
    if Listed(todo, id) {
      var i :| 0 <= i < |todo| && todo[i].id == id;
      assert fetched[i] in fetched && fetched[i].id == id;
      LastMentionOfOne(map[], fetched, id, now[id]);
    }
  }

  /** Every row was fetched while upstream held these documents. */
  ghost predicate FetchedUndisturbed(now: Docs, todo: seq<Row>, fetched: seq<Advisory>) {
    && Wellformed(now)
    && |fetched| == |todo|
    && forall i :: 0 <= i < |fetched| ==> todo[i].id in now && fetched[i] == now[todo[i].id]
  }

  /** An archive entry that has changed under its own timestamp is what the bootstrap stores. */
  lemma StaleEntryIsKept(now: Docs, archive: seq<Advisory>, rows: seq<Row>, fetched: seq<Advisory>, a: Advisory)
    requires ArchiveOk(now, archive) && Lists(rows, now)
    requires FetchedUndisturbed(now, Missing(rows, archive), fetched)
    requires a in archive && a.id in now && StampOf(a) == StampOf(now[a.id])
    ensures LastMention(map[], archive + fetched, a.id) == Some(a)
  {
    LastMentionOfOne(map[], archive, a.id, a);
    PresentStampIsNotMissing(now, archive, rows, a);
    QuietBootstrapDocs(now, archive, rows, fetched, a.id);
  }

  /**
   A bootstrap whose catch-up reads upstream undisturbed stores a document as
   upstream has it if and only if its archive entry has not changed under its own
   timestamp.
   */
  lemma QuietBootstrapIsExact(now: Docs, archive: seq<Advisory>, rows: seq<Row>, fetched: seq<Advisory>, id: string)
    requires ArchiveOk(now, archive) && Lists(rows, now)
    requires FetchedUndisturbed(now, Missing(rows, archive), fetched)
    ensures LastMention(map[], archive + fetched, id) == Lookup(now, id) <==> id !in Disagreeing(archive, now)
  {
    QuietBootstrapDocs(now, archive, rows, fetched, id);
    if id !in now {
      LastMentionSource(map[], archive, id);
    } else if !Listed(Missing(rows, archive), id) {
      ArchiveCovers(now, archive, rows, id);
    }
    if id in Disagreeing(archive, now) {
      var a :| a in archive && Disagrees(now, a) && a.id == id;
      StaleEntryIsKept(now, archive, rows, fetched, a);
    }
  }

  lemma BootstrapCatchUp(first: Advisory)
    requires first.id == "A" && first.modified == Some(1)
    ensures Missing([Row(1, "A"), Row(2, "B")], [first]) == [Row(2, "B")]
    ensures Newest([Row(1, "A"), Row(2, "B")]) == Some(2)
  {
    var rows := [Row(1, "A"), Row(2, "B")];
    assert rows[1..] == [Row(2, "B")] && rows[1..][1..] == [];
    assert ArchiveStamp([first], "A") == Some(1);
    assert [first][..0] == [] && ArchiveStamp([first], "B").None?;
    assert Missing(rows[1..][1..], [first]) == [];
    assert Missing(rows[1..], [first]) == [Row(2, "B")];
  }

  lemma ImportTwo(first: Advisory, other: Advisory)
    requires first.id == "A" && other.id == "B" && first.affected == [] && other.affected == []
    ensures Import(Npm, map[], [first] + [other]).Ok?
    ensures Lookup(Import(Npm, map[], [first] + [other]).value.0, "A") == Some(first)
  {
    var start: Progress := Ok((map[], ImportStats(0, 0, false)));
    var list := [first] + [other];
    assert [first][..0] == [] && list[..1] == [first];
    assert ImportFrom(Npm, start, [first]) == ImportOne(Npm, start, first);
    assert ImportFrom(Npm, start, list) == ImportOne(Npm, ImportFrom(Npm, start, [first]), other);
  }

  /** The states of the run below, one after each action; `d` is what upstream has held. */
  function Held(d: seq<Docs>, phase: Phase): Sys {
    Sys(INITIAL.db, map[Npm := d], phase, map[Npm := {}])
  }

  /** The bootstrap of that run once it has read the listing. */
  function CatchingUp(first: Advisory, fetched: seq<Advisory>): Phase {
    Fetching(Npm, 0, true, [first], [Row(2, "B")], fetched, Some(2), {"A"}, false)
  }

  lemma PublishStep(d: seq<Docs>, phase: Phase, doc: Advisory)
    requires d != [] && MayPublish(d[|d| - 1], doc)
    ensures Step(Held(d, phase), Publish(Npm, doc)) ==
      Held(d + [d[|d| - 1][doc.id := doc]], Disturb(phase, Npm, doc.id))
  {
    var s := Held(d, phase);
    assert Now(s, Npm) == d[|d| - 1];
    assert s.upstream[Npm := d + [d[|d| - 1][doc.id := doc]]] == map[Npm := d + [d[|d| - 1][doc.id := doc]]];
    var none: set<string> := {};
    assert none - {doc.id} == none && s.stale[Npm := none] == map[Npm := none];
  }

  lemma FirstStep(first: Advisory)
    requires first.id == "A" && first.modified.Some?
    ensures Step(INITIAL, Publish(Npm, first)) == Held([map[], map["A" := first]], Idle)
  {
    var d1 := [map[], map["A" := first]];
    assert History(INITIAL, Npm) + [map["A" := first]] == d1;
    assert Step(INITIAL, Publish(Npm, first)).upstream == map[Npm := d1];
    var none: set<string> := {};
    assert none - {"A"} == none && INITIAL.stale[Npm := none] == map[Npm := none];
  }

  lemma ArchiveStep(first: Advisory)
    requires first.id == "A"
    ensures var d := [map[], map["A" := first]];
      Step(Held(d, Idle), BeginBootstrap(Npm, 0, 1, [first])) == Held(d, Downloaded(Npm, 0, [first], true))
  {
    assert Archives([first], map["A" := first]);
  }

  /** What the listing says of the edited documents. */
  lemma ListingOf(docs: Docs, first: Advisory, edited: Advisory, other: Advisory)
    requires docs == map["A" := edited, "B" := other] && first != edited
    requires first.id == "A" == edited.id && other.id == "B"
    requires first.modified == Some(1) == edited.modified && other.modified == Some(2)
    ensures var rows := [Row(1, "A"), Row(2, "B")];
      Lists(rows, docs) && Newest(rows) == Some(2) && Disagreeing([first], docs) == {"A"}
  {
    var rows := [Row(1, "A"), Row(2, "B")];
    assert rows[0] == Row(1, "A") && rows[1] == Row(2, "B");
    BootstrapCatchUp(first);
    assert first in [first] && Disagrees(docs, first);
  }

  lemma ListingStep(d: seq<Docs>, first: Advisory, edited: Advisory, other: Advisory)
    requires d != [] && d[|d| - 1] == map["A" := edited, "B" := other] && first != edited
    requires first.id == "A" == edited.id && other.id == "B"
    requires first.modified == Some(1) == edited.modified && other.modified == Some(2)
    ensures Step(Held(d, Downloaded(Npm, 0, [first], false)), ReadCsv([Row(1, "A"), Row(2, "B")]))
         == Held(d, CatchingUp(first, []))
  {
    var s := Held(d, Downloaded(Npm, 0, [first], false));
    assert Now(s, Npm) == d[|d| - 1];
    ListingOf(d[|d| - 1], first, edited, other);
    BootstrapCatchUp(first);
  }

  lemma FetchStep(d: seq<Docs>, first: Advisory, edited: Advisory, other: Advisory)
    requires d != [] && d[|d| - 1] == map["A" := edited, "B" := other]
    ensures Step(Held(d, CatchingUp(first, [])), FetchNext) == Held(d, CatchingUp(first, [other]))
  {
    assert [] + [other] == [other];
    assert [Row(2, "B")][0].id == "B";
  }

  lemma CommitStep(d: seq<Docs>, first: Advisory, other: Advisory)
    requires first.id == "A" && other.id == "B" && first.affected == [] && other.affected == []
    ensures var t := Step(Held(d, CatchingUp(first, [other])), CommitSync);
      && t.upstream == map[Npm := d] && Stale(t, Npm) == {"A"}
      && Watermark(t.db, Npm) == Some(2)
      && ActiveDocs(t.db, Npm).Some? && Lookup(ActiveDocs(t.db, Npm).value, "A") == Some(first)
  {
    ImportTwo(first, other);
    var s := Held(d, CatchingUp(first, [other]));
    var docs := Import(Npm, map[], [first] + [other]).value.0;
    assert Step(s, CommitSync).db == SwapIn(s.db, Npm, docs, 0, Some(2));
  }

  /** A run extended by one action whose effect is known. */
  lemma Extend(actions: seq<Action>, s: Sys, a: Action, t: Sys)
    requires Run(actions) == s && Step(s, a) == t
    ensures Run(actions + [a]) == t
  {
    assert (actions + [a])[..|actions|] == actions;
  }

  /** The run up to the archive, which holds the first text. */
  lemma ArchiveFirst(first: Advisory) returns (actions: seq<Action>)
    requires first.id == "A" && first.modified == Some(1)
    ensures Run(actions) == Held([map[], map["A" := first]], Downloaded(Npm, 0, [first], true))
  {
    var d := [map[], map["A" := first]];
    FirstStep(first);
    Extend([], INITIAL, Publish(Npm, first), Held(d, Idle));
    ArchiveStep(first);
    Extend([] + [Publish(Npm, first)], Held(d, Idle), BeginBootstrap(Npm, 0, 1, [first]),
           Held(d, Downloaded(Npm, 0, [first], true)));
    actions := [] + [Publish(Npm, first)] + [BeginBootstrap(Npm, 0, 1, [first])];
  }

  /** The run up to the listing: the archive holds the first text, upstream the edited one. */
  lemma EditAfterArchive(first: Advisory, edited: Advisory, other: Advisory)
    returns (actions: seq<Action>, d: seq<Docs>)
    requires first.id == "A" == edited.id && other.id == "B"
    requires first.modified == Some(1) == edited.modified && other.modified == Some(2)
    ensures d != [] && d[|d| - 1] == map["A" := edited, "B" := other]
    ensures Run(actions) == Held(d, Downloaded(Npm, 0, [first], false))
  {
    var d1 := [map[], map["A" := first]];
    var d2 := d1 + [map["A" := first]["A" := edited]];
    d := d2 + [d2[|d2| - 1]["B" := other]];
    var archive, moved := Downloaded(Npm, 0, [first], true), Downloaded(Npm, 0, [first], false);
    var before := ArchiveFirst(first);
    PublishStep(d1, archive, edited);
    Extend(before, Held(d1, archive), Publish(Npm, edited), Held(d2, moved));
    PublishStep(d2, moved, other);
    Extend(before + [Publish(Npm, edited)], Held(d2, moved), Publish(Npm, other), Held(d, moved));
    actions := before + [Publish(Npm, edited)] + [Publish(Npm, other)];
  }

  /** From the listing to the commit: the earlier text is stored under a later watermark. */
  lemma FinishBootstrap(before: seq<Action>, d: seq<Docs>, first: Advisory, edited: Advisory, other: Advisory)
    returns (actions: seq<Action>)
    requires first.id == "A" == edited.id && other.id == "B" && first != edited
    requires first.modified == Some(1) == edited.modified && other.modified == Some(2)
    requires first.affected == [] && other.affected == []
    requires d != [] && d[|d| - 1] == map["A" := edited, "B" := other]
    requires Run(before) == Held(d, Downloaded(Npm, 0, [first], false))
    ensures Run(actions).upstream == map[Npm := d] && Stale(Run(actions), Npm) == {"A"}
    ensures Watermark(Run(actions).db, Npm) == Some(2)
    ensures ActiveDocs(Run(actions).db, Npm).Some?
    ensures Lookup(ActiveDocs(Run(actions).db, Npm).value, "A") == Some(first)
  {
    var rows := [Row(1, "A"), Row(2, "B")];
    var listed, fetched := Held(d, CatchingUp(first, [])), Held(d, CatchingUp(first, [other]));
    ListingStep(d, first, edited, other);
    Extend(before, Run(before), ReadCsv(rows), listed);
    FetchStep(d, first, edited, other);
    Extend(before + [ReadCsv(rows)], listed, FetchNext, fetched);
    CommitStep(d, first, other);
    actions := before + [ReadCsv(rows)] + [FetchNext];
    Extend(actions, fetched, CommitSync, Step(fetched, CommitSync));
    actions := actions + [CommitSync];
  }

  lemma EditIsOlder(s: Sys, d: seq<Docs>, edited: Advisory, other: Advisory)
    requires s.upstream == map[Npm := d] && d != [] && d[|d| - 1] == map["A" := edited, "B" := other]
    requires edited.modified == Some(1) && Watermark(s.db, Npm) == Some(2)
    ensures Older(Now(s, Npm), "A", Watermark(s.db, Npm)) && Now(s, Npm)["A"] == edited
  {
    assert Now(s, Npm) == d[|d| - 1];
  }

  /**
   An edit that keeps its timestamp, made between the archive snapshot and the
   listing, is lost: the store keeps the earlier text although the watermark is past it.
   */
  lemma EqualStampEditCanBeLost() returns (actions: seq<Action>)
    ensures var s := Run(actions);
      && Stale(s, Npm) == {"A"} && Older(Now(s, Npm), "A", Watermark(s.db, Npm))
      && ActiveDocs(s.db, Npm).Some?
      && Lookup(ActiveDocs(s.db, Npm).value, "A") != Some(Now(s, Npm)["A"])
  {
    var first := Advisory("A", Some("original"), Some(1), None, None, [], []);
    var edited := Advisory("A", Some("edited"), Some(1), None, None, [], []);
    var other := Advisory("B", None, Some(2), None, None, [], []);
    var before, d := EditAfterArchive(first, edited, other);
    actions := FinishBootstrap(before, d, first, edited, other);
    EditIsOlder(Run(actions), d, edited, other);
  }
}
