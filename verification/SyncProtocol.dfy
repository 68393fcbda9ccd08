/** Syncs racing with an upstream that keeps publishing. */
module SyncProtocol {
  import opened Prelude
  import opened OsvStore

  datatype Row = Row(modified: Stamp, id: string)

  function StampOf(a: Advisory): Stamp {
    if a.modified.Some? then a.modified.value else MIN_UTC
  }

  /** What upstream holds: every document under its own id, each with a timestamp. */
  ghost predicate Wellformed(docs: Docs) {
    forall id :: id in docs ==> docs[id].id == id && docs[id].modified.Some?
  }

  /** No published document is newer than this instant. */
  predicate NoNewerThan(docs: Docs, t: Stamp) {
    forall id :: id in docs ==> StampOf(docs[id]) <= t
  }

  /** The CSV lists every document with its timestamp, and nothing else. */
  predicate Lists(rows: seq<Row>, docs: Docs) {
    && (forall r :: r in rows ==> r.id in docs && StampOf(docs[r.id]) == r.modified)
    && (forall id :: id in docs ==> Row(StampOf(docs[id]), id) in rows)
  }

  /** The archive holds every document of a snapshot, in any order, and nothing else. */
  predicate Archives(archive: seq<Advisory>, docs: Docs) {
    && (forall a :: a in archive ==> a.id in docs && docs[a.id] == a)
    && (forall id :: id in docs ==> docs[id] in archive)
  }

  /** This entry is another text than the document of its id, under the same timestamp. */
  predicate Disagrees(docs: Docs, a: Advisory) {
    a.id in docs && StampOf(a) == StampOf(docs[a.id]) && a != docs[a.id]
  }

  /** The ids of such entries. */
  function Disagreeing(archive: seq<Advisory>, docs: Docs): set<string> {
    set a | a in archive && Disagrees(docs, a) :: a.id
  }

  /** The document is older than the watermark. */
  predicate Older(now: Docs, id: string, w: Option<Stamp>) {
    id in now && w.Some? && StampOf(now[id]) < w.value
  }

  /** Rows an incremental sync reads: those not older than the previous watermark. */
  function Recent(rows: seq<Row>, previous: Option<Stamp>): (r: seq<Row>)
    ensures forall x :: x in r <==> x in rows && (previous.Some? ==> x.modified >= previous.value)
  {
    if rows == [] then []
    else
      var rest := Recent(rows[1..], previous);
      if previous.Some? && rows[0].modified < previous.value then rest else [rows[0]] + rest
  }

  function ArchiveStamp(archive: seq<Advisory>, id: string): (s: Option<Stamp>)
    ensures s.None? ==> forall a :: a in archive ==> a.id != id
    ensures s.Some? ==> exists a :: a in archive && a.id == id && StampOf(a) == s.value
  {
    if archive == [] then None
    else
      var last := archive[|archive| - 1];
      if last.id == id then Some(StampOf(last)) else ArchiveStamp(archive[..|archive| - 1], id)
  }

  predicate IsMissing(archive: seq<Advisory>, row: Row) {
    var s := ArchiveStamp(archive, row.id);
    s.None? || s.value < row.modified
  }

  /** Rows a bootstrap fetches again: those the archive lacks or holds an older version of. */
  function Missing(rows: seq<Row>, archive: seq<Advisory>): (r: seq<Row>)
    ensures forall x :: x in r <==> x in rows && IsMissing(archive, x)
  {
    if rows == [] then []
    else
      var rest := Missing(rows[1..], archive);
      if IsMissing(archive, rows[0]) then [rows[0]] + rest else rest
  }

  /** The newest timestamp among rows, if there are any. */
  function Newest(rows: seq<Row>): (w: Option<Stamp>)
    ensures w.None? <==> rows == []
    ensures w.Some? ==> exists r :: r in rows && r.modified == w.value
    ensures forall r :: r in rows ==> w.Some? && r.modified <= w.value
  {
    if rows == [] then None
    else
      var rest := Newest(rows[1..]);
      if rest.Some? && rest.value > rows[0].modified then rest else Some(rows[0].modified)
  }

  /** The ids of rows. */
  function IdsOf(rows: seq<Row>): set<string> {
    set r | r in rows :: r.id
  }

  /**
   A sync in progress.  `quiet` records that its ecosystem has not been published
   to since it began.  `pending` are the ids that its commit will leave at another
   text than upstream's: for a bootstrap those whose archive entry had changed
   under its own timestamp when the listing was read, for an incremental sync the
   stale ones it does not fetch again; publishing an id anew takes it out.
   */
  datatype Phase =
    | Idle
    | Downloaded(e: Ecosystem, at: Stamp, archive: seq<Advisory>, quiet: bool)
    | Fetching(
        e: Ecosystem, at: Stamp, bootstrap: bool, archive: seq<Advisory>, todo: seq<Row>,
        fetched: seq<Advisory>, watermark: Option<Stamp>, pending: set<string>, quiet: bool)

  /**
   `upstream` lists what upstream has held, last is now.  `stale` are, for each
   ecosystem, the ids that the last committed sync left pending and that have not
   been published anew.
   */
  datatype Sys = Sys(
    db: Db, upstream: map<Ecosystem, seq<Docs>>, phase: Phase, stale: map<Ecosystem, set<string>>)

  /**
   The archive, the CSV listing and each advisory are read in separate steps, and
   documents may change between any two of them.  At most one sync runs at a time.
   */
  datatype Action =
    | Publish(e: Ecosystem, doc: Advisory)
    | BeginBootstrap(e: Ecosystem, at: Stamp, snapshot: nat, archive: seq<Advisory>)
    | ReadCsv(rows: seq<Row>)
    | BeginIncremental(e: Ecosystem, at: Stamp, rows: seq<Row>)
    | FetchNext
    | CommitSync
    | FailSync
    | Crash

  function History(s: Sys, e: Ecosystem): seq<Docs> {
    if e in s.upstream && s.upstream[e] != [] then s.upstream[e] else [map[]]
  }

  function Now(s: Sys, e: Ecosystem): Docs {
    History(s, e)[|History(s, e)| - 1]
  }

  function Stale(s: Sys, e: Ecosystem): set<string> {
    if e in s.stale then s.stale[e] else {}
  }

  const INITIAL: Sys := Sys(Db([], map[]), map[], Idle, map[])

  /** Upstream's own rule: a document is never stamped earlier than anything already published. */
  predicate MayPublish(docs: Docs, doc: Advisory) {
    doc.modified.Some? && NoNewerThan(docs, StampOf(doc))
  }

  /** What publishing a document does to a sync in progress. */
  function Disturb(phase: Phase, e: Ecosystem, id: string): Phase {
    match phase
    case Idle => Idle
    case Downloaded(p, at, archive, quiet) => Downloaded(p, at, archive, quiet && p != e)
    case Fetching(p, at, bootstrap, archive, todo, fetched, watermark, pending, quiet) =>
      Fetching(p, at, bootstrap, archive, todo, fetched, watermark, if p == e then pending - {id} else pending, quiet && p != e)
  }

  function StepPublish(s: Sys, e: Ecosystem, doc: Advisory): Sys {
    if MayPublish(Now(s, e), doc)
    then s.(upstream := s.upstream[e := History(s, e) + [Now(s, e)[doc.id := doc]]],
            phase := Disturb(s.phase, e, doc.id),
            stale := s.stale[e := Stale(s, e) - {doc.id}])
    else s
  }

  function StepReadCsv(s: Sys, rows: seq<Row>): Sys
    requires s.phase.Downloaded?
  {
    var Downloaded(e, at, archive, quiet) := s.phase;
    if Lists(rows, Now(s, e))
    then s.(phase := Fetching(e, at, true, archive, Missing(rows, archive), [], Newest(rows),
                              Disagreeing(archive, Now(s, e)), quiet))
    else s
  }

  function Watermark(db: Db, e: Ecosystem): Option<Stamp> {
    if e in db.sync then db.sync[e].highWatermark else None
  }

  /** The phase an incremental sync starts in. */
  function IncrementalStart(db: Db, e: Ecosystem, at: Stamp, rows: seq<Row>, stale: set<string>): Phase {
    var todo := Recent(rows, Watermark(db, e));
    Fetching(e, at, false, [], todo, [], if Newest(todo).Some? then Newest(todo) else Watermark(db, e), stale - IdsOf(todo), true)
  }

  function StepBeginIncremental(s: Sys, e: Ecosystem, at: Stamp, rows: seq<Row>): Sys {
    if s.phase.Idle? && MayIncrement(s.db, e) && Lists(rows, Now(s, e))
    then s.(phase := IncrementalStart(s.db, e, at, rows, Stale(s, e)))
    else s
  }

  /** Fetch the next advisory as upstream holds it now; one that is gone cannot be fetched. */
  function StepFetch(s: Sys): Sys
    requires s.phase.Fetching?
  {
    var Fetching(e, _, _, _, todo, fetched, _, _, _) := s.phase;
    if |fetched| < |todo| && todo[|fetched|].id in Now(s, e)
    then s.(phase := s.phase.(fetched := fetched + [Now(s, e)[todo[|fetched|].id]]))
    else s
  }

  function CommitResult(db: Db, p: Phase): Result<Db, SyncError>
    requires p.Fetching?
  {
    if p.bootstrap then Bootstrap(db, p.e, p.archive + p.fetched, p.at, p.watermark)
    else Incremental(db, p.e, p.fetched, p.at, p.watermark)
  }

  function StepCommit(s: Sys): Sys
    requires s.phase.Fetching?
  {
    if |s.phase.fetched| < |s.phase.todo| then s
    else match CommitResult(s.db, s.phase)
      case Ok(db) => s.(db := db, phase := Idle, stale := s.stale[s.phase.e := s.phase.pending])
      case Err(_) => s.(db := RecordFailure(s.db, s.phase.e, s.phase.at), phase := Idle)
  }

  function Step(s: Sys, a: Action): Sys {
    match a
    case Publish(e, doc) => StepPublish(s, e, doc)
    case BeginBootstrap(e, at, snapshot, archive) =>
      if s.phase.Idle? && !MayIncrement(s.db, e) && snapshot < |History(s, e)| && Archives(archive, History(s, e)[snapshot])
      then s.(phase := Downloaded(e, at, archive, true)) else s
    case ReadCsv(rows) => if s.phase.Downloaded? then StepReadCsv(s, rows) else s
    case BeginIncremental(e, at, rows) => StepBeginIncremental(s, e, at, rows)
    case FetchNext => if s.phase.Fetching? then StepFetch(s) else s
    case CommitSync => if s.phase.Fetching? then StepCommit(s) else s
    case FailSync =>
      if s.phase.Idle? then s else s.(db := RecordFailure(s.db, s.phase.e, s.phase.at), phase := Idle)
    case Crash => s.(phase := Idle)
  }

  function Run(actions: seq<Action>): Sys {
    if actions == [] then INITIAL else Step(Run(actions[..|actions| - 1]), actions[|actions| - 1])
  }

  // ---- The invariant ----

  ghost predicate Reaches(docs: Docs, w: Option<Stamp>) {
    w.Some? ==> exists id :: id in docs && StampOf(docs[id]) >= w.value
  }

  /** An advisory was published once, and what is published now is not older. */
  predicate Outdated(now: Docs, a: Advisory) {
    a.id in now && StampOf(a) <= StampOf(now[a.id])
  }

  ghost predicate SnapshotOk(now: Docs, snapshot: Docs) {
    Wellformed(snapshot) && forall id :: id in snapshot ==> Outdated(now, snapshot[id])
  }

  ghost predicate ArchiveOk(now: Docs, archive: seq<Advisory>) {
    && (forall a :: a in archive ==> Outdated(now, a))
    && (forall a, b :: a in archive && b in archive && a.id == b.id ==> a == b)
  }

  /** Of the documents older than the watermark, the stale ones and no others are not stored as they are now. */
  ghost predicate OnlyStaleLost(db: Db, e: Ecosystem, now: Docs, stale: set<string>) {
    && (forall id :: id in stale ==> id in now && ActiveDocs(db, e).Some? && Lookup(ActiveDocs(db, e).value, id) != Some(now[id]))
    && (ActiveDocs(db, e).Some? ==>
          forall id :: Older(now, id, Watermark(db, e)) && id !in stale ==>
            Lookup(ActiveDocs(db, e).value, id) == Some(now[id]))
  }

  /** Every snapshot upstream ever held is no newer than what it holds now. */
  ghost predicate HistoryOk(history: seq<Docs>, now: Docs) {
    forall k {:trigger SnapshotOk(now, history[k])} :: 0 <= k < |history| ==> SnapshotOk(now, history[k])
  }

  ghost predicate StoreOk(db: Db, e: Ecosystem, now: Docs, stale: set<string>) {
    && Reaches(now, Watermark(db, e))
    && (ActiveDocs(db, e).Some? ==> forall id :: id in ActiveDocs(db, e).value ==> id in now)
    && OnlyStaleLost(db, e, now, stale)
  }

  ghost predicate UpstreamOk(s: Sys, e: Ecosystem) {
    HistoryOk(History(s, e), Now(s, e)) && StoreOk(s.db, e, Now(s, e), Stale(s, e))
  }

  /** The document an id has before anything fetched is imported. */
  function Base(db: Db, p: Phase, id: string): Option<Advisory>
    requires p.Fetching?
  {
    if p.bootstrap then LastMention(map[], p.archive, id)
    else match ActiveDocs(db, p.e)
      case Some(docs) => Lookup(docs, id)
      case None => None
  }

  predicate Listed(todo: seq<Row>, id: string) {
    exists r :: r in todo && r.id == id
  }

  /**
   A pending id will be left at another text; any other id that the sync knows will
   be left at its present content, unless it is published again.
   */
  ghost predicate Covered(db: Db, p: Phase, now: Docs, id: string)
    requires p.Fetching?
  {
    if id in p.pending then
      id in now && !Listed(p.todo, id) && Base(db, p, id) != Some(now[id])
    else
      id in now && (p.quiet || Older(now, id, p.watermark)) ==>
        && (forall a :: a in p.fetched && a.id == id ==> a == now[id])
        && (!Listed(p.todo, id) ==> Base(db, p, id) == Some(now[id]))
  }

  ghost predicate FetchingOk(db: Db, p: Phase, now: Docs)
    requires p.Fetching?
  {
    && |p.fetched| <= |p.todo|
    && (forall i :: 0 <= i < |p.fetched| ==> p.fetched[i].id == p.todo[i].id)
    && (forall r :: r in p.todo ==> r.id in now)
    && (forall a :: a in p.fetched ==> a.id in now)
    && Reaches(now, p.watermark)
    && (if p.bootstrap then ArchiveOk(now, p.archive) else MayIncrement(db, p.e))
    && (forall id {:trigger Covered(db, p, now, id)} :: Covered(db, p, now, id))
  }

  ghost predicate PhaseOk(s: Sys) {
    match s.phase
    case Idle => true
    case Downloaded(e, _, archive, _) => ArchiveOk(Now(s, e), archive)
    case Fetching(e, _, _, _, _, _, _, _, _) => FetchingOk(s.db, s.phase, Now(s, e))
  }

  ghost predicate Inv(s: Sys) {
    && StoreInv(s.db)
    && (forall e {:trigger UpstreamOk(s, e)} :: UpstreamOk(s, e))
    && PhaseOk(s)
  }

  // ---- Publishing ----

  lemma PublishIsNewer(now: Docs, doc: Advisory, w: Option<Stamp>)
    requires MayPublish(now, doc) && Reaches(now, w)
    ensures Reaches(now[doc.id := doc], w)
    ensures forall id :: Older(now[doc.id := doc], id, w) ==> id != doc.id && Older(now, id, w)
  {
    var after := now[doc.id := doc];
    if w.Some? {
      var id :| id in now && StampOf(now[id]) >= w.value;
      assert StampOf(doc) >= w.value;
      assert id in after && StampOf(after[id]) >= w.value;
    }
    forall id | Older(after, id, w)
      ensures id != doc.id && Older(now, id, w)
    {
      assert after[id] == if id == doc.id then doc else now[id];
    }
  }

  lemma PublishKeepsSnapshot(now: Docs, doc: Advisory, snapshot: Docs)
    requires MayPublish(now, doc) && SnapshotOk(now, snapshot)
    ensures SnapshotOk(now[doc.id := doc], snapshot)
  {
    var after := now[doc.id := doc];
    forall id | id in snapshot
      ensures Outdated(after, snapshot[id])
    {
      assert Outdated(now, snapshot[id]);
    }
  }

  lemma PublishKeepsHistory(history: seq<Docs>, now: Docs, doc: Advisory)
    requires MayPublish(now, doc) && HistoryOk(history, now) && Wellformed(now)
    ensures HistoryOk(history + [now[doc.id := doc]], now[doc.id := doc])
  {
    var after := now[doc.id := doc];
    var longer := history + [after];
    forall k | 0 <= k < |longer|
      ensures SnapshotOk(after, longer[k])
    {
      if k < |history| {
        assert longer[k] == history[k];
        PublishKeepsSnapshot(now, doc, history[k]);
      } else {
        forall id | id in after
          ensures Outdated(after, after[id])
        {
        }
      }
    }
  }

  lemma PublishKeepsStoreOk(db: Db, e: Ecosystem, now: Docs, doc: Advisory, stale: set<string>)
    requires MayPublish(now, doc) && StoreOk(db, e, now, stale)
    ensures StoreOk(db, e, now[doc.id := doc], stale - {doc.id})
  {
    PublishIsNewer(now, doc, Watermark(db, e));
  }

  lemma PublishKeepsArchive(now: Docs, doc: Advisory, archive: seq<Advisory>)
    requires MayPublish(now, doc) && ArchiveOk(now, archive)
    ensures ArchiveOk(now[doc.id := doc], archive)
  {
    forall a | a in archive
      ensures Outdated(now[doc.id := doc], a)
    {
      assert Outdated(now, a);
    }
  }

  lemma PublishKeepsFetching(db: Db, p: Phase, now: Docs, doc: Advisory)
    requires p.Fetching? && MayPublish(now, doc) && FetchingOk(db, p, now)
    ensures FetchingOk(db, Disturb(p, p.e, doc.id), now[doc.id := doc])
  {
    var q, after := Disturb(p, p.e, doc.id), now[doc.id := doc];
    PublishIsNewer(now, doc, p.watermark);
    if p.bootstrap {
      PublishKeepsArchive(now, doc, p.archive);
    }
    forall id
      ensures Covered(db, q, after, id)
    {
      assert Covered(db, p, now, id);
    }
  }

  lemma PublishHistory(s: Sys, e: Ecosystem, doc: Advisory, x: Ecosystem)
    requires MayPublish(Now(s, e), doc)
    ensures History(StepPublish(s, e, doc), x) == if x == e then History(s, e) + [Now(s, e)[doc.id := doc]] else History(s, x)
  {
    var longer := History(s, e) + [Now(s, e)[doc.id := doc]];
    assert longer != [] && StepPublish(s, e, doc).upstream == s.upstream[e := longer];
  }

  lemma PublishStale(s: Sys, e: Ecosystem, doc: Advisory, x: Ecosystem)
    requires MayPublish(Now(s, e), doc)
    ensures Stale(StepPublish(s, e, doc), x) == if x == e then Stale(s, e) - {doc.id} else Stale(s, x)
  {
    assert StepPublish(s, e, doc).stale == s.stale[e := Stale(s, e) - {doc.id}];
  }

  lemma PublishView(s: Sys, e: Ecosystem, doc: Advisory, x: Ecosystem)
    requires MayPublish(Now(s, e), doc)
    ensures Now(StepPublish(s, e, doc), x) == if x == e then Now(s, e)[doc.id := doc] else Now(s, x)
  {
    PublishHistory(s, e, doc, x);
    var longer := History(s, e) + [Now(s, e)[doc.id := doc]];
    assert longer[|longer| - 1] == Now(s, e)[doc.id := doc];
  }

  lemma PublishKeepsUpstream(s: Sys, e: Ecosystem, doc: Advisory, x: Ecosystem)
    requires UpstreamOk(s, x) && MayPublish(Now(s, e), doc)
    ensures UpstreamOk(StepPublish(s, e, doc), x)
  {
    var now := Now(s, e);
    PublishHistory(s, e, doc, x);
    PublishStale(s, e, doc, x);
    PublishView(s, e, doc, x);
    if x == e {
      assert SnapshotOk(now, History(s, e)[|History(s, e)| - 1]);
      PublishKeepsHistory(History(s, e), now, doc);
      PublishKeepsStoreOk(s.db, e, now, doc, Stale(s, e));
    }
  }

  lemma DisturbElsewhere(p: Phase, e: Ecosystem, id: string)
    requires !p.Idle? && p.e != e
    ensures Disturb(p, e, id) == p
  {
  }

  lemma PublishKeepsPhase(s: Sys, e: Ecosystem, doc: Advisory)
    requires PhaseOk(s) && MayPublish(Now(s, e), doc)
    ensures PhaseOk(StepPublish(s, e, doc))
  {
    var t := StepPublish(s, e, doc);
    if !s.phase.Idle? {
      PublishView(s, e, doc, s.phase.e);
      if s.phase.e != e {
        DisturbElsewhere(s.phase, e, doc.id);
        assert t.phase == s.phase && t.db == s.db;
      } else if s.phase.Downloaded? {
        PublishKeepsArchive(Now(s, e), doc, s.phase.archive);
      } else {
        PublishKeepsFetching(s.db, s.phase, Now(s, e), doc);
      }
    }
  }

  lemma PublishKeepsInvariant(s: Sys, e: Ecosystem, doc: Advisory)
    requires Inv(s)
    ensures Inv(StepPublish(s, e, doc))
  {
    if MayPublish(Now(s, e), doc) {
      forall x
        ensures UpstreamOk(StepPublish(s, e, doc), x)
      {
        assert UpstreamOk(s, x);
        PublishKeepsUpstream(s, e, doc, x);
      }
      PublishKeepsPhase(s, e, doc);
    }
  }

  // ---- Reading the archive and the listing ----

  lemma {:induction false} LastMentionSource(docs: Docs, list: seq<Advisory>, id: string)
    ensures match LastMention(docs, list, id)
      case Some(a) => (a in list && a.id == id) || (id in docs && docs[id] == a)
      case None => id !in docs && forall a :: a in list ==> a.id != id
  {
    if list != [] {
      LastMentionSource(docs, list[..|list| - 1], id);
    }
  }

  /** When every mention of an id is one document, that document is the last mention. */
  lemma {:induction false} LastMentionOfOne(docs: Docs, list: seq<Advisory>, id: string, doc: Advisory)
    requires forall a :: a in list && a.id == id ==> a == doc
    ensures LastMention(docs, list, id) ==
      if exists a :: a in list && a.id == id then Some(doc) else Lookup(docs, id)
  {
    if list != [] {
      LastMentionOfOne(docs, list[..|list| - 1], id, doc);
      if list[|list| - 1].id != id && exists a :: a in list && a.id == id {
        var a :| a in list && a.id == id;
        assert a in list[..|list| - 1];
      }
    }
  }

  lemma {:induction false} LastMentionConcat(docs: Docs, a: seq<Advisory>, b: seq<Advisory>, id: string)
    ensures LastMention(docs, a + b, id) ==
      if exists x :: x in b && x.id == id then LastMention(map[], b, id) else LastMention(docs, a, id)
  {
    if b == [] {
      assert a + b == a;
    } else {
      var front := b[..|b| - 1];
      assert (a + b)[..|a + b| - 1] == a + front;
      LastMentionConcat(docs, a, front, id);
      if b[|b| - 1].id != id && exists x :: x in b && x.id == id {
        var x :| x in b && x.id == id;
        assert x in front;
      }
    }
  }

  /** A listed document that is not fetched again keeps the archive's text, at the same timestamp. */
  lemma ArchiveCovers(now: Docs, archive: seq<Advisory>, rows: seq<Row>, id: string)
    requires ArchiveOk(now, archive) && Lists(rows, now) && id in now
    requires !Listed(Missing(rows, archive), id)
    ensures exists a :: a in archive && a.id == id && StampOf(a) == StampOf(now[id])
    ensures LastMention(map[], archive, id) == Some(now[id]) <==> id !in Disagreeing(archive, now)
  {
    var row := Row(StampOf(now[id]), id);
    assert row in rows && row !in Missing(rows, archive);
    var a :| a in archive && a.id == id && StampOf(a) == ArchiveStamp(archive, id).value;
    assert Outdated(now, a);
    LastMentionOfOne(map[], archive, id, a);
    if a != now[id] {
      assert Disagrees(now, a);
    }
  }

  lemma ArchiveEntryStands(archive: seq<Advisory>, a: Advisory)
    requires a in archive && forall b :: b in archive && b.id == a.id ==> b == a
    ensures ArchiveStamp(archive, a.id) == Some(StampOf(a))
  {
  }

  /** An archive entry at its document's present timestamp is not fetched again. */
  lemma PresentStampIsNotMissing(now: Docs, archive: seq<Advisory>, rows: seq<Row>, a: Advisory)
    requires ArchiveOk(now, archive) && Lists(rows, now)
    requires a in archive && a.id in now && StampOf(a) == StampOf(now[a.id])
    ensures !Listed(Missing(rows, archive), a.id)
  {
    ArchiveEntryStands(archive, a);
  }

  /** A step that touches neither store nor upstream keeps what relates them. */
  lemma UpstreamCarries(s: Sys, t: Sys)
    requires forall x {:trigger UpstreamOk(s, x)} :: UpstreamOk(s, x)
    requires t.db == s.db && t.upstream == s.upstream && t.stale == s.stale
    ensures forall x {:trigger UpstreamOk(t, x)} :: UpstreamOk(t, x)
  {
    forall x
      ensures UpstreamOk(t, x)
    {
      assert UpstreamOk(s, x);
    }
  }

  lemma BeginBootstrapKeepsInvariant(s: Sys, e: Ecosystem, at: Stamp, snapshot: nat, archive: seq<Advisory>)
    requires Inv(s)
    ensures Inv(Step(s, BeginBootstrap(e, at, snapshot, archive)))
  {
    var t := Step(s, BeginBootstrap(e, at, snapshot, archive));
    if t != s {
      assert UpstreamOk(s, e);
      assert SnapshotOk(Now(s, e), History(s, e)[snapshot]);
      forall a | a in archive
        ensures Outdated(Now(s, e), a)
      {
        assert Outdated(Now(s, e), History(s, e)[snapshot][a.id]);
      }
      UpstreamCarries(s, t);
    }
  }

  lemma NewestReaches(rows: seq<Row>, now: Docs)
    requires forall r :: r in rows ==> r.id in now && StampOf(now[r.id]) == r.modified
    ensures Reaches(now, Newest(rows))
  {
    var w := Newest(rows);
    if w.Some? {
      var r :| r in rows && r.modified == w.value;
      assert r.id in now;
    }
  }

  lemma ReadCsvCovers(s: Sys, rows: seq<Row>, id: string)
    requires s.phase.Downloaded? && PhaseOk(s) && Lists(rows, Now(s, s.phase.e))
    ensures Covered(s.db, StepReadCsv(s, rows).phase, Now(s, s.phase.e), id)
  {
    var now, archive := Now(s, s.phase.e), s.phase.archive;
    if id in Disagreeing(archive, now) {
      var a :| a in archive && Disagrees(now, a) && a.id == id;
      PresentStampIsNotMissing(now, archive, rows, a);
    }
    if id in now && !Listed(Missing(rows, archive), id) {
      ArchiveCovers(now, archive, rows, id);
    }
  }

  lemma ReadCsvStartsOk(s: Sys, rows: seq<Row>)
    requires s.phase.Downloaded? && PhaseOk(s) && Lists(rows, Now(s, s.phase.e))
    ensures PhaseOk(StepReadCsv(s, rows))
  {
    NewestReaches(rows, Now(s, s.phase.e));
    forall id
      ensures Covered(s.db, StepReadCsv(s, rows).phase, Now(s, s.phase.e), id)
    {
      ReadCsvCovers(s, rows, id);
    }
  }

  lemma ReadCsvKeepsInvariant(s: Sys, rows: seq<Row>)
    requires Inv(s) && s.phase.Downloaded?
    ensures Inv(StepReadCsv(s, rows))
  {
    if Lists(rows, Now(s, s.phase.e)) {
      ReadCsvStartsOk(s, rows);
      UpstreamCarries(s, StepReadCsv(s, rows));
    }
  }

  lemma IncrementalCovers(db: Db, e: Ecosystem, at: Stamp, rows: seq<Row>, now: Docs, stale: set<string>, id: string)
    requires MayIncrement(db, e) && Lists(rows, now) && OnlyStaleLost(db, e, now, stale)
    ensures Covered(db, IncrementalStart(db, e, at, rows, stale), now, id)
  {
    var todo := Recent(rows, Watermark(db, e));
    if id in now && !Listed(todo, id) {
      assert Row(StampOf(now[id]), id) in rows && Row(StampOf(now[id]), id) !in todo;
      assert Older(now, id, Watermark(db, e));
    }
    if Listed(todo, id) {
      var r :| r in todo && r.id == id;
      assert id in IdsOf(todo);
    }
  }

  lemma IncrementalStartsOk(db: Db, e: Ecosystem, at: Stamp, rows: seq<Row>, now: Docs, stale: set<string>)
    requires MayIncrement(db, e) && Lists(rows, now) && StoreOk(db, e, now, stale)
    ensures FetchingOk(db, IncrementalStart(db, e, at, rows, stale), now)
  {
    NewestReaches(Recent(rows, Watermark(db, e)), now);
    forall id
      ensures Covered(db, IncrementalStart(db, e, at, rows, stale), now, id)
    {
      IncrementalCovers(db, e, at, rows, now, stale, id);
    }
  }

  lemma BeginIncrementalStartsOk(s: Sys, e: Ecosystem, at: Stamp, rows: seq<Row>)
    requires s.phase.Idle? && MayIncrement(s.db, e) && Lists(rows, Now(s, e))
    requires StoreOk(s.db, e, Now(s, e), Stale(s, e))
    ensures PhaseOk(StepBeginIncremental(s, e, at, rows))
  {
    IncrementalStartsOk(s.db, e, at, rows, Now(s, e), Stale(s, e));
    assert Now(StepBeginIncremental(s, e, at, rows), e) == Now(s, e);
  }

  lemma BeginIncrementalKeepsInvariant(s: Sys, e: Ecosystem, at: Stamp, rows: seq<Row>)
    requires Inv(s)
    ensures Inv(StepBeginIncremental(s, e, at, rows))
  {
    if s.phase.Idle? && MayIncrement(s.db, e) && Lists(rows, Now(s, e)) {
      assert UpstreamOk(s, e);
      BeginIncrementalStartsOk(s, e, at, rows);
      UpstreamCarries(s, StepBeginIncremental(s, e, at, rows));
    }
  }

  lemma FetchStaysOk(db: Db, p: Phase, q: Phase, now: Docs)
    requires p.Fetching? && FetchingOk(db, p, now) && |p.fetched| < |p.todo|
    requires Wellformed(now) && p.todo[|p.fetched|].id in now
    requires q == p.(fetched := p.fetched + [now[p.todo[|p.fetched|].id]])
    ensures FetchingOk(db, q, now)
  {
    forall id
      ensures Covered(db, q, now, id)
    {
      assert Covered(db, p, now, id);
    }
  }

  lemma FetchKeepsInvariant(s: Sys)
    requires Inv(s) && s.phase.Fetching?
    ensures Inv(StepFetch(s))
  {
    var t, now := StepFetch(s), Now(s, s.phase.e);
    if t != s {
      assert UpstreamOk(s, s.phase.e);
      assert SnapshotOk(now, History(s, s.phase.e)[|History(s, s.phase.e)| - 1]);
      FetchStaysOk(s.db, s.phase, t.phase, now);
      UpstreamCarries(s, t);
    }
  }

  // ---- Committing ----

  /** The documents a completed fetch commits to. */
  lemma CommittedDocs(db: Db, p: Phase)
    requires StoreInv(db) && p.Fetching? && CommitResult(db, p).Ok?
    ensures var after := CommitResult(db, p).value;
      && StoreInv(after)
      && (forall x :: RevisionSound(db, after, x))
      && (forall x :: x != p.e ==> Untouched(db, after, x))
      && MayIncrement(after, p.e)
      && Watermark(after, p.e) == p.watermark
      && (!p.bootstrap ==> ActiveDocs(db, p.e).Some?)
      && forall id :: Lookup(ActiveDocs(after, p.e).value, id) ==
           if exists a :: a in p.fetched && a.id == id then LastMention(map[], p.fetched, id) else Base(db, p, id)
  {
    var after := CommitResult(db, p).value;
    if p.bootstrap {
      BootstrapKeepsStore(db, p.e, p.archive + p.fetched, p.at, p.watermark);
      ImportKeepsLastMention(p.e, map[], p.archive + p.fetched);
      forall id
        ensures Lookup(ActiveDocs(after, p.e).value, id) ==
          if exists a :: a in p.fetched && a.id == id then LastMention(map[], p.fetched, id) else Base(db, p, id)
      {
        LastMentionConcat(map[], p.archive, p.fetched, id);
      }
    } else {
      IncrementalKeepsStore(db, p.e, p.fetched, p.at, p.watermark);
      var docs := ActiveDocs(db, p.e).value;
      ImportKeepsLastMention(p.e, docs, p.fetched);
      assert [] + p.fetched == p.fetched;
      forall id
        ensures Lookup(ActiveDocs(after, p.e).value, id) ==
          if exists a :: a in p.fetched && a.id == id then LastMention(map[], p.fetched, id) else Base(db, p, id)
      {
        LastMentionConcat(docs, [], p.fetched, id);
      }
    }
  }

  /** What a commit does to a document that upstream holds: a pending one is left behind, a known one is stored as it is now. */
  lemma CoveredIsCommitted(db: Db, p: Phase, now: Docs, id: string)
    requires StoreInv(db) && p.Fetching? && CommitResult(db, p).Ok? && |p.fetched| == |p.todo|
    requires FetchingOk(db, p, now)
    requires id in p.pending || (id in now && (p.quiet || Older(now, id, p.watermark)))
    ensures id in now
    ensures Lookup(ActiveDocs(CommitResult(db, p).value, p.e).value, id) == Some(now[id]) <==> id !in p.pending
  {
    CommittedDocs(db, p);
    assert Covered(db, p, now, id);
    if Listed(p.todo, id) {
      LastMentionOfOne(map[], p.fetched, id, now[id]);
      var i :| 0 <= i < |p.todo| && p.todo[i].id == id;
      assert p.fetched[i] in p.fetched && p.fetched[i].id == id;
    } else {
      assert forall i :: 0 <= i < |p.fetched| ==> p.fetched[i].id == p.todo[i].id && p.todo[i] in p.todo;
    }
  }

  lemma CommitStoreOk(db: Db, p: Phase, now: Docs, stale: set<string>)
    requires StoreInv(db) && p.Fetching? && CommitResult(db, p).Ok? && |p.fetched| == |p.todo|
    requires FetchingOk(db, p, now) && StoreOk(db, p.e, now, stale)
    ensures StoreOk(CommitResult(db, p).value, p.e, now, p.pending)
  {
    CommittedDocs(db, p);
    var after := CommitResult(db, p).value;
    forall id | id in ActiveDocs(after, p.e).value
      ensures id in now
    {
      LastMentionSource(map[], p.fetched, id);
      if p.bootstrap {
        LastMentionSource(map[], p.archive, id);
        assert forall a :: a in p.archive ==> Outdated(now, a);
      }
    }
    forall id | id in p.pending || Older(now, id, p.watermark)
      ensures id in now
      ensures Lookup(ActiveDocs(after, p.e).value, id) == Some(now[id]) <==> id !in p.pending
    {
      CoveredIsCommitted(db, p, now, id);
    }
  }

  lemma FailureKeepsInvariant(s: Sys, e: Ecosystem, at: Stamp)
    requires Inv(s)
    ensures Inv(s.(db := RecordFailure(s.db, e, at), phase := Idle))
  {
    FailureKeepsStore(s.db, e, at);
    assert Settled(s.db, e);
    var t := s.(db := RecordFailure(s.db, e, at), phase := Idle);
    forall x
      ensures UpstreamOk(t, x)
    {
      assert UpstreamOk(s, x);
    }
  }

  lemma CommitLeavesOthers(db: Db, p: Phase, x: Ecosystem, now: Docs, stale: set<string>)
    requires StoreInv(db) && p.Fetching? && CommitResult(db, p).Ok? && x != p.e && StoreOk(db, x, now, stale)
    ensures StoreOk(CommitResult(db, p).value, x, now, stale)
  {
    assert Untouched(db, CommitResult(db, p).value, x) by {
      CommittedDocs(db, p);
    }
  }

  lemma CommitView(s: Sys, x: Ecosystem)
    requires s.phase.Fetching? && |s.phase.fetched| == |s.phase.todo| && CommitResult(s.db, s.phase).Ok?
    ensures var t := StepCommit(s);
      && t.db == CommitResult(s.db, s.phase).value
      && History(t, x) == History(s, x)
      && Stale(t, x) == if x == s.phase.e then s.phase.pending else Stale(s, x)
  {
  }

  lemma CommitKeepsUpstream(s: Sys, x: Ecosystem)
    requires StoreInv(s.db) && UpstreamOk(s, x)
    requires s.phase.Fetching? && FetchingOk(s.db, s.phase, Now(s, s.phase.e))
    requires |s.phase.fetched| == |s.phase.todo| && CommitResult(s.db, s.phase).Ok?
    ensures UpstreamOk(StepCommit(s), x)
  {
    CommitView(s, x);
    if x == s.phase.e {
      CommitStoreOk(s.db, s.phase, Now(s, x), Stale(s, x));
    } else {
      CommitLeavesOthers(s.db, s.phase, x, Now(s, x), Stale(s, x));
    }
  }

  lemma CommitKeepsInvariant(s: Sys)
    requires Inv(s) && s.phase.Fetching?
    ensures Inv(StepCommit(s))
  {
    var p := s.phase;
    if |p.fetched| == |p.todo| {
      if CommitResult(s.db, p).Ok? {
        CommittedDocs(s.db, p);
        forall x
          ensures UpstreamOk(StepCommit(s), x)
        {
          assert UpstreamOk(s, x);
          CommitKeepsUpstream(s, x);
        }
      } else {
        FailureKeepsInvariant(s, p.e, p.at);
      }
    }
  }

  lemma StepKeepsInvariant(s: Sys, a: Action)
    requires Inv(s)
    ensures Inv(Step(s, a))
  {
    match a
    case Publish(e, doc) => PublishKeepsInvariant(s, e, doc);
    case BeginBootstrap(e, at, snapshot, archive) => BeginBootstrapKeepsInvariant(s, e, at, snapshot, archive);
    case ReadCsv(rows) => if s.phase.Downloaded? { ReadCsvKeepsInvariant(s, rows); }
    case BeginIncremental(e, at, rows) => BeginIncrementalKeepsInvariant(s, e, at, rows);
    case FetchNext => if s.phase.Fetching? { FetchKeepsInvariant(s); }
    case CommitSync => if s.phase.Fetching? { CommitKeepsInvariant(s); }
    case FailSync => if !s.phase.Idle? { FailureKeepsInvariant(s, s.phase.e, s.phase.at); }
    case Crash =>
      UpstreamCarries(s, s.(phase := Idle));
  }

  lemma {:induction false} RunKeepsInvariant(actions: seq<Action>)
    ensures Inv(Run(actions))
  {
    if actions == [] {
      forall e
        ensures UpstreamOk(INITIAL, e) && Settled(INITIAL.db, e)
      {
        assert SnapshotOk(map[], History(INITIAL, e)[0]);
        forall i: nat
          ensures Pointed(INITIAL.db, e, i)
        {
        }
      }
    } else {
      RunKeepsInvariant(actions[..|actions| - 1]);
      StepKeepsInvariant(Run(actions[..|actions| - 1]), actions[|actions| - 1]);
    }
  }

  // ---- What every run guarantees ----

  /**
   Exactly which updates are lost: after any run of bootstraps, incremental syncs,
   failures and crashes racing with upstream edits, an advisory older than the
   watermark is stored exactly as upstream now has it if and only if it is not
   stale, every stale one is stored at another text or not at all, the store holds
   nothing upstream never had, and every committed state is well-formed.
   */
  lemma NoLostUpdates(actions: seq<Action>, e: Ecosystem)
    ensures var s := Run(actions);
      && StoreInv(s.db)
      && (ActiveDocs(s.db, e).Some? ==> forall id :: id in ActiveDocs(s.db, e).value ==> id in Now(s, e))
      && (ActiveDocs(s.db, e).Some? ==>
            forall id :: Older(Now(s, e), id, Watermark(s.db, e)) ==>
              (Lookup(ActiveDocs(s.db, e).value, id) == Some(Now(s, e)[id]) <==> id !in Stale(s, e)))
      && (forall id :: id in Stale(s, e) ==>
            && id in Now(s, e) && ActiveDocs(s.db, e).Some?
            && Lookup(ActiveDocs(s.db, e).value, id) != Some(Now(s, e)[id]))
  {
    RunKeepsInvariant(actions);
    assert UpstreamOk(Run(actions), e);
  }

  /** Everything is fetched, the commit will succeed, and upstream has been quiet since the sync began. */
  predicate ReadyAndQuiet(s: Sys) {
    && s.phase.Fetching? && s.phase.quiet && |s.phase.fetched| == |s.phase.todo|
    && CommitResult(s.db, s.phase).Ok?
  }

  lemma LookupDetermines(a: Docs, b: Docs)
    requires forall id :: Lookup(a, id) == Lookup(b, id)
    ensures a == b
  {
    forall id
      ensures id in a <==> id in b
      ensures id in a ==> a[id] == b[id]
    {
      assert Lookup(a, id) == Lookup(b, id);
    }
  }

  lemma QuietCommit(db: Db, p: Phase, now: Docs, stale: set<string>)
    requires StoreInv(db) && p.Fetching? && CommitResult(db, p).Ok? && |p.fetched| == |p.todo| && p.quiet
    requires FetchingOk(db, p, now) && StoreOk(db, p.e, now, stale)
    ensures ActiveDocs(CommitResult(db, p).value, p.e).Some?
    ensures var docs := ActiveDocs(CommitResult(db, p).value, p.e).value;
      && (forall id :: Lookup(docs, id) == Lookup(now, id) <==> id !in p.pending)
      && (docs == now <==> p.pending == {})
  {
    CommittedDocs(db, p);
    CommitStoreOk(db, p, now, stale);
    var docs := ActiveDocs(CommitResult(db, p).value, p.e).value;
    forall id
      ensures Lookup(docs, id) == Lookup(now, id) <==> id !in p.pending
    {
      if id in now || id in p.pending {
        CoveredIsCommitted(db, p, now, id);
      }
    }
    if p.pending == {} {
      LookupDetermines(docs, now);
    } else {
      var id :| id in p.pending;
      assert Lookup(docs, id) != Lookup(now, id);
    }
  }

  /**
   One successful sync against a quiet upstream leaves every document as upstream
   has it but the stale ones, so store and upstream are equal exactly when none is.
   */
  lemma QuietSyncCatchesUp(actions: seq<Action>)
    requires ReadyAndQuiet(Run(actions))
    ensures var s, e := Run(actions), Run(actions).phase.e;
      var t := Step(s, CommitSync);
      && ActiveDocs(t.db, e).Some?
      && (forall id :: Lookup(ActiveDocs(t.db, e).value, id) == Lookup(Now(t, e), id) <==> id !in Stale(t, e))
      && (ActiveDocs(t.db, e) == Some(Now(t, e)) <==> Stale(t, e) == {})
  {
    RunKeepsInvariant(actions);
    var s := Run(actions);
    assert UpstreamOk(s, s.phase.e);
    CommitView(s, s.phase.e);
    QuietCommit(s.db, s.phase, Now(s, s.phase.e), Stale(s, s.phase.e));
  }

  lemma CommitIsRevisionSound(s: Sys, e: Ecosystem)
    requires Inv(s) && s.phase.Fetching?
    ensures RevisionSound(s.db, StepCommit(s).db, e)
  {
    FailureKeepsStore(s.db, s.phase.e, s.phase.at);
    if |s.phase.fetched| == |s.phase.todo| && CommitResult(s.db, s.phase).Ok? {
      CommittedDocs(s.db, s.phase);
    }
  }

  lemma StepIsRevisionSound(s: Sys, a: Action, e: Ecosystem)
    requires Inv(s)
    ensures RevisionSound(s.db, Step(s, a).db, e)
  {
    if a.CommitSync? && s.phase.Fetching? {
      CommitIsRevisionSound(s, e);
    } else if a.FailSync? && !s.phase.Idle? {
      FailureKeepsStore(s.db, s.phase.e, s.phase.at);
    }
  }

  lemma LastStepIsRevisionSound(actions: seq<Action>, e: Ecosystem)
    requires actions != []
    ensures RevisionSound(Run(actions[..|actions| - 1]).db, Run(actions).db, e)
  {
    var front := actions[..|actions| - 1];
    RunKeepsInvariant(front);
    StepIsRevisionSound(Run(front), actions[|actions| - 1], e);
  }

  lemma RevisionSoundIsTransitive(a: Db, b: Db, c: Db, e: Ecosystem)
    requires RevisionSound(a, b, e) && RevisionSound(b, c, e)
    ensures RevisionSound(a, c, e)
  {
  }

  /** Along any run an ecosystem's revision never drops, and equal revisions mean equal documents. */
  lemma {:induction false} RevisionIsSound(before: seq<Action>, after: seq<Action>, e: Ecosystem)
    ensures RevisionSound(Run(before).db, Run(before + after).db, e)
  {
    if after == [] {
      assert before + after == before;
    } else {
      var actions, rest := before + after, after[..|after| - 1];
      assert actions[..|actions| - 1] == before + rest;
      RevisionIsSound(before, rest, e);
      LastStepIsRevisionSound(actions, e);
      RevisionSoundIsTransitive(Run(before).db, Run(before + rest).db, Run(actions).db, e);
    }
  }
}
