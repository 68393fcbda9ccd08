/**
 The local OSV store: dataset generations and one sync_state row per ecosystem.
 A transaction commits as one step or changes nothing.
 */
module OsvStore {
  import opened Prelude

  /** Instants; MIN_UTC stands in for a missing timestamp. */
  type Stamp = nat
  const MIN_UTC: Stamp := 0

  /** A severity entry; the score is absent when the vector is malformed for its type. */
  datatype Severity = Severity(kind: string, vector: string, score: Option<nat>)

  /** An affected range; each event is the list of its keys and values. */
  datatype RangeSpec = RangeSpec(rangeType: string, events: seq<seq<(string, string)>>)

  datatype Affected = Affected(
    ecosystem: string, name: string, severity: seq<Severity>, versions: seq<string>, ranges: seq<RangeSpec>)

  /**
   An advisory document.  The raw text that may be retained beside it is not
   part of its fingerprint and not modelled.
   */
  datatype Advisory = Advisory(
    id: string, summary: Option<string>, modified: Option<Stamp>, published: Option<Stamp>,
    withdrawn: Option<Stamp>, severity: seq<Severity>, affected: seq<Affected>)

  type Docs = map<string, Advisory>

  datatype GenerationStatus = Staging | Active | Superseded

  datatype Generation = Generation(
    ecosystem: Ecosystem, datasetVersion: nat, status: GenerationStatus, highWatermark: Option<Stamp>, docs: Docs)

  datatype Health = Healthy | Failed

  datatype SyncRow = SyncRow(
    highWatermark: Option<Stamp>, lastSuccessAt: Option<Stamp>, lastAttemptedAt: Stamp, status: Health,
    activeGeneration: Option<nat>, contentRevision: nat)

  /** Generation ids are positions; sync_state is keyed by ecosystem. */
  datatype Db = Db(generations: seq<Generation>, sync: map<Ecosystem, SyncRow>)

  datatype ImportStats = ImportStats(imported: nat, withdrawn: nat, contentChanged: bool)

  datatype SyncError = MalformedRangeEvent | NoActiveGeneration

  function OsvName(e: Ecosystem): string {
    match e
    case Npm => "npm"
    case Pypi => "PyPI"
    case Go => "Go"
    case CratesIo => "crates.io"
    case Nuget => "NuGet"
    case RubyGems => "RubyGems"
    case Maven => "Maven"
  }

  /** Every range event of the ecosystem's own entries has exactly one key; withdrawn advisories are not read. */
  predicate Importable(e: Ecosystem, a: Advisory) {
    a.withdrawn.Some? ||
    forall p :: p in a.affected && p.ecosystem == OsvName(e) ==>
      forall g :: g in p.ranges ==> forall event :: event in g.events ==> |event| == 1
  }

  type Progress = Result<(Docs, ImportStats), SyncError>

  /** Import one advisory unless an earlier one failed; an unchanged document is skipped. */
  function ImportOne(e: Ecosystem, progress: Progress, a: Advisory): Progress {
    match progress
    case Err(error) => Err(error)
    case Ok((docs, stats)) =>
      if a.id in docs && docs[a.id] == a then Ok((docs, stats))
      else if !Importable(e, a) then Err(MalformedRangeEvent)
      else Ok((docs[a.id := a],
        ImportStats(stats.imported + if a.withdrawn.Some? then 0 else 1,
                    stats.withdrawn + if a.withdrawn.Some? then 1 else 0, true)))
  }

  function ImportFrom(e: Ecosystem, start: Progress, list: seq<Advisory>): Progress {
    if list == [] then start
    else ImportOne(e, ImportFrom(e, start, list[..|list| - 1]), list[|list| - 1])
  }

  /** Import advisories one after the other, stopping at the first malformed one. */
  function Import(e: Ecosystem, docs: Docs, list: seq<Advisory>): Progress {
    ImportFrom(e, Ok((docs, ImportStats(0, 0, false))), list)
  }

  /** The document an id ends up with after importing a list: its last mention wins. */
  function LastMention(docs: Docs, list: seq<Advisory>, id: string): Option<Advisory> {
    if list == [] then (if id in docs then Some(docs[id]) else None)
    else if list[|list| - 1].id == id then Some(list[|list| - 1])
    else LastMention(docs, list[..|list| - 1], id)
  }

  function Lookup(docs: Docs, id: string): Option<Advisory> {
    if id in docs then Some(docs[id]) else None
  }

  lemma {:induction false} ImportKeepsLastMention(e: Ecosystem, docs: Docs, list: seq<Advisory>)
    requires Import(e, docs, list).Ok?
    ensures forall id :: Lookup(Import(e, docs, list).value.0, id) == LastMention(docs, list, id)
    ensures !Import(e, docs, list).value.1.contentChanged ==> Import(e, docs, list).value.0 == docs
  {
    if list != [] {
      ImportKeepsLastMention(e, docs, list[..|list| - 1]);
    }
  }

  /** Withdrawn, or readable: each event of the ecosystem's own entries has one key and its value. */
  ghost predicate OneKeyed(e: Ecosystem, a: Advisory) {
    a.withdrawn.None? ==>
      forall p, g, event :: p in a.affected && p.ecosystem == OsvName(e) && g in p.ranges && event in g.events ==>
        |event| == 1
  }

  lemma ImportableExactly(e: Ecosystem, a: Advisory)
    ensures Importable(e, a) <==> OneKeyed(e, a)
  {
    if a.withdrawn.None? && Importable(e, a) {
      forall p, g, event | p in a.affected && p.ecosystem == OsvName(e) && g in p.ranges && event in g.events
        ensures |event| == 1
      {
      }
    }
  }

  /** The document at this place of a list is new to the store as it is then, and cannot be read. */
  ghost predicate FailsAt(e: Ecosystem, docs: Docs, list: seq<Advisory>, i: nat) {
    i < |list| && LastMention(docs, list[..i], list[i].id) != Some(list[i]) && !Importable(e, list[i])
  }

  lemma FailsInFront(e: Ecosystem, docs: Docs, list: seq<Advisory>, i: nat)
    requires i < |list| - 1
    ensures FailsAt(e, docs, list, i) <==> FailsAt(e, docs, list[..|list| - 1], i)
  {
    assert list[..|list| - 1][..i] == list[..i];
  }

  lemma FailsLast(e: Ecosystem, docs: Docs, list: seq<Advisory>)
    requires list != [] && Import(e, docs, list[..|list| - 1]).Ok?
    ensures Import(e, docs, list).Err? <==> FailsAt(e, docs, list, |list| - 1)
  {
    ImportKeepsLastMention(e, docs, list[..|list| - 1]);
    var now, last := Import(e, docs, list[..|list| - 1]).value.0, list[|list| - 1];
    assert Lookup(now, last.id) == LastMention(docs, list[..|list| - 1], last.id);
  }

  /** An import fails exactly when it comes to a document that is not stored as it is and cannot be read. */
  lemma {:induction false} ImportFailsExactly(e: Ecosystem, docs: Docs, list: seq<Advisory>)
    ensures Import(e, docs, list).Err? <==> exists i: nat :: FailsAt(e, docs, list, i)
  {
    if list != [] {
      var n := |list| - 1;
      ImportFailsExactly(e, docs, list[..n]);
      if i: nat :| FailsAt(e, docs, list[..n], i) {
        FailsInFront(e, docs, list, i);
      } else {
        FailsLast(e, docs, list);
        forall i: nat | i < n
          ensures !FailsAt(e, docs, list, i)
        {
          FailsInFront(e, docs, list, i);
        }
      }
    }
  }

  /** How many documents of a list are new to the store as it is then, by whether they are withdrawn. */
  function CountNew(docs: Docs, list: seq<Advisory>, withdrawn: bool): nat {
    if list == [] then 0
    else
      var front, last := list[..|list| - 1], list[|list| - 1];
      CountNew(docs, front, withdrawn)
      + if LastMention(docs, front, last.id) != Some(last) && last.withdrawn.Some? == withdrawn then 1 else 0
  }

  /** An import counts what it brings: withdrawn documents apart, unchanged ones not at all. */
  lemma {:induction false} ImportCounts(e: Ecosystem, docs: Docs, list: seq<Advisory>)
    requires Import(e, docs, list).Ok?
    ensures Import(e, docs, list).value.1.imported == CountNew(docs, list, false)
    ensures Import(e, docs, list).value.1.withdrawn == CountNew(docs, list, true)
  {
    if list != [] {
      ImportCounts(e, docs, list[..|list| - 1]);
      ImportKeepsLastMention(e, docs, list[..|list| - 1]);
    }
  }

  /** Every document stands under its own id and can be read. */
  ghost predicate DocsOk(e: Ecosystem, docs: Docs) {
    forall id :: id in docs ==> docs[id].id == id && Importable(e, docs[id])
  }

  lemma {:induction false} ImportKeepsDocsOk(e: Ecosystem, docs: Docs, list: seq<Advisory>)
    requires DocsOk(e, docs) && Import(e, docs, list).Ok?
    ensures DocsOk(e, Import(e, docs, list).value.0)
  {
    if list != [] {
      ImportKeepsDocsOk(e, docs, list[..|list| - 1]);
    }
  }

  /** An import changes content exactly when it brings a document that is not stored as it is. */
  lemma {:induction false} ChangedExactly(e: Ecosystem, docs: Docs, list: seq<Advisory>)
    requires Import(e, docs, list).Ok?
    ensures Import(e, docs, list).value.1.contentChanged <==> exists a :: a in list && Lookup(docs, a.id) != Some(a)
  {
    if list != [] {
      var front, last := list[..|list| - 1], list[|list| - 1];
      ChangedExactly(e, docs, front);
      ImportKeepsLastMention(e, docs, front);
      assert list == front + [last];
    }
  }

  lemma {:induction false} ImportFromConcat(e: Ecosystem, start: Progress, a: seq<Advisory>, b: seq<Advisory>)
    ensures ImportFrom(e, start, a + b) == ImportFrom(e, ImportFrom(e, start, a), b)
  {
    if b == [] {
      assert a + b == a;
    } else {
      ImportFromConcat(e, start, a, b[..|b| - 1]);
      assert (a + b)[..|a + b| - 1] == a + b[..|b| - 1];
    }
  }

  lemma ImportFromSnoc(e: Ecosystem, start: Progress, list: seq<Advisory>, i: nat)
    requires i < |list|
    ensures ImportFrom(e, start, list[..i + 1]) == ImportOne(e, ImportFrom(e, start, list[..i]), list[i])
  {
    assert list[..i + 1][..i] == list[..i];
  }

  lemma ImportStaysFailed(e: Ecosystem, start: Progress, list: seq<Advisory>, i: nat)
    requires i <= |list| && ImportFrom(e, start, list[..i]).Err?
    ensures ImportFrom(e, start, list) == ImportFrom(e, start, list[..i])
  {
    ImportFromConcat(e, start, list[..i], list[i..]);
    ErrorsStay(e, ImportFrom(e, start, list[..i]).error, list[i..]);
    assert list[..i] + list[i..] == list;
  }

  lemma {:induction false} ErrorsStay(e: Ecosystem, error: SyncError, list: seq<Advisory>)
    ensures ImportFrom(e, Err(error), list) == Err(error)
  {
    if list != [] {
      ErrorsStay(e, error, list[..|list| - 1]);
    }
  }

  function Plus(a: ImportStats, b: ImportStats): ImportStats {
    ImportStats(a.imported + b.imported, a.withdrawn + b.withdrawn, a.contentChanged || b.contentChanged)
  }

  /** Earlier counts only add to later ones. */
  lemma {:induction false} CountsAdd(e: Ecosystem, docs: Docs, stats: ImportStats, list: seq<Advisory>)
    ensures match Import(e, docs, list)
      case Err(error) => ImportFrom(e, Ok((docs, stats)), list) == Err(error)
      case Ok((done, more)) => ImportFrom(e, Ok((docs, stats)), list) == Ok((done, Plus(stats, more)))
  {
    if list != [] {
      CountsAdd(e, docs, stats, list[..|list| - 1]);
    }
  }

  /** Importing two lists in turn is importing their concatenation. */
  lemma ImportInTwo(e: Ecosystem, docs: Docs, a: seq<Advisory>, b: seq<Advisory>)
    ensures Import(e, docs, a + b) ==
      match Import(e, docs, a)
      case Err(error) => Err(error)
      case Ok((first, stats)) =>
        match Import(e, first, b)
        case Err(error) => Err(error)
        case Ok((second, more)) => Ok((second, Plus(stats, more)))
  {
    ImportFromConcat(e, Ok((docs, ImportStats(0, 0, false))), a, b);
    match Import(e, docs, a)
    case Err(error) => ErrorsStay(e, error, b);
    case Ok((first, stats)) => CountsAdd(e, first, stats, b);
  }

  function Supersede(g: Generation, e: Ecosystem): Generation {
    if g.ecosystem == e && g.status.Active? then g.(status := Superseded) else g
  }

  function SupersedeAll(gs: seq<Generation>, e: Ecosystem): (r: seq<Generation>)
    ensures |r| == |gs|
    ensures forall i :: 0 <= i < |gs| ==> r[i] == Supersede(gs[i], e)
  {
    if gs == [] then [] else SupersedeAll(gs[..|gs| - 1], e) + [Supersede(gs[|gs| - 1], e)]
  }

  /** The sync_state upsert that every successful import ends with. */
  function RecordSuccess(db: Db, e: Ecosystem, at: Stamp, watermark: Option<Stamp>, generation: nat, changed: bool): Db {
    var previous := if e in db.sync then db.sync[e].contentRevision else 0;
    db.(sync := db.sync[e := SyncRow(
      watermark, Some(at), at, Healthy, Some(generation), previous + if changed then 1 else 0)])
  }

  /** Make these documents the ecosystem's new and only active generation. */
  function SwapIn(db: Db, e: Ecosystem, docs: Docs, at: Stamp, watermark: Option<Stamp>): Db {
    var generations := SupersedeAll(db.generations, e) + [Generation(e, 1, Active, watermark, docs)];
    RecordSuccess(db.(generations := generations), e, at, watermark, |db.generations|, true)
  }

  /** Build a fresh generation and swap it in. */
  function Bootstrap(db: Db, e: Ecosystem, list: seq<Advisory>, at: Stamp, watermark: Option<Stamp>): Result<Db, SyncError> {
    match Import(e, map[], list)
    case Err(error) => Err(error)
    case Ok((docs, _)) => Ok(SwapIn(db, e, docs, at, watermark))
  }

  function ActiveGeneration(db: Db, e: Ecosystem): Option<nat> {
    if e in db.sync && db.sync[e].activeGeneration.Some? && db.sync[e].activeGeneration.value < |db.generations|
    then db.sync[e].activeGeneration else None
  }

  /** The documents that every query of this ecosystem reads. */
  function ActiveDocs(db: Db, e: Ecosystem): Option<Docs> {
    match ActiveGeneration(db, e)
    case None => None
    case Some(g) => Some(db.generations[g].docs)
  }

  function ContentRevision(db: Db, e: Ecosystem): nat {
    if e in db.sync then db.sync[e].contentRevision else 0
  }

  /** Replace the documents of an existing generation. */
  function Rewrite(db: Db, e: Ecosystem, g: nat, docs: Docs, at: Stamp, watermark: Option<Stamp>, changed: bool): Db
    requires g < |db.generations|
  {
    var generations := db.generations[g := db.generations[g].(docs := docs, highWatermark := watermark)];
    RecordSuccess(db.(generations := generations), e, at, watermark, g, changed)
  }

  /** Import changes into the active generation. */
  function Incremental(db: Db, e: Ecosystem, list: seq<Advisory>, at: Stamp, watermark: Option<Stamp>): Result<Db, SyncError> {
    match ActiveGeneration(db, e)
    case None => Err(NoActiveGeneration)
    case Some(g) =>
      match Import(e, db.generations[g].docs, list)
      case Err(error) => Err(error)
      case Ok((docs, stats)) => Ok(Rewrite(db, e, g, docs, at, watermark, stats.contentChanged))
  }

  /** What sync_state joined with its active generation says, if anything. */
  function ActiveState(db: Db, e: Ecosystem): Option<SyncRow> {
    match ActiveGeneration(db, e)
    case Some(g) =>
      if db.generations[g].ecosystem == e && db.generations[g].status.Active? then Some(db.sync[e]) else None
    case None => None
  }

  /** A failed attempt updates the attempt time and the status and nothing else. */
  function RecordFailure(db: Db, e: Ecosystem, at: Stamp): Db {
    var existing := ActiveState(db, e);
    var status := if existing.Some? && existing.value.lastSuccessAt.Some? then Healthy else Failed;
    db.(sync := db.sync[e :=
      if e in db.sync then db.sync[e].(lastAttemptedAt := at, status := status)
      else SyncRow(None, None, at, status, None, 0)])
  }

  /** How old the last success may be, what happens then, and whether the whole dataset is needed. */
  datatype HealthRules = HealthRules(maxStaleness: nat, blockStale: bool, requireFull: bool)

  /** Whether an ecosystem's data may be used at all. */
  predicate StoreHealthy(rules: HealthRules, db: Db, e: Ecosystem, now: Stamp) {
    var state := ActiveState(db, e);
    && state.Some?
    && state.value.status.Healthy?
    && (rules.requireFull ==> db.generations[db.sync[e].activeGeneration.value].datasetVersion == 1)
    && state.value.lastSuccessAt.Some?
    && state.value.lastSuccessAt.value <= now
    && (rules.blockStale ==> now - state.value.lastSuccessAt.value <= rules.maxStaleness)
  }

  /** Whether the next sync of this ecosystem may be incremental. */
  predicate MayIncrement(db: Db, e: Ecosystem) {
    var state := ActiveState(db, e);
    state.Some? && state.value.lastSuccessAt.Some?
    && db.generations[db.sync[e].activeGeneration.value].datasetVersion == 1
  }

  // ---- Invariants of every committed state ----

  /** A generation that is active is the one its ecosystem's pointer names. */
  ghost predicate Pointed(db: Db, e: Ecosystem, i: nat) {
    i < |db.generations| && db.generations[i].ecosystem == e && db.generations[i].status.Active? ==>
      e in db.sync && db.sync[e].activeGeneration == Some(i)
  }

  /** One generation at most is active, and a pointer left by a success names exactly that one. */
  ghost predicate Settled(db: Db, e: Ecosystem) {
    && (forall i {:trigger Pointed(db, e, i)} :: Pointed(db, e, i))
    && (e in db.sync && db.sync[e].activeGeneration.Some? ==>
          && db.sync[e].activeGeneration.value < |db.generations|
          && db.sync[e].lastSuccessAt.Some?
          && var g := db.generations[db.sync[e].activeGeneration.value];
          && g.ecosystem == e && g.status.Active? && g.datasetVersion == 1
          && g.highWatermark == db.sync[e].highWatermark)
    && (e in db.sync && db.sync[e].activeGeneration.None? ==>
          db.sync[e].lastSuccessAt.None? && db.sync[e].highWatermark.None? && db.sync[e].contentRevision == 0)
    && (e in db.sync ==> (db.sync[e].status.Healthy? <==> db.sync[e].lastSuccessAt.Some?))
  }

  /** Every document of this generation stands under its own id and can be read. */
  ghost predicate Stored(db: Db, i: nat) {
    i < |db.generations| ==> DocsOk(db.generations[i].ecosystem, db.generations[i].docs)
  }

  ghost predicate StoreInv(db: Db) {
    && (forall i :: 0 <= i < |db.generations| ==> !db.generations[i].status.Staging?)
    && (forall e {:trigger Settled(db, e)} :: Settled(db, e))
    && (forall i: nat {:trigger Stored(db, i)} :: Stored(db, i))
  }

  /**
   What one committed step may do to an ecosystem: its revision never drops, and
   while its revision stays its documents stay.
   */
  predicate RevisionSound(before: Db, after: Db, e: Ecosystem) {
    && ContentRevision(before, e) <= ContentRevision(after, e)
    && (ContentRevision(before, e) == ContentRevision(after, e) ==> ActiveDocs(before, e) == ActiveDocs(after, e))
  }

  /** A step leaves another ecosystem's row and documents alone. */
  predicate Untouched(before: Db, after: Db, e: Ecosystem) {
    && ActiveDocs(after, e) == ActiveDocs(before, e)
    && (e in after.sync <==> e in before.sync)
    && (e in before.sync ==> after.sync[e] == before.sync[e])
  }

  lemma SwapInPoints(db: Db, e: Ecosystem, docs: Docs, at: Stamp, watermark: Option<Stamp>, x: Ecosystem, i: nat)
    requires Pointed(db, x, i)
    ensures Pointed(SwapIn(db, e, docs, at, watermark), x, i)
  {
  }

  lemma SwapInDocs(db: Db, e: Ecosystem, docs: Docs, at: Stamp, watermark: Option<Stamp>, x: Ecosystem)
    requires Settled(db, x)
    ensures ActiveDocs(SwapIn(db, e, docs, at, watermark), x) == if x == e then Some(docs) else ActiveDocs(db, x)
  {
  }

  lemma SwapInSettles(db: Db, e: Ecosystem, docs: Docs, at: Stamp, watermark: Option<Stamp>, x: Ecosystem)
    requires Settled(db, x)
    ensures Settled(SwapIn(db, e, docs, at, watermark), x)
  {
    forall i: nat
      ensures Pointed(SwapIn(db, e, docs, at, watermark), x, i)
    {
      assert Pointed(db, x, i);
      SwapInPoints(db, e, docs, at, watermark, x, i);
    }
  }

  lemma SwapInStores(db: Db, e: Ecosystem, docs: Docs, at: Stamp, watermark: Option<Stamp>)
    requires StoreInv(db) && DocsOk(e, docs)
    ensures forall i: nat :: Stored(SwapIn(db, e, docs, at, watermark), i)
  {
    forall i: nat
      ensures Stored(SwapIn(db, e, docs, at, watermark), i)
    {
      assert Stored(db, i);
    }
  }

  lemma SwapInEffect(db: Db, e: Ecosystem, docs: Docs, at: Stamp, watermark: Option<Stamp>, x: Ecosystem)
    requires StoreInv(db)
    ensures var after := SwapIn(db, e, docs, at, watermark);
      Settled(after, x) && RevisionSound(db, after, x) && (x != e ==> Untouched(db, after, x))
  {
    assert Settled(db, x);
    SwapInSettles(db, e, docs, at, watermark, x);
    SwapInDocs(db, e, docs, at, watermark, x);
  }

  lemma BootstrapKeepsStore(db: Db, e: Ecosystem, list: seq<Advisory>, at: Stamp, watermark: Option<Stamp>)
    requires StoreInv(db) && Bootstrap(db, e, list, at, watermark).Ok?
    ensures var after := Bootstrap(db, e, list, at, watermark).value;
      && StoreInv(after)
      && (forall x :: RevisionSound(db, after, x))
      && (forall x :: x != e ==> Untouched(db, after, x))
      && MayIncrement(after, e)
      && ContentRevision(after, e) == ContentRevision(db, e) + 1
      && ActiveDocs(after, e) == Some(Import(e, map[], list).value.0)
      && after.sync[e].highWatermark == watermark && after.sync[e].lastSuccessAt == Some(at)
  {
    var after := Bootstrap(db, e, list, at, watermark).value;
    ImportKeepsDocsOk(e, map[], list);
    SwapInStores(db, e, Import(e, map[], list).value.0, at, watermark);
    forall x
      ensures Settled(after, x) && RevisionSound(db, after, x) && (x != e ==> Untouched(db, after, x))
    {
      SwapInEffect(db, e, Import(e, map[], list).value.0, at, watermark, x);
    }
  }

  lemma RewriteDocs(
    db: Db, e: Ecosystem, g: nat, docs: Docs, at: Stamp, watermark: Option<Stamp>, changed: bool, x: Ecosystem)
    requires Settled(db, e) && Settled(db, x) && ActiveGeneration(db, e) == Some(g)
    ensures ActiveDocs(Rewrite(db, e, g, docs, at, watermark, changed), x) ==
      if x == e then Some(docs) else ActiveDocs(db, x)
  {
  }

  lemma RewriteSettles(
    db: Db, e: Ecosystem, g: nat, docs: Docs, at: Stamp, watermark: Option<Stamp>, changed: bool, x: Ecosystem)
    requires Settled(db, e) && Settled(db, x) && ActiveGeneration(db, e) == Some(g)
    ensures Settled(Rewrite(db, e, g, docs, at, watermark, changed), x)
  {
    forall i: nat
      ensures Pointed(Rewrite(db, e, g, docs, at, watermark, changed), x, i)
    {
      assert Pointed(db, x, i) && Pointed(db, e, i);
    }
  }

  lemma RewriteStores(db: Db, e: Ecosystem, g: nat, docs: Docs, at: Stamp, watermark: Option<Stamp>, changed: bool)
    requires StoreInv(db) && ActiveGeneration(db, e) == Some(g) && DocsOk(e, docs)
    ensures forall i: nat :: Stored(Rewrite(db, e, g, docs, at, watermark, changed), i)
  {
    assert Settled(db, e);
    forall i: nat
      ensures Stored(Rewrite(db, e, g, docs, at, watermark, changed), i)
    {
      assert Stored(db, i);
    }
  }

  lemma RewriteEffect(
    db: Db, e: Ecosystem, g: nat, docs: Docs, at: Stamp, watermark: Option<Stamp>, changed: bool, x: Ecosystem)
    requires StoreInv(db) && ActiveGeneration(db, e) == Some(g)
    requires !changed ==> docs == db.generations[g].docs
    ensures var after := Rewrite(db, e, g, docs, at, watermark, changed);
      Settled(after, x) && RevisionSound(db, after, x) && (x != e ==> Untouched(db, after, x))
  {
    assert Settled(db, e) && Settled(db, x);
    RewriteSettles(db, e, g, docs, at, watermark, changed, x);
    RewriteDocs(db, e, g, docs, at, watermark, changed, x);
  }

  lemma IncrementalKeepsStore(db: Db, e: Ecosystem, list: seq<Advisory>, at: Stamp, watermark: Option<Stamp>)
    requires StoreInv(db) && Incremental(db, e, list, at, watermark).Ok?
    ensures var after := Incremental(db, e, list, at, watermark).value;
      && StoreInv(after)
      && (forall x :: RevisionSound(db, after, x))
      && (forall x :: x != e ==> Untouched(db, after, x))
      && MayIncrement(after, e)
      && ActiveDocs(db, e).Some?
      && ContentRevision(after, e) == ContentRevision(db, e)
           + (if exists a :: a in list && Lookup(ActiveDocs(db, e).value, a.id) != Some(a) then 1 else 0)
      && ActiveDocs(after, e) == Some(Import(e, ActiveDocs(db, e).value, list).value.0)
      && after.sync[e].highWatermark == watermark && after.sync[e].lastSuccessAt == Some(at)
  {
    var after := Incremental(db, e, list, at, watermark).value;
    assert Settled(db, e);
    var g := ActiveGeneration(db, e).value;
    ImportKeepsLastMention(e, db.generations[g].docs, list);
    ChangedExactly(e, db.generations[g].docs, list);
    var (docs, stats) := Import(e, db.generations[g].docs, list).value;
    assert Stored(db, g);
    ImportKeepsDocsOk(e, db.generations[g].docs, list);
    RewriteStores(db, e, g, docs, at, watermark, stats.contentChanged);
    forall x
      ensures Settled(after, x) && RevisionSound(db, after, x) && (x != e ==> Untouched(db, after, x))
    {
      RewriteEffect(db, e, g, docs, at, watermark, stats.contentChanged, x);
    }
  }

  /** A failure leaves content, revision, watermark, last success and every other ecosystem as they were. */
  lemma FailureKeepsStore(db: Db, e: Ecosystem, at: Stamp)
    requires StoreInv(db)
    ensures var after := RecordFailure(db, e, at);
      && StoreInv(after)
      && after.generations == db.generations
      && (forall x :: ActiveDocs(after, x) == ActiveDocs(db, x) && ContentRevision(after, x) == ContentRevision(db, x))
      && (forall x :: x != e ==> Untouched(db, after, x))
      && (e in db.sync ==>
            && after.sync[e].highWatermark == db.sync[e].highWatermark
            && after.sync[e].lastSuccessAt == db.sync[e].lastSuccessAt
            && (db.sync[e].lastSuccessAt.Some? ==> after.sync[e].status == Healthy))
  {
    var after := RecordFailure(db, e, at);
    assert Settled(db, e);
    forall i: nat
      ensures Stored(after, i)
    {
      assert Stored(db, i);
    }
    forall x
      ensures Settled(after, x)
    {
      assert Settled(db, x);
      forall i: nat
        ensures Pointed(after, x, i)
      {
        assert Pointed(db, x, i);
      }
    }
  }

  /** The instant of an ecosystem's last successful sync, if it ever had one. */
  function LastSuccess(db: Db, e: Ecosystem): Option<Stamp> {
    if e in db.sync then db.sync[e].lastSuccessAt else None
  }

  /**
   In every committed state an ecosystem is healthy exactly from its last success
   until the permitted staleness is over, or for ever where stale data does not block,
   whatever failed since; and then its next sync may be incremental.
   */
  lemma HealthyExactly(rules: HealthRules, db: Db, e: Ecosystem, now: Stamp)
    requires StoreInv(db)
    ensures StoreHealthy(rules, db, e, now) <==>
      && LastSuccess(db, e).Some?
      && LastSuccess(db, e).value <= now
      && (rules.blockStale ==> now <= LastSuccess(db, e).value + rules.maxStaleness)
    ensures MayIncrement(db, e) <==> LastSuccess(db, e).Some?
    ensures ActiveDocs(db, e).Some? <==> LastSuccess(db, e).Some?
  {
    assert Settled(db, e);
  }

  /** What a query reads stands under its own id and can be read. */
  lemma ActiveDocsAreOk(db: Db, e: Ecosystem)
    requires StoreInv(db)
    ensures ActiveDocs(db, e).Some? ==> DocsOk(e, ActiveDocs(db, e).value)
  {
    assert Settled(db, e);
    if ActiveGeneration(db, e).Some? {
      assert Stored(db, ActiveGeneration(db, e).value);
    }
  }

  /** The store as the syncing process holds it. */
  class Store {
    var generations: seq<Generation>
    var sync: map<Ecosystem, SyncRow>

    ghost function View(): Db
      reads this
    {
      Db(generations, sync)
    }

    constructor ()
      ensures View() == Db([], map[]) && StoreInv(View())
    {
      generations, sync := [], map[];
      new;
      forall e
        ensures Settled(View(), e)
      {
      }
    }

    /** Replace changed advisories of a generation inside a transaction. */
    static method ImportAdvisories(e: Ecosystem, docs: Docs, list: seq<Advisory>)
      returns (r: Result<(Docs, ImportStats), SyncError>)
      ensures r == Import(e, docs, list)
    {
      var current, stats := docs, ImportStats(0, 0, false);
      ghost var start: Progress := Ok((docs, stats));
      for i := 0 to |list|
        invariant ImportFrom(e, start, list[..i]) == Ok((current, stats))
      {
        ImportFromSnoc(e, start, list, i);
        var a := list[i];
        if !(a.id in current && current[a.id] == a) {
          if !Importable(e, a) {
            ImportStaysFailed(e, start, list, i + 1);
            return Err(MalformedRangeEvent);
          }
          current := current[a.id := a];
          if a.withdrawn.Some? {
            stats := ImportStats(stats.imported, stats.withdrawn + 1, true);
          } else {
            stats := ImportStats(stats.imported + 1, stats.withdrawn, true);
          }
        }
      }
      assert list[..|list|] == list;
      return Ok((current, stats));
    }

    /** One transaction: stage a generation, import the archive and the catch-up, swap it in. */
    method ImportBootstrap(e: Ecosystem, archive: seq<Advisory>, catchUp: seq<Advisory>, at: Stamp, watermark: Option<Stamp>)
      returns (r: Result<ImportStats, SyncError>)
      modifies this
      ensures var result := Bootstrap(old(View()), e, archive + catchUp, at, watermark);
        && (r.Ok? <==> result.Ok?)
        && (r.Err? ==> View() == old(View()) && r.error == result.error)
        && (r.Ok? ==> View() == result.value)
    {
      ImportInTwo(e, map[], archive, catchUp);
      var id, staged := |generations|, generations + [Generation(e, 1, Staging, watermark, map[])];
      var first := ImportAdvisories(e, staged[id].docs, archive);
      if first.Err? {
        return Err(first.error);
      }
      var second := ImportAdvisories(e, first.value.0, catchUp);
      if second.Err? {
        return Err(second.error);
      }
      staged := staged[id := staged[id].(docs := second.value.0)];
      staged := SupersedeAll(staged, e);
      staged := staged[id := staged[id].(status := Active)];
      assert staged == SupersedeAll(generations, e) + [Generation(e, 1, Active, watermark, second.value.0)];
      var revision := if e in sync then sync[e].contentRevision else 0;
      generations := staged;
      sync := sync[e := SyncRow(watermark, Some(at), at, Healthy, Some(id), revision + 1)];
      var a, b := first.value.1, second.value.1;
      return Ok(ImportStats(a.imported + b.imported, a.withdrawn + b.withdrawn, true));
    }

    /** One transaction: import changed advisories into the active generation. */
    method ImportIncremental(e: Ecosystem, list: seq<Advisory>, at: Stamp, watermark: Option<Stamp>)
      returns (r: Result<ImportStats, SyncError>)
      modifies this
      ensures var result := Incremental(old(View()), e, list, at, watermark);
        && (r.Ok? <==> result.Ok?)
        && (r.Err? ==> View() == old(View()) && r.error == result.error)
        && (r.Ok? ==> View() == result.value)
    {
      if !(e in sync && sync[e].activeGeneration.Some? && sync[e].activeGeneration.value < |generations|) {
        return Err(NoActiveGeneration);
      }
      var id := sync[e].activeGeneration.value;
      var imported := ImportAdvisories(e, generations[id].docs, list);
      if imported.Err? {
        return Err(imported.error);
      }
      var (docs, stats) := imported.value;
      RewriteGeneration(e, id, docs, at, watermark, stats.contentChanged);
      return Ok(stats);
    }

    /** The statements that end a successful incremental import. */
    method RewriteGeneration(e: Ecosystem, id: nat, docs: Docs, at: Stamp, watermark: Option<Stamp>, changed: bool)
      requires id < |generations| && e in sync
      modifies this
      ensures View() == Rewrite(old(View()), e, id, docs, at, watermark, changed)
    {
      generations := generations[id := generations[id].(docs := docs, highWatermark := watermark)];
      sync := sync[e := SyncRow(watermark, Some(at), at, Healthy, Some(id),
                                sync[e].contentRevision + if changed then 1 else 0)];
    }

    /** Note a failed attempt; the data stays as it was. */
    method RecordSyncFailure(e: Ecosystem, at: Stamp)
      modifies this`sync
      ensures View() == RecordFailure(old(View()), e, at)
    {
      var existing := ActiveState(Db(generations, sync), e);
      var status := if existing.Some? && existing.value.lastSuccessAt.Some? then Healthy else Failed;
      if e in sync {
        sync := sync[e := sync[e].(lastAttemptedAt := at, status := status)];
      } else {
        sync := sync[e := SyncRow(None, None, at, status, None, 0)];
      }
    }
  }
}
