/** What the documents that upstream has published mean for decisions. */
module UpstreamRecords {
  import opened Prelude
  import opened Findings
  import OsvStore
  import SyncProtocol
  import opened StoreQueries
  import opened StoreContents
  import opened CheckContents
  import opened Policy
  import opened JointRuns

  // ---- Which documents a check finds ----

  /** The package of this entry is the artifact's. */
  ghost predicate OfPackage(env: Env, doc: OsvStore.Advisory, k: nat, a: Artifact) {
    && k < |doc.affected| && a.ecosystem in NAMES
    && doc.affected[k].ecosystem == NAMES[a.ecosystem] && env.normalize(doc.affected[k].name) == a.name
  }

  /** One of the entry's ranges, read event by event, holds the version. */
  ghost predicate RangeHolds(env: Env, doc: OsvStore.Advisory, k: nat, j: nat, range: StoredRange, a: Artifact)
    requires k < |doc.affected|
  {
    && j < |doc.affected[k].ranges|
    && range.kind == doc.affected[k].ranges[j].rangeType && EventsSay(doc.affected[k].ranges[j].events, range.events)
    && RangeMatches(env.cmp, range, a.ecosystem, a.version) == Ok(true)
  }

  /** An entry of the package lists the version or has a range that holds it. */
  ghost predicate EntryAffects(env: Env, doc: OsvStore.Advisory, k: nat, a: Artifact) {
    && OfPackage(env, doc, k, a)
    && (QueryVersion(a.ecosystem, a.version) in doc.affected[k].versions
        || exists j: nat, range :: RangeHolds(env, doc, k, j, range, a))
  }

  /** Some entry of the document does so, and the document has not been withdrawn. */
  ghost predicate Affects(env: Env, doc: OsvStore.Advisory, a: Artifact) {
    doc.withdrawn.None? && exists k: nat :: EntryAffects(env, doc, k, a)
  }

  /** What a healthy store with these documents shows to every statement of a check. */
  ghost function ShowsAll(env: Env, docs: OsvStore.Docs, a: Artifact): Store {
    var rows := TableOf(docs, docs.Keys, a.ecosystem, env.normalize);
    Seen(true, rows, rows)
  }

  lemma {:induction false} EventsAreOne(events: seq<seq<(string, string)>>, a: seq<StoredRange>, i: nat, b: StoredRange)
    requires i < |a| && a[i].kind == b.kind && EventsSay(events, a[i].events) && EventsSay(events, b.events)
    requires forall event :: event in events ==> |event| == 1
    ensures a[i] == b
  {
    assert a[i].events == b.events;
  }

  /** A row that concerns the artifact is of an entry that does. */
  lemma ConcernedEntry(env: Env, rows: seq<PackageRow>, a: Artifact, r: PackageRow, docs: OsvStore.Docs, id: string, k: nat)
    requires Concerns(Seen(true, rows, rows), env.cmp, a, r) && RowAt(docs, id, k, a.ecosystem, env.normalize, r)
    ensures Affects(env, docs[id], a)
  {
    var store := Seen(true, rows, rows);
    if !Listed(store, a, r) {
      var g :| HasRange(store, a, r, g) && RangeMatches(env.cmp, g, a.ecosystem, a.version) == Ok(true);
      var j :| 0 <= j < |r.ranges| && r.ranges[j] == g;
      assert RangeHolds(env, docs[id], k, j, g, a);
    }
    assert EntryAffects(env, docs[id], k, a);
  }

  lemma ConcernedIsInTable(env: Env, rows: seq<PackageRow>, a: Artifact, r: PackageRow)
    requires Concerns(Seen(true, rows, rows), env.cmp, a, r)
    ensures r in rows
  {
  }

  /** The rows of the table that concern an artifact are those of documents that affect it. */
  lemma RowOfDocument(env: Env, docs: OsvStore.Docs, a: Artifact, r: PackageRow)
    requires OsvStore.DocsOk(a.ecosystem, docs)
    requires Concerns(ShowsAll(env, docs, a), env.cmp, a, r)
    ensures r.osvId in docs && Affects(env, docs[r.osvId], a)
  {
    var rows := TableOf(docs, docs.Keys, a.ecosystem, env.normalize);
    ConcernedIsInTable(env, rows, a, r);
    var id, k := EntryOfRow(docs, docs.Keys, a.ecosystem, env.normalize, r);
    ConcernedEntry(env, rows, a, r, docs, id, k);
  }

  lemma ReadableEvents(docs: OsvStore.Docs, e: Ecosystem, id: string, k: nat, j: nat)
    requires OsvStore.DocsOk(e, docs) && AffectsAt(docs, id, k, e) && j < |docs[id].affected[k].ranges|
    ensures forall event :: event in docs[id].affected[k].ranges[j].events ==> |event| == 1
  {
    NamesExactly(e);
    OsvStore.ImportableExactly(e, docs[id]);
    assert docs[id].affected[k] in docs[id].affected && docs[id].affected[k].ranges[j] in docs[id].affected[k].ranges;
  }

  /** The row of an entry with a range that holds the version. */
  lemma RangeConcerns(
    env: Env, rows: seq<PackageRow>, docs: OsvStore.Docs, a: Artifact, id: string, k: nat, j: nat, range: StoredRange, r: PackageRow)
    requires OsvStore.DocsOk(a.ecosystem, docs) && r in rows && RowAt(docs, id, k, a.ecosystem, env.normalize, r)
    requires OfPackage(env, docs[id], k, a) && RangeHolds(env, docs[id], k, j, range, a)
    ensures Concerns(Seen(true, rows, rows), env.cmp, a, r)
  {
    ReadableEvents(docs, a.ecosystem, id, k, j);
    EventsAreOne(docs[id].affected[k].ranges[j].events, r.ranges, j, range);
    assert HasRange(Seen(true, rows, rows), a, r, r.ranges[j]);
  }

  lemma EntryHasRow(env: Env, docs: OsvStore.Docs, a: Artifact, id: string, k: nat) returns (r: PackageRow)
    requires OsvStore.DocsOk(a.ecosystem, docs) && id in docs && docs[id].withdrawn.None? && EntryAffects(env, docs[id], k, a)
    ensures RowAt(docs, id, k, a.ecosystem, env.normalize, r) && r.osvId == id
    ensures Concerns(ShowsAll(env, docs, a), env.cmp, a, r)
  {
    var rows := TableOf(docs, docs.Keys, a.ecosystem, env.normalize);
    r := RowOfAffected(docs, docs.Keys, a.ecosystem, env.normalize, id, k);
    if QueryVersion(a.ecosystem, a.version) in docs[id].affected[k].versions {
      assert Listed(Seen(true, rows, rows), a, r);
    } else {
      var j: nat, range :| RangeHolds(env, docs[id], k, j, range, a);
      RangeConcerns(env, rows, docs, a, id, k, j, range, r);
    }
  }

  /** What a store with active documents shows. */
  lemma OutcomeOfDocuments(env: Env, db: OsvStore.Db, now: nat, a: Artifact)
    requires OsvStore.StoreInv(db) && ShouldCheckOsv(env.settings.policy, a)
    requires OsvStore.StoreHealthy(env.rules, db, a.ecosystem, now)
    ensures OsvStore.ActiveDocs(db, a.ecosystem).Some?
    ensures OsvStore.DocsOk(a.ecosystem, OsvStore.ActiveDocs(db, a.ecosystem).value)
    ensures OutcomeAt(env, db, now, a) ==
      match Check(ShowsAll(env, OsvStore.ActiveDocs(db, a.ecosystem).value, a), env.cmp, a)
      case Ok(findings) => Some(Ok(findings))
      case Err(error) => Some(Err(CheckFailed(error)))
  {
    OsvStore.HealthyExactly(env.rules, db, a.ecosystem, now);
    OsvStore.ActiveDocsAreOk(db, a.ecosystem);
  }

  ghost predicate HasFinding(findings: seq<Finding>, id: string) {
    exists f :: f in findings && f.osvId == id
  }

  lemma FindingIsOfDocument(env: Env, docs: OsvStore.Docs, a: Artifact, f: Finding)
    requires OsvStore.DocsOk(a.ecosystem, docs) && Check(ShowsAll(env, docs, a), env.cmp, a).Ok?
    requires f in Check(ShowsAll(env, docs, a), env.cmp, a).value
    ensures f.osvId in docs && Affects(env, docs[f.osvId], a)
  {
    var r := RowOfFinding(ShowsAll(env, docs, a), env.cmp, a, f);
    RowOfDocument(env, docs, a, r);
  }

  lemma DocumentIsFound(env: Env, docs: OsvStore.Docs, a: Artifact, id: string)
    requires OsvStore.DocsOk(a.ecosystem, docs) && Check(ShowsAll(env, docs, a), env.cmp, a).Ok?
    requires id in docs && Affects(env, docs[id], a)
    ensures HasFinding(Check(ShowsAll(env, docs, a), env.cmp, a).value, id)
  {
    var k: nat :| EntryAffects(env, docs[id], k, a);
    var r := EntryHasRow(env, docs, a, id, k);
    var f := FindingOfRow(ShowsAll(env, docs, a), env.cmp, a, r);
  }

  /**
   A check of one state of the store that succeeds has a finding for exactly those
   documents that affect the artifact: none of a withdrawn document, and every other
   one with an entry that lists the version or has a range that holds it.
   */
  lemma FindsExactly(env: Env, db: OsvStore.Db, now: nat, a: Artifact, findings: seq<Finding>)
    requires OsvStore.StoreInv(db) && OutcomeAt(env, db, now, a) == Some(Ok(findings))
    ensures OsvStore.ActiveDocs(db, a.ecosystem).Some?
    ensures forall id :: HasFinding(findings, id) <==>
      id in OsvStore.ActiveDocs(db, a.ecosystem).value && Affects(env, OsvStore.ActiveDocs(db, a.ecosystem).value[id], a)
  {
    OutcomeOfDocuments(env, db, now, a);
    var docs := OsvStore.ActiveDocs(db, a.ecosystem).value;
    forall id
      ensures HasFinding(findings, id) <==> id in docs && Affects(env, docs[id], a)
    {
      if f :| f in findings && f.osvId == id {
        FindingIsOfDocument(env, docs, a, f);
      }
      if id in docs && Affects(env, docs[id], a) {
        DocumentIsFound(env, docs, a, id);
      }
    }
  }

  // ---- What is refused ----

  /** A stored malicious record that affects the artifact refuses it, or else its check failed. */
  lemma MalwareIsRefused(env: Env, db: OsvStore.Db, now: nat, a: Artifact, id: string)
    requires OsvStore.StoreInv(db) && OsvStore.ActiveDocs(db, a.ecosystem).Some?
    requires id in OsvStore.ActiveDocs(db, a.ecosystem).value && "MAL-" <= id
    requires Affects(env, OsvStore.ActiveDocs(db, a.ecosystem).value[id], a)
    requires env.settings.policy.blockMalicious && !BypassesOsv(env.settings.policy, a)
    ensures var outcome := OutcomeAt(env, db, now, a);
      && outcome.Some?
      && (outcome.value.Ok? || env.settings.policy.onError.BlockOnError? ==>
            !Decide(env.settings.policy, a, now, outcome).allowed)
  {
    var policy, outcome := env.settings.policy, OutcomeAt(env, db, now, a);
    ShouldCheckExactly(policy, a);
    AllowedExactly(policy, a, now, outcome);
    if outcome.value.Ok? {
      FindsExactly(env, db, now, a, outcome.value.value);
      assert HasFinding(outcome.value.value, id);
      var f :| f in outcome.value.value && f.osvId == id;
      assert Malware(f);
    }
  }

  /** The severities that count for an entry: its own, or the document's if it has none. */
  function SeveritiesOf(doc: OsvStore.Advisory, k: nat): seq<OsvStore.Severity>
    requires k < |doc.affected|
  {
    if doc.affected[k].severity == [] then doc.severity else doc.affected[k].severity
  }

  /** Every scored severity of the document could be read. */
  ghost predicate AllRead(doc: OsvStore.Advisory) {
    forall k, s :: 0 <= k < |doc.affected| && s in SeveritiesOf(doc, k) && Scored(s) ==> s.score.Some?
  }

  lemma RowIsNotInError(env: Env, docs: OsvStore.Docs, a: Artifact, id: string, r: PackageRow)
    requires OsvStore.DocsOk(a.ecosystem, docs) && id in docs && AllRead(docs[id])
    requires Concerns(ShowsAll(env, docs, a), env.cmp, a, r) && r.osvId == id
    ensures r.severityError.None?
  {
    var rows := TableOf(docs, docs.Keys, a.ecosystem, env.normalize);
    ConcernedIsInTable(env, rows, a, r);
    var x, k := EntryOfRow(docs, docs.Keys, a.ecosystem, env.normalize, r);
    var list := SeveritiesOf(docs[id], k);
    forall i | 0 <= i < |list| && Scored(list[i])
      ensures list[i].score.Some?
    {
      assert list[i] in list;
    }
  }

  lemma RowScores(env: Env, docs: OsvStore.Docs, a: Artifact, id: string, k: nat, s: OsvStore.Severity, r: PackageRow)
    requires id in docs && !("MAL-" <= docs[id].id) && RowAt(docs, id, k, a.ecosystem, env.normalize, r)
    requires r.severityError.None? && s in SeveritiesOf(docs[id], k) && Scored(s)
    ensures r.severity.Some? && s.score.Some? && s.score.value <= r.severity.value.score
  {
  }

  /** The finding of a document with readable severities is not in error and scores at least what any affecting entry does. */
  lemma FindingScores(env: Env, docs: OsvStore.Docs, a: Artifact, id: string, k: nat, s: OsvStore.Severity)
    returns (f: Finding)
    requires OsvStore.DocsOk(a.ecosystem, docs) && Check(ShowsAll(env, docs, a), env.cmp, a).Ok?
    requires id in docs && docs[id].withdrawn.None? && AllRead(docs[id]) && !("MAL-" <= id)
    requires EntryAffects(env, docs[id], k, a) && s in SeveritiesOf(docs[id], k) && Scored(s)
    ensures f in Check(ShowsAll(env, docs, a), env.cmp, a).value && f.osvId == id && f.evaluationError.None?
    ensures f.severity.Some? && s.score.Some? && s.score.value <= f.severity.value.score
  {
    var r := EntryHasRow(env, docs, a, id, k);
    RowIsNotInError(env, docs, a, id, r);
    RowScores(env, docs, a, id, k, s, r);
    f := FindingOfRow(ShowsAll(env, docs, a), env.cmp, a, r);
    if f.evaluationError.Some? {
      var x :| Concerns(ShowsAll(env, docs, a), env.cmp, a, x) && x.osvId == id && x.severityError.Some?;
      RowIsNotInError(env, docs, a, id, x);
    }
  }

  /** A stored vulnerability with a score at or above the threshold refuses what its entry affects, or else the check failed. */
  lemma VulnerabilityIsRefused(env: Env, db: OsvStore.Db, now: nat, a: Artifact, id: string, k: nat, s: OsvStore.Severity)
    requires OsvStore.StoreInv(db) && OsvStore.ActiveDocs(db, a.ecosystem).Some?
    requires id in OsvStore.ActiveDocs(db, a.ecosystem).value && !("MAL-" <= id)
    requires var doc := OsvStore.ActiveDocs(db, a.ecosystem).value[id];
      && doc.withdrawn.None? && AllRead(doc) && EntryAffects(env, doc, k, a)
      && s in SeveritiesOf(doc, k) && Scored(s) && env.settings.policy.minimumCvssScore <= s.score.value
    requires env.settings.policy.blockVulnerabilities && !BypassesOsv(env.settings.policy, a)
    ensures var outcome := OutcomeAt(env, db, now, a);
      outcome.Some? && (outcome.value.Ok? ==> !Decide(env.settings.policy, a, now, outcome).allowed)
  {
    var policy, outcome := env.settings.policy, OutcomeAt(env, db, now, a);
    ShouldCheckExactly(policy, a);
    AllowedExactly(policy, a, now, outcome);
    if outcome.value.Ok? {
      OutcomeOfDocuments(env, db, now, a);
      var f := FindingScores(env, OsvStore.ActiveDocs(db, a.ecosystem).value, a, id, k, s);
      assert Reaches(policy, f);
    }
  }

  /** Where no stored document affects the artifact, OSV says nothing against it, unless its check failed. */
  lemma UnaffectedIsNotRefused(env: Env, db: OsvStore.Db, now: nat, a: Artifact, findings: seq<Finding>)
    requires OsvStore.StoreInv(db) && OutcomeAt(env, db, now, a) == Some(Ok(findings))
    requires OsvStore.ActiveDocs(db, a.ecosystem).Some? ==>
      forall id :: id in OsvStore.ActiveDocs(db, a.ecosystem).value ==>
        !Affects(env, OsvStore.ActiveDocs(db, a.ecosystem).value[id], a)
    ensures findings == [] && !MustRefuse(env.settings.policy, Some(Ok(findings)))
  {
    FindsExactly(env, db, now, a, findings);
    if findings != [] {
      assert HasFinding(findings, findings[0].osvId);
    }
  }

  /**
   From upstream to the decision: in every joint run a malicious record that upstream
   has published, older than the watermark and not stale, refuses the versions that
   its present text affects, wherever errors block.
   */
  lemma PublishedMalwareIsRefused(env: Env, events: seq<Event>, now: nat, a: Artifact, id: string)
    requires SyncProtocol.Older(
      SyncProtocol.Now(Outside(events), a.ecosystem), id, SyncProtocol.Watermark(Outside(events).db, a.ecosystem))
    requires id !in SyncProtocol.Stale(Outside(events), a.ecosystem) && "MAL-" <= id
    requires Affects(env, SyncProtocol.Now(Outside(events), a.ecosystem)[id], a)
    requires env.settings.policy.blockMalicious && !BypassesOsv(env.settings.policy, a)
    requires env.settings.policy.onError.BlockOnError?
    ensures !Decide(env.settings.policy, a, now, OutcomeAt(env, Outside(events).db, now, a)).allowed
  {
    var db := Outside(events).db;
    SyncProtocol.NoLostUpdates(WorldPart(events), a.ecosystem);
    if OsvStore.ActiveDocs(db, a.ecosystem).Some? {
      MalwareIsRefused(env, db, now, a, id);
    } else {
      OsvStore.HealthyExactly(env.rules, db, a.ecosystem, now);
      ShouldCheckExactly(env.settings.policy, a);
      UnhealthyStoreRefuses(env, db, now, a);
    }
  }
}
