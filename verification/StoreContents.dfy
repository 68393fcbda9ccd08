/** What a check finds, in terms of the documents that the store holds. */
module StoreContents {
  import opened Prelude
  import opened Findings
  import RangeEvents
  import OsvStore
  import opened StoreQueries

  // ---- Documents and rows ----

  predicate Scored(s: OsvStore.Severity) {
    s.kind == "CVSS_V2" || s.kind == "CVSS_V3" || s.kind == "CVSS_V4"
  }

  /** The first malformed vector among the scored severities of this list. */
  ghost predicate FirstMalformed(list: seq<OsvStore.Severity>, vector: string) {
    exists i :: 0 <= i < |list| && Scored(list[i]) && list[i].score.None? && list[i].vector == vector
      && forall j :: 0 <= j < i && Scored(list[j]) ==> list[j].score.Some?
  }

  /** One of the scored severities of this list, with none above it. */
  ghost predicate HighestScored(list: seq<OsvStore.Severity>, best: EffectiveSeverity) {
    && (exists s :: s in list && Scored(s) && s.score == Some(best.score) && s.kind == best.kind && s.vector == best.vector)
    && forall s :: s in list && Scored(s) ==>
         s.score.Some? && NotAbove(EffectiveSeverity(s.kind, s.vector, s.score.value), best)
  }

  /** A malicious record is not scored; otherwise the list gives its highest score, or the vector it cannot read. */
  ghost predicate SeveritySays(id: string, list: seq<OsvStore.Severity>, r: PackageRow) {
    if "MAL-" <= id then r.severity.None? && r.severityError.None?
    else if r.severityError.Some? then r.severity.None? && FirstMalformed(list, r.severityError.value)
    else if r.severity.Some? then HighestScored(list, r.severity.value)
    else forall s :: s in list ==> !Scored(s)
  }

  /** Each event has its one key and value. */
  ghost predicate EventsSay(events: seq<seq<(string, string)>>, stored: seq<RangeEvents.Event>) {
    (forall event :: event in events ==> |event| == 1) ==>
      && |stored| == |events|
      && forall i :: 0 <= i < |events| ==> stored[i].kind == events[i][0].0 && stored[i].version == events[i][0].1
  }

  ghost predicate RangesSay(ranges: seq<OsvStore.RangeSpec>, stored: seq<StoredRange>) {
    && |stored| == |ranges|
    && forall i :: 0 <= i < |ranges| ==>
         stored[i].kind == ranges[i].rangeType && EventsSay(ranges[i].events, stored[i].events)
  }

  /** The row of one affected package of a document; a package's own severities win over the document's. */
  ghost predicate RowSays(a: OsvStore.Advisory, p: OsvStore.Affected, normalize: string -> string, r: PackageRow) {
    && r.osvId == a.id && r.summary == a.summary && r.source == "osv-gcs" && r.modified == Ok(a.modified)
    && r.name == normalize(p.name) && r.versions == p.versions
    && SeveritySays(a.id, if p.severity == [] then a.severity else p.severity, r)
    && RangesSay(p.ranges, r.ranges)
  }

  /** The ecosystems' names in documents. */
  const NAMES: map<Ecosystem, string> := map[
    Npm := "npm", Pypi := "PyPI", Go := "Go", CratesIo := "crates.io", Nuget := "NuGet", RubyGems := "RubyGems",
    Maven := "Maven"]

  lemma NamesExactly(e: Ecosystem)
    ensures e in NAMES && OsvStore.OsvName(e) == NAMES[e]
  {
  }

  /** A document that has not been withdrawn affects a package of this ecosystem at this place. */
  ghost predicate AffectsAt(docs: OsvStore.Docs, id: string, k: nat, e: Ecosystem) {
    && id in docs && docs[id].withdrawn.None?
    && k < |docs[id].affected| && e in NAMES && docs[id].affected[k].ecosystem == NAMES[e]
  }

  ghost predicate RowAt(docs: OsvStore.Docs, id: string, k: nat, e: Ecosystem, normalize: string -> string, r: PackageRow) {
    AffectsAt(docs, id, k, e) && RowSays(docs[id], docs[id].affected[k], normalize, r)
  }

  function SeverityOf(s: OsvStore.Severity): EffectiveSeverity
    requires s.score.Some?
  {
    EffectiveSeverity(s.kind, s.vector, s.score.value)
  }

  /** A severity better than the best so far is better than all before it. */
  lemma BetterThanAll(front: seq<OsvStore.Severity>, best: EffectiveSeverity, last: OsvStore.Severity)
    requires HighestScored(front, best) && Scored(last) && last.score.Some?
    ensures HighestScored(front + [last], if Better(SeverityOf(last), best) then SeverityOf(last) else best)
  {
    var x := SeverityOf(last);
    BetterExactly(x, x);
    BetterExactly(x, best);
    BetterOrders(x, x, x);
    assert last in front + [last] && forall s :: s in front ==> s in front + [last];
    forall s | s in front && Scored(s) && Better(x, best)
      ensures NotAbove(SeverityOf(s), x)
    {
      BetterOrders(SeverityOf(s), x, best);
      BetterExactly(SeverityOf(s), x);
      BetterExactly(SeverityOf(s), best);
    }
  }

  lemma OnlyScored(front: seq<OsvStore.Severity>, last: OsvStore.Severity)
    requires (forall s :: s in front ==> !Scored(s)) && Scored(last) && last.score.Some?
    ensures HighestScored(front + [last], SeverityOf(last))
  {
    BetterOrders(SeverityOf(last), SeverityOf(last), SeverityOf(last));
    BetterExactly(SeverityOf(last), SeverityOf(last));
    assert last in front + [last];
  }

  lemma {:induction false} MalformedFails(list: seq<OsvStore.Severity>)
    ensures EffectiveOf(list).Err? ==> FirstMalformed(list, EffectiveOf(list).error)
    ensures EffectiveOf(list).Ok? ==> forall i :: 0 <= i < |list| && Scored(list[i]) ==> list[i].score.Some?
  {
    if list != [] {
      var front := list[..|list| - 1];
      MalformedFails(front);
      assert forall i :: 0 <= i < |front| ==> list[i] == front[i];
    }
  }

  lemma {:induction false} BestIsHighest(list: seq<OsvStore.Severity>)
    requires EffectiveOf(list).Ok?
    ensures EffectiveOf(list).value.Some? ==> HighestScored(list, EffectiveOf(list).value.value)
    ensures EffectiveOf(list).value.None? ==> forall s :: s in list ==> !Scored(s)
  {
    if list != [] {
      var front, last := list[..|list| - 1], list[|list| - 1];
      BestIsHighest(front);
      assert list == front + [last];
      if Scored(last) {
        if EffectiveOf(front).value.Some? {
          BetterThanAll(front, EffectiveOf(front).value.value, last);
        } else {
          OnlyScored(front, last);
        }
      }
    }
  }

  lemma {:induction false} StoredEventsSay(events: seq<seq<(string, string)>>)
    ensures EventsSay(events, StoredEvents(events))
  {
    if events != [] && forall event :: event in events ==> |event| == 1 {
      StoredEventsSay(events[1..]);
      assert events[0] in events && forall event :: event in events[1..] ==> event in events;
    }
  }

  lemma {:induction false} RangeRowsSay(ranges: seq<OsvStore.RangeSpec>)
    ensures RangesSay(ranges, RangeRows(ranges))
  {
    if ranges != [] {
      RangeRowsSay(ranges[1..]);
      StoredEventsSay(ranges[0].events);
    }
  }

  lemma RowOfSays(a: OsvStore.Advisory, p: OsvStore.Affected, normalize: string -> string)
    ensures RowSays(a, p, normalize, RowOf(a, p, normalize(p.name)))
  {
    var list := if p.severity == [] then a.severity else p.severity;
    MalformedFails(list);
    if EffectiveOf(list).Ok? {
      BestIsHighest(list);
    }
    RangeRowsSay(p.ranges);
    assert IsMalicious(a.id) <==> "MAL-" <= a.id;
  }

  ghost predicate RowOfEntry(
    a: OsvStore.Advisory, affected: seq<OsvStore.Affected>, e: Ecosystem, normalize: string -> string, r: PackageRow, k: nat)
  {
    && k < |affected| && affected[k].ecosystem == OsvStore.OsvName(e)
    && r == RowOf(a, affected[k], normalize(affected[k].name))
  }

  lemma {:induction false} AdvisoryRowsExactly(
    a: OsvStore.Advisory, affected: seq<OsvStore.Affected>, e: Ecosystem, normalize: string -> string, r: PackageRow)
    ensures r in AdvisoryRows(a, affected, e, normalize) <==>
      exists k: nat :: RowOfEntry(a, affected, e, normalize, r, k)
  {
    if affected != [] {
      AdvisoryRowsExactly(a, affected[1..], e, normalize, r);
      if k: nat :| RowOfEntry(a, affected[1..], e, normalize, r, k) {
        assert RowOfEntry(a, affected, e, normalize, r, k + 1);
      }
      if k: nat :| RowOfEntry(a, affected, e, normalize, r, k) && k > 0 {
        assert RowOfEntry(a, affected[1..], e, normalize, r, k - 1);
      }
      assert RowOfEntry(a, affected, e, normalize, r, 0) <==>
        affected[0].ecosystem == OsvStore.OsvName(e) && r == RowOf(a, affected[0], normalize(affected[0].name));
    }
  }

  lemma {:induction false} TableRows(
    docs: OsvStore.Docs, ids: set<string>, e: Ecosystem, normalize: string -> string, r: PackageRow)
    requires ids <= docs.Keys
    ensures r in TableOf(docs, ids, e, normalize) <==>
      exists id, k: nat :: id in ids && id in docs && docs[id].withdrawn.None?
        && RowOfEntry(docs[id], docs[id].affected, e, normalize, r, k)
  {
    if ids != {} {
      var smallest := Smallest(ids);
      TableRows(docs, ids - {smallest}, e, normalize, r);
      AdvisoryRowsExactly(docs[smallest], docs[smallest].affected, e, normalize, r);
    }
  }

  /** The document and entry that a row of the table is of. */
  lemma EntryOfRow(docs: OsvStore.Docs, ids: set<string>, e: Ecosystem, normalize: string -> string, r: PackageRow)
    returns (id: string, k: nat)
    requires ids <= docs.Keys && r in TableOf(docs, ids, e, normalize)
    ensures id in ids && RowAt(docs, id, k, e, normalize, r)
  {
    NamesExactly(e);
    TableRows(docs, ids, e, normalize, r);
    id, k :| id in ids && id in docs && docs[id].withdrawn.None?
      && RowOfEntry(docs[id], docs[id].affected, e, normalize, r, k);
    RowOfSays(docs[id], docs[id].affected[k], normalize);
  }

  /** The row of an entry. */
  lemma RowOfAffected(docs: OsvStore.Docs, ids: set<string>, e: Ecosystem, normalize: string -> string, id: string, k: nat)
    returns (r: PackageRow)
    requires ids <= docs.Keys && id in ids && AffectsAt(docs, id, k, e)
    ensures r in TableOf(docs, ids, e, normalize) && RowAt(docs, id, k, e, normalize, r)
  {
    NamesExactly(e);
    r := RowOf(docs[id], docs[id].affected[k], normalize(docs[id].affected[k].name));
    assert RowOfEntry(docs[id], docs[id].affected, e, normalize, r, k);
    TableRows(docs, ids, e, normalize, r);
    RowOfSays(docs[id], docs[id].affected[k], normalize);
  }

  /**
   The table's rows are those of the affected packages, in this ecosystem, of the
   documents that have not been withdrawn: each row is the row of one of them, and
   each of them has its row.
   */
  lemma TableExactly(docs: OsvStore.Docs, ids: set<string>, e: Ecosystem, normalize: string -> string)
    requires ids <= docs.Keys
    ensures forall r :: r in TableOf(docs, ids, e, normalize) ==>
      exists id, k: nat :: id in ids && RowAt(docs, id, k, e, normalize, r)
    ensures forall id, k: nat :: id in ids && AffectsAt(docs, id, k, e) ==>
      exists r :: r in TableOf(docs, ids, e, normalize) && RowAt(docs, id, k, e, normalize, r)
  {
    forall r | r in TableOf(docs, ids, e, normalize)
      ensures exists id, k: nat :: id in ids && RowAt(docs, id, k, e, normalize, r)
    {
      var id, k := EntryOfRow(docs, ids, e, normalize, r);
    }
    forall id, k: nat | id in ids && AffectsAt(docs, id, k, e)
      ensures exists r :: r in TableOf(docs, ids, e, normalize) && RowAt(docs, id, k, e, normalize, r)
    {
      var r := RowOfAffected(docs, ids, e, normalize, id, k);
    }
  }
}
