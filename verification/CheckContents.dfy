/** What the check of one artifact finds, in terms of the rows that its statements see. */
module CheckContents {
  import opened Prelude
  import opened Text
  import opened Findings
  import opened StoreQueries

  /** The row lists the version that is asked for. */
  ghost predicate Listed(store: Store, a: Artifact, r: PackageRow) {
    var query := QueryVersion(a.ecosystem, a.version);
    r in store.exact(a.ecosystem, a.name, query) && r.name == a.name && query in r.versions
  }

  /** The row has this range for the package. */
  ghost predicate HasRange(store: Store, a: Artifact, r: PackageRow, g: StoredRange) {
    r in store.ranges(a.ecosystem, a.name) && r.name == a.name && g in r.ranges
  }

  /** The row has a range that the version is in. */
  ghost predicate InRange(store: Store, cmp: Comparators, a: Artifact, r: PackageRow) {
    exists g :: HasRange(store, a, r, g) && RangeMatches(cmp, g, a.ecosystem, a.version) == Ok(true)
  }

  ghost predicate Concerns(store: Store, cmp: Comparators, a: Artifact, r: PackageRow) {
    Listed(store, a, r) || InRange(store, cmp, a, r)
  }

  /** The row, as a finding. */
  ghost predicate Gives(r: PackageRow, f: Finding) {
    && r.modified == Ok(f.modified) && r.osvId == f.osvId && r.summary == f.summary && r.source == f.source
    && r.severity == f.severity && r.severityError == f.evaluationError
  }

  lemma RowGives(r: PackageRow, f: Finding)
    ensures RowFinding(r) == Ok(f) <==> Gives(r, f)
    ensures RowFinding(r).Err? <==> r.modified.Err?
  {
  }

  lemma {:induction false} FindingsOfRows(rows: seq<PackageRow>)
    ensures RowFindings(rows).Err? <==> exists r :: r in rows && r.modified.Err?
    ensures RowFindings(rows).Ok? ==>
      forall f :: f in RowFindings(rows).value <==> exists r :: r in rows && Gives(r, f)
  {
    if rows != [] {
      var front, last := rows[..|rows| - 1], rows[|rows| - 1];
      assert rows == front + [last];
      FindingsOfRows(front);
    }
  }

  lemma {:induction false} ExactRowsExactly(rows: seq<PackageRow>, name: string, version: string, r: PackageRow)
    ensures r in ExactRows(rows, name, version) <==> r in rows && r.name == name && version in r.versions
  {
    if rows != [] {
      ExactRowsExactly(rows[..|rows| - 1], name, version, r);
      assert rows == rows[..|rows| - 1] + [rows[|rows| - 1]];
    }
  }

  lemma {:induction false} RangesOfExactly(advisory: Finding, ranges: seq<StoredRange>, x: AdvisoryRange)
    ensures x in RangesOf(advisory, ranges) <==> x.advisory == advisory && x.range in ranges
  {
    if ranges != [] {
      RangesOfExactly(advisory, ranges[1..], x);
    }
  }

  ghost predicate RangeOf(r: PackageRow, name: string, x: AdvisoryRange) {
    r.name == name && x.range in r.ranges && Gives(r, x.advisory)
  }

  lemma {:induction false} StoredRangesExactly(rows: seq<PackageRow>, name: string)
    ensures StoredRanges(rows, name).Err? <==> exists r :: r in rows && r.name == name && r.ranges != [] && r.modified.Err?
    ensures StoredRanges(rows, name).Ok? ==>
      forall x :: x in StoredRanges(rows, name).value <==> exists r :: r in rows && RangeOf(r, name, x)
  {
    if rows != [] {
      var front, last := rows[..|rows| - 1], rows[|rows| - 1];
      assert rows == front + [last];
      StoredRangesExactly(front, name);
      if StoredRanges(rows, name).Ok? {
        forall x
          ensures x in StoredRanges(rows, name).value <==> x in StoredRanges(front, name).value || RangeOf(last, name, x)
        {
          if last.name == name && last.ranges != [] {
            RangesOfExactly(RowFinding(last).value, last.ranges, x);
            RowGives(last, x.advisory);
          }
        }
      }
    }
  }

  lemma {:induction false} MatchingExactly(cmp: Comparators, ranges: seq<AdvisoryRange>, e: Ecosystem, version: string)
    ensures MatchingRanges(cmp, ranges, e, version).Err? <==>
      exists x :: x in ranges && RangeMatches(cmp, x.range, e, version).Err?
    ensures MatchingRanges(cmp, ranges, e, version).Ok? ==>
      forall f :: f in MatchingRanges(cmp, ranges, e, version).value <==>
        exists x :: x in ranges && x.advisory == f && RangeMatches(cmp, x.range, e, version) == Ok(true)
  {
    if ranges != [] {
      var front, last := ranges[..|ranges| - 1], ranges[|ranges| - 1];
      assert ranges == front + [last];
      MatchingExactly(cmp, front, e, version);
    }
  }

  // ---- The check ----

  /** The findings of the exact statement's rows, and then those of the range statement's. */
  function RawHits(store: Store, cmp: Comparators, a: Artifact): Result<seq<Finding>, CheckError> {
    var query := QueryVersion(a.ecosystem, a.version);
    match RowFindings(ExactRows(store.exact(a.ecosystem, a.name, query), a.name, query))
    case Err(error) => Err(error)
    case Ok(exact) =>
      match StoredRanges(store.ranges(a.ecosystem, a.name), a.name)
      case Err(error) => Err(error)
      case Ok(ranges) =>
        match MatchingRanges(cmp, ranges, a.ecosystem, a.version)
        case Err(error) => Err(error)
        case Ok(found) => Ok(exact + found)
  }

  lemma CheckConsolidatesHits(store: Store, cmp: Comparators, a: Artifact)
    ensures Check(store, cmp, a).Ok? <==> store.healthy(a.ecosystem) && RawHits(store, cmp, a).Ok?
    ensures Check(store, cmp, a).Ok? ==> Check(store, cmp, a).value == Consolidate(RawHits(store, cmp, a).value)
  {
    if Check(store, cmp, a).Ok? {
      var query := QueryVersion(a.ecosystem, a.version);
      var exact := RowFindings(ExactRows(store.exact(a.ecosystem, a.name, query), a.name, query)).value;
      var found := MatchingRanges(
        cmp, StoredRanges(store.ranges(a.ecosystem, a.name), a.name).value, a.ecosystem, a.version).value;
      ConsolidateParts(exact, Consolidate(found));
      ConsolidateParts(exact, found);
    }
  }

  /** Some row of the package cannot be read, or some range of it cannot be evaluated for the version. */
  ghost predicate Unreadable(store: Store, cmp: Comparators, a: Artifact) {
    || (exists r :: Listed(store, a, r) && r.modified.Err?)
    || (exists r, g :: HasRange(store, a, r, g) && (r.modified.Err? || RangeMatches(cmp, g, a.ecosystem, a.version).Err?))
  }

  lemma RowsAreListed(store: Store, a: Artifact)
    ensures var query := QueryVersion(a.ecosystem, a.version);
      var rows := ExactRows(store.exact(a.ecosystem, a.name, query), a.name, query);
      && (RowFindings(rows).Err? <==> exists r :: Listed(store, a, r) && r.modified.Err?)
      && (RowFindings(rows).Ok? ==>
            forall f :: f in RowFindings(rows).value <==> exists r :: Listed(store, a, r) && Gives(r, f))
  {
    var query := QueryVersion(a.ecosystem, a.version);
    var rows := ExactRows(store.exact(a.ecosystem, a.name, query), a.name, query);
    FindingsOfRows(rows);
    forall r
      ensures r in rows <==> Listed(store, a, r)
    {
      ExactRowsExactly(store.exact(a.ecosystem, a.name, query), a.name, query, r);
    }
  }

  ghost predicate StoredAs(store: Store, a: Artifact, r: PackageRow, x: AdvisoryRange) {
    HasRange(store, a, r, x.range) && Gives(r, x.advisory)
  }

  lemma RangesAreStored(store: Store, a: Artifact)
    ensures var ranges := StoredRanges(store.ranges(a.ecosystem, a.name), a.name);
      && (ranges.Err? <==> exists r, g :: HasRange(store, a, r, g) && r.modified.Err?)
      && (ranges.Ok? ==> forall x :: x in ranges.value <==> exists r :: StoredAs(store, a, r, x))
  {
    var rows := store.ranges(a.ecosystem, a.name);
    StoredRangesExactly(rows, a.name);
    forall r | r in rows && r.name == a.name && r.ranges != []
      ensures HasRange(store, a, r, r.ranges[0])
    {
    }
    forall r, x
      ensures r in rows && RangeOf(r, a.name, x) <==> StoredAs(store, a, r, x)
    {
    }
  }

  /** A check fails exactly when the store is not healthy or something of the package cannot be read. */
  lemma CheckFailsExactly(store: Store, cmp: Comparators, a: Artifact)
    ensures Check(store, cmp, a).Err? <==> !store.healthy(a.ecosystem) || Unreadable(store, cmp, a)
  {
    CheckConsolidatesHits(store, cmp, a);
    RowsAreListed(store, a);
    RangesAreStored(store, a);
    var ranges := StoredRanges(store.ranges(a.ecosystem, a.name), a.name);
    if ranges.Ok? {
      MatchingExactly(cmp, ranges.value, a.ecosystem, a.version);
      if r, g :| HasRange(store, a, r, g) && r.modified.Ok? && RangeMatches(cmp, g, a.ecosystem, a.version).Err? {
        assert StoredAs(store, a, r, AdvisoryRange(RowFinding(r).value, g));
      }
    }
  }

  /** The hits are the rows that concern the artifact. */
  lemma HitsExactly(store: Store, cmp: Comparators, a: Artifact, f: Finding)
    requires RawHits(store, cmp, a).Ok?
    ensures f in RawHits(store, cmp, a).value <==> exists r :: Concerns(store, cmp, a, r) && Gives(r, f)
  {
    RowsAreListed(store, a);
    RangesAreStored(store, a);
    var ranges := StoredRanges(store.ranges(a.ecosystem, a.name), a.name).value;
    MatchingExactly(cmp, ranges, a.ecosystem, a.version);
    var found := MatchingRanges(cmp, ranges, a.ecosystem, a.version).value;
    if f in found {
      var x :| x in ranges && x.advisory == f && RangeMatches(cmp, x.range, a.ecosystem, a.version) == Ok(true);
      var r :| StoredAs(store, a, r, x);
      assert Concerns(store, cmp, a, r);
    }
    if r :| InRange(store, cmp, a, r) && Gives(r, f) {
      var g :| HasRange(store, a, r, g) && RangeMatches(cmp, g, a.ecosystem, a.version) == Ok(true);
      assert StoredAs(store, a, r, AdvisoryRange(f, g));
    }
  }

  lemma ConcernedGive(store: Store, cmp: Comparators, a: Artifact, r: PackageRow) returns (f: Finding)
    requires Check(store, cmp, a).Ok? && Concerns(store, cmp, a, r)
    ensures Gives(r, f)
  {
    CheckFailsExactly(store, cmp, a);
    assert r.modified.Ok?;
    f := RowFinding(r).value;
  }

  lemma {:induction false} MembersAreGot(s: seq<Finding>, f: Finding)
    requires SortedById(s)
    ensures f in s <==> Get(s, f.osvId) == Some(f)
  {
    if s != [] {
      MembersAreGot(s[1..], f);
      if s[0].osvId == f.osvId && f in s[1..] {
        var i :| 0 < i < |s| && s[i] == f;
        TextLessOrders(f.osvId, f.osvId, f.osvId);
      }
    }
  }

  /** Of the rows of this advisory that concern the artifact one has this severity, and none has a higher score. */
  ghost predicate HighestOfRows(
    store: Store, cmp: Comparators, a: Artifact, id: string, severity: Option<EffectiveSeverity>)
  {
    && (severity.Some? ==> exists r :: Concerns(store, cmp, a, r) && r.osvId == id && r.severity == severity)
    && (forall r :: Concerns(store, cmp, a, r) && r.osvId == id && r.severity.Some? ==>
          severity.Some? && r.severity.value.score <= severity.value.score)
  }

  ghost predicate SomeRowFails(store: Store, cmp: Comparators, a: Artifact, id: string) {
    exists r :: Concerns(store, cmp, a, r) && r.osvId == id && r.severityError.Some?
  }

  /** The finding merges all rows of its advisory that concern the artifact. */
  ghost predicate Merges(store: Store, cmp: Comparators, a: Artifact, f: Finding) {
    && (exists r :: Concerns(store, cmp, a, r) && r.osvId == f.osvId)
    && HighestOfRows(store, cmp, a, f.osvId, f.severity)
    && (f.evaluationError.Some? <==> SomeRowFails(store, cmp, a, f.osvId))
  }

  /** The hit that a row which concerns the artifact is. */
  lemma HitOfRow(store: Store, cmp: Comparators, a: Artifact, r: PackageRow) returns (h: Finding)
    requires Check(store, cmp, a).Ok? && RawHits(store, cmp, a).Ok? && Concerns(store, cmp, a, r)
    ensures h in RawHits(store, cmp, a).value && Gives(r, h)
  {
    h := ConcernedGive(store, cmp, a, r);
    HitsExactly(store, cmp, a, h);
  }

  /** The row that a hit is. */
  lemma RowOfHit(store: Store, cmp: Comparators, a: Artifact, h: Finding) returns (r: PackageRow)
    requires RawHits(store, cmp, a).Ok? && h in RawHits(store, cmp, a).value
    ensures Concerns(store, cmp, a, r) && Gives(r, h)
  {
    HitsExactly(store, cmp, a, h);
    r :| Concerns(store, cmp, a, r) && Gives(r, h);
  }

  lemma ScoreIsHighest(store: Store, cmp: Comparators, a: Artifact, id: string, severity: Option<EffectiveSeverity>)
    requires Check(store, cmp, a).Ok? && RawHits(store, cmp, a).Ok?
    requires IsBestSeverity(RawHits(store, cmp, a).value, id, severity)
    ensures HighestOfRows(store, cmp, a, id, severity)
  {
    var hits := RawHits(store, cmp, a).value;
    if severity.Some? {
      var h :| h in hits && h.osvId == id && h.severity == severity;
      var r := RowOfHit(store, cmp, a, h);
    }
    forall r | Concerns(store, cmp, a, r) && r.osvId == id && r.severity.Some?
      ensures severity.Some? && r.severity.value.score <= severity.value.score
    {
      var h := HitOfRow(store, cmp, a, r);
    }
  }

  lemma ErrorIsSomeRow(store: Store, cmp: Comparators, a: Artifact, id: string, error: Option<string>)
    requires Check(store, cmp, a).Ok? && RawHits(store, cmp, a).Ok?
    requires IsFirstError(RawHits(store, cmp, a).value, id, error)
    ensures error.Some? <==> SomeRowFails(store, cmp, a, id)
  {
    var hits := RawHits(store, cmp, a).value;
    if error.Some? {
      var i :| 0 <= i < |hits| && hits[i].osvId == id && hits[i].evaluationError == error;
      var r := RowOfHit(store, cmp, a, hits[i]);
    }
    if r :| Concerns(store, cmp, a, r) && r.osvId == id && r.severityError.Some? {
      var h := HitOfRow(store, cmp, a, r);
    }
  }

  lemma MergeSays(store: Store, cmp: Comparators, a: Artifact, f: Finding)
    requires Check(store, cmp, a).Ok? && RawHits(store, cmp, a).Ok?
    requires Merged(RawHits(store, cmp, a).value, f.osvId) == Some(f)
    ensures Merges(store, cmp, a, f)
  {
    var hits := RawHits(store, cmp, a).value;
    MergedExactly(hits, f.osvId);
    var h :| h in hits && h.osvId == f.osvId;
    var r := RowOfHit(store, cmp, a, h);
    ScoreIsHighest(store, cmp, a, f.osvId, f.severity);
    ErrorIsSomeRow(store, cmp, a, f.osvId, f.evaluationError);
  }

  lemma FindingMerges(store: Store, cmp: Comparators, a: Artifact, f: Finding)
    requires Check(store, cmp, a).Ok? && f in Check(store, cmp, a).value
    ensures Merges(store, cmp, a, f)
  {
    CheckConsolidatesHits(store, cmp, a);
    ConsolidateMerges(RawHits(store, cmp, a).value);
    MembersAreGot(Check(store, cmp, a).value, f);
    MergeSays(store, cmp, a, f);
  }

  /** The finding of a row that concerns the artifact: it scores at least as high, and is in error only if some row is. */
  lemma FindingOfRow(store: Store, cmp: Comparators, a: Artifact, r: PackageRow) returns (f: Finding)
    requires Check(store, cmp, a).Ok? && Concerns(store, cmp, a, r)
    ensures f in Check(store, cmp, a).value && f.osvId == r.osvId
    ensures r.severity.Some? ==> f.severity.Some? && r.severity.value.score <= f.severity.value.score
    ensures f.evaluationError.Some? ==> SomeRowFails(store, cmp, a, r.osvId)
  {
    CheckConsolidatesHits(store, cmp, a);
    var hits := RawHits(store, cmp, a).value;
    ConsolidateMerges(hits);
    var h := HitOfRow(store, cmp, a, r);
    MergedExactly(hits, r.osvId);
    assert Get(Check(store, cmp, a).value, r.osvId) == Merged(hits, r.osvId);
    f := Merged(hits, r.osvId).value;
    MembersAreGot(Check(store, cmp, a).value, f);
    MergeSays(store, cmp, a, f);
  }

  /**
   A check that succeeds has one finding for every advisory with a row that lists the
   version or has a range that the version is in, and no other; each merges its
   advisory's rows.
   */
  lemma FoundExactly(store: Store, cmp: Comparators, a: Artifact)
    requires Check(store, cmp, a).Ok?
    ensures forall f :: f in Check(store, cmp, a).value ==> Merges(store, cmp, a, f)
    ensures forall r :: Concerns(store, cmp, a, r) ==> exists f :: f in Check(store, cmp, a).value && f.osvId == r.osvId
    ensures SortedById(Check(store, cmp, a).value)
  {
    CheckConsolidatesHits(store, cmp, a);
    ConsolidateMerges(RawHits(store, cmp, a).value);
    forall f | f in Check(store, cmp, a).value
      ensures Merges(store, cmp, a, f)
    {
      FindingMerges(store, cmp, a, f);
    }
    forall r | Concerns(store, cmp, a, r)
      ensures exists f :: f in Check(store, cmp, a).value && f.osvId == r.osvId
    {
      var f := FindingOfRow(store, cmp, a, r);
    }
  }

  /** A row that concerns the artifact for each finding. */
  lemma RowOfFinding(store: Store, cmp: Comparators, a: Artifact, f: Finding) returns (r: PackageRow)
    requires Check(store, cmp, a).Ok? && f in Check(store, cmp, a).value
    ensures Concerns(store, cmp, a, r) && r.osvId == f.osvId
  {
    FindingMerges(store, cmp, a, f);
    r :| Concerns(store, cmp, a, r) && r.osvId == f.osvId;
  }
}
