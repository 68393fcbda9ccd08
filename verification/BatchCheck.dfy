/** The grouped, chunked batch check, proved equal to checking each artifact alone. */
module BatchCheck {
  import opened Prelude
  import opened Findings
  import opened StoreQueries

  const EXACT_VERSION_BATCH_SIZE: nat := 512

  // ---- Exact hits of many versions ----

  lemma {:induction false} RowFindingsOk(rows: seq<PackageRow>)
    ensures RowFindings(rows).Ok? <==> forall row :: row in rows ==> RowFinding(row).Ok?
  {
    if rows != [] {
      RowFindingsOk(rows[..|rows| - 1]);
      assert rows == rows[..|rows| - 1] + [rows[|rows| - 1]];
    }
  }

  function Tag(version: string, rows: seq<PackageRow>): (r: seq<(string, PackageRow)>)
    ensures |r| == |rows| && forall i :: 0 <= i < |r| ==> r[i] == (version, rows[i])
  {
    if rows == [] then [] else [(version, rows[0])] + Tag(version, rows[1..])
  }

  /** By query version, the rows that the statement asking for it sees. */
  type RowsSeen = string -> seq<PackageRow>

  /** The rows one statement selects for a chunk of versions, grouped by version. */
  function SelectIn(rows: RowsSeen, name: string, versions: seq<string>): seq<(string, PackageRow)> {
    if versions == [] then []
    else Tag(versions[0], ExactRows(rows(versions[0]), name, versions[0])) + SelectIn(rows, name, versions[1..])
  }

  function Tagged(selected: seq<(string, PackageRow)>, version: string): seq<PackageRow> {
    if selected == [] then []
    else
      var front, last := Tagged(selected[..|selected| - 1], version), selected[|selected| - 1];
      if last.0 == version then front + [last.1] else front
  }

  lemma {:induction false} TaggedConcat(a: seq<(string, PackageRow)>, b: seq<(string, PackageRow)>, version: string)
    ensures Tagged(a + b, version) == Tagged(a, version) + Tagged(b, version)
  {
    if b == [] {
      assert a + b == a;
    } else {
      assert (a + b)[..|a + b| - 1] == a + b[..|b| - 1];
      TaggedConcat(a, b[..|b| - 1], version);
    }
  }

  lemma TagSnoc(tag: string, rows: seq<PackageRow>)
    requires rows != []
    ensures Tag(tag, rows) == Tag(tag, rows[..|rows| - 1]) + [(tag, rows[|rows| - 1])]
  {
  }

  lemma {:induction false} TaggedTag(rows: seq<PackageRow>, tag: string, version: string)
    ensures Tagged(Tag(tag, rows), version) == if tag == version then rows else []
  {
    if rows != [] {
      var front, last := rows[..|rows| - 1], rows[|rows| - 1];
      TagSnoc(tag, rows);
      TaggedTag(front, tag, version);
      assert (Tag(tag, front) + [(tag, last)])[..|front|] == Tag(tag, front);
      assert rows == front + [last];
    }
  }

  /** Selecting in a chunk of distinct versions gives each version its own exact rows. */
  lemma {:induction false} SelectInGroups(rows: RowsSeen, name: string, versions: seq<string>, version: string)
    requires Injective(versions)
    ensures Tagged(SelectIn(rows, name, versions), version) ==
      if version in versions then ExactRows(rows(version), name, version) else []
  {
    if versions != [] {
      var exact := ExactRows(rows(versions[0]), name, versions[0]);
      TaggedConcat(Tag(versions[0], exact), SelectIn(rows, name, versions[1..]), version);
      TaggedTag(exact, versions[0], version);
      SelectInGroups(rows, name, versions[1..], version);
    }
  }

  lemma {:induction false} SelectInMembers(rows: RowsSeen, name: string, versions: seq<string>, j: nat)
    requires j < |SelectIn(rows, name, versions)|
    ensures var (version, row) := SelectIn(rows, name, versions)[j];
      version in versions && row in ExactRows(rows(version), name, version)
  {
    var first := Tag(versions[0], ExactRows(rows(versions[0]), name, versions[0]));
    if j < |first| {
      assert ExactRows(rows(versions[0]), name, versions[0])[j] in ExactRows(rows(versions[0]), name, versions[0]);
    } else {
      SelectInMembers(rows, name, versions[1..], j - |first|);
    }
  }

  type Hits = map<string, seq<Finding>>

  function GetOr(hits: Hits, version: string): seq<Finding> {
    if version in hits then hits[version] else []
  }

  lemma RowFindingsSnoc(rows: seq<PackageRow>, row: PackageRow, found: seq<Finding>, finding: Finding)
    requires RowFindings(rows) == Ok(found) && RowFinding(row) == Ok(finding)
    ensures RowFindings(rows + [row]) == Ok(found + [finding])
  {
    assert (rows + [row])[..|rows|] == rows;
  }

  lemma TaggedStep(selected: seq<(string, PackageRow)>, j: nat, q: string)
    requires j < |selected|
    ensures Tagged(selected[..j + 1], q) ==
      if selected[j].0 == q then Tagged(selected[..j], q) + [selected[j].1] else Tagged(selected[..j], q)
  {
    assert selected[..j + 1][..j] == selected[..j];
  }

  /** Filing one more row keeps each version's hits in step with its rows. */
  lemma FileRow(selected: seq<(string, PackageRow)>, j: nat, hits: Hits, finding: Finding, q: string)
    requires j < |selected| && RowFinding(selected[j].1) == Ok(finding)
    requires RowFindings(Tagged(selected[..j], q)) == Ok(GetOr(hits, q))
    ensures var version := selected[j].0;
      RowFindings(Tagged(selected[..j + 1], q)) == Ok(GetOr(hits[version := GetOr(hits, version) + [finding]], q))
  {
    TaggedStep(selected, j, q);
    if selected[j].0 == q {
      RowFindingsSnoc(Tagged(selected[..j], q), selected[j].1, GetOr(hits, q), finding);
    }
  }

  /** Run one statement and file its rows under their versions. */
  method SelectChunk(rows: RowsSeen, name: string, chunk: seq<string>, before: Hits)
    returns (r: Result<Hits, CheckError>)
    requires |chunk| <= 512 && Injective(chunk) && forall q :: q in chunk ==> q !in before
    ensures r.Ok? ==> forall q :: q in chunk ==> RowFindings(ExactRows(rows(q), name, q)) == Ok(GetOr(r.value, q))
    ensures r.Ok? ==> forall q :: q !in chunk ==> (q in r.value <==> q in before) && GetOr(r.value, q) == GetOr(before, q)
    ensures r.Err? ==> exists q :: q in chunk && RowFindings(ExactRows(rows(q), name, q)).Err?
  {
    var selected := SelectIn(rows, name, chunk);
    var hits := before;
    for j := 0 to |selected|
      invariant forall q :: q in chunk ==> RowFindings(Tagged(selected[..j], q)) == Ok(GetOr(hits, q))
      invariant forall q :: q !in chunk ==> (q in hits <==> q in before) && GetOr(hits, q) == GetOr(before, q)
    {
      var (version, row) := selected[j];
      SelectInMembers(rows, name, chunk, j);
      var finding := RowFinding(row);
      if finding.Err? {
        RowFindingsOk(ExactRows(rows(version), name, version));
        return Err(finding.error);
      }
      forall q | q in chunk
        ensures RowFindings(Tagged(selected[..j + 1], q)) ==
          Ok(GetOr(hits[version := GetOr(hits, version) + [finding.value]], q))
      {
        FileRow(selected, j, hits, finding.value, q);
      }
      hits := hits[version := GetOr(hits, version) + [finding.value]];
    }
    assert selected[..|selected|] == selected;
    forall q | q in chunk
      ensures RowFindings(ExactRows(rows(q), name, q)) == Ok(GetOr(hits, q))
    {
      SelectInGroups(rows, name, chunk, q);
    }
    return Ok(hits);
  }

  /** All query versions, a bounded number at a time. */
  method SelectAll(rows: RowsSeen, name: string, queries: seq<string>) returns (r: Result<Hits, CheckError>)
    requires Injective(queries)
    ensures r.Ok? ==> forall q :: q in queries ==> RowFindings(ExactRows(rows(q), name, q)) == Ok(GetOr(r.value, q))
    ensures r.Err? ==> exists q :: q in queries && RowFindings(ExactRows(rows(q), name, q)).Err?
  {
    var hits: Hits := map[];
    var start := 0;
    while start < |queries|
      invariant 0 <= start <= |queries|
      invariant forall q :: q in queries[..start] ==> RowFindings(ExactRows(rows(q), name, q)) == Ok(GetOr(hits, q))
      invariant forall q :: q !in queries[..start] ==> q !in hits
    {
      var end := if start + EXACT_VERSION_BATCH_SIZE < |queries| then start + EXACT_VERSION_BATCH_SIZE else |queries|;
      var chunk := queries[start..end];
      assert queries[..end] == queries[..start] + chunk;
      assert forall q :: q in chunk ==> q !in queries[..start];
      var step := SelectChunk(rows, name, chunk, hits);
      if step.Err? {
        assert forall q :: q in chunk ==> q in queries;
        return step;
      }
      hits := step.value;
      start := end;
    }
    assert queries[..start] == queries;
    return Ok(hits);
  }

  method Enumerate<T(==)>(s: set<T>) returns (list: seq<T>)
    ensures Injective(list) && forall x :: x in list <==> x in s
    ensures |list| == |s|
  {
    list := [];
    var rest := s;
    while rest != {}
      invariant Injective(list) && rest <= s
      invariant forall x :: x in list <==> x in s && x !in rest
      invariant |list| + |rest| == |s|
      decreases rest
    {
      var x :| x in rest;
      list := list + [x];
      rest := rest - {x};
    }
  }

  /** Each query version lists input versions that query like it. */
  ghost predicate Sound(e: Ecosystem, versions: seq<string>, inputs: map<string, seq<string>>) {
    forall q, v :: q in inputs && v in inputs[q] ==> v in versions && QueryVersion(e, v) == q
  }

  ghost predicate Files(e: Ecosystem, inputs: map<string, seq<string>>, v: string) {
    QueryVersion(e, v) in inputs && v in inputs[QueryVersion(e, v)]
  }

  type Inputs = map<string, seq<string>>

  /** File one more input version behind its query version. */
  function FileInput(e: Ecosystem, inputs: Inputs, v: string): Inputs {
    var q := QueryVersion(e, v);
    inputs[q := (if q in inputs then inputs[q] else []) + [v]]
  }

  lemma FilingKeepsInputs(e: Ecosystem, inputs: Inputs, v: string, w: string)
    requires w == v || Files(e, inputs, w)
    ensures Files(e, FileInput(e, inputs, v), w)
  {
  }

  /** Collect the input versions behind each query version. */
  method GroupByQuery(e: Ecosystem, versions: seq<string>) returns (inputs: Inputs)
    ensures Sound(e, versions, inputs) && forall q :: q in inputs ==> inputs[q] != []
    ensures forall v :: v in versions ==> Files(e, inputs, v)
  {
    inputs := map[];
    for i := 0 to |versions|
      invariant Sound(e, versions, inputs) && forall q :: q in inputs ==> inputs[q] != []
      invariant forall k :: 0 <= k < i ==> Files(e, inputs, versions[k])
    {
      forall k | 0 <= k <= i
        ensures Files(e, FileInput(e, inputs, versions[i]), versions[k])
      {
        FilingKeepsInputs(e, inputs, versions[i], versions[k]);
      }
      inputs := FileInput(e, inputs, versions[i]);
    }
  }

  /** Hand each query version's consolidated hits to its input versions. */
  method Spread(
    rows: RowsSeen, e: Ecosystem, name: string, versions: seq<string>, inputs: map<string, seq<string>>,
    queries: seq<string>, found: Hits)
    returns (result: Hits)
    requires Sound(e, versions, inputs)
    requires forall q :: q in queries <==> q in inputs
    requires forall q :: q in queries ==> RowFindings(ExactRows(rows(q), name, q)) == Ok(GetOr(found, q))
    ensures forall v :: v in versions && Files(e, inputs, v) ==>
      v in result && ExactHits(rows(QueryVersion(e, v)), name, QueryVersion(e, v)) == Ok(result[v])
  {
    result := map[];
    for i := 0 to |queries|
      invariant forall v :: v in result ==> ExactHits(rows(QueryVersion(e, v)), name, QueryVersion(e, v)) == Ok(result[v])
      invariant forall k, v :: 0 <= k < i && v in inputs[queries[k]] ==> v in result
    {
      var q := queries[i];
      var hits := ConsolidateLocalFindings(GetOr(found, q));
      assert ExactHits(rows(q), name, q) == Ok(hits);
      var added := map v | v in inputs[q] :: hits;
      result := result + added;
    }
  }

  /** Exact hits of every version of one package, versions that query alike sharing one lookup. */
  method ExactHitsForVersions(rows: RowsSeen, e: Ecosystem, name: string, versions: seq<string>)
    returns (r: Result<Hits, CheckError>)
    ensures r.Ok? ==> forall v :: v in versions ==> v in r.value && ExactHits(rows(QueryVersion(e, v)), name, QueryVersion(e, v)) == Ok(r.value[v])
    ensures r.Err? ==> exists v :: v in versions && ExactHits(rows(QueryVersion(e, v)), name, QueryVersion(e, v)).Err?
  {
    var inputs := GroupByQuery(e, versions);
    var queries := Enumerate(inputs.Keys);
    var selected := SelectAll(rows, name, queries);
    if selected.Err? {
      var q :| q in queries && RowFindings(ExactRows(rows(q), name, q)).Err?;
      var v := inputs[q][0];
      assert v in inputs[q] && ExactHits(rows(QueryVersion(e, v)), name, QueryVersion(e, v)).Err?;
      return Err(selected.error);
    }
    var result := Spread(rows, e, name, versions, inputs, queries, selected.value);
    return Ok(result);
  }

  // ---- One package ----

  lemma {:induction false} MatchingFails(cmp: Comparators, ranges: seq<AdvisoryRange>, e: Ecosystem, version: string, n: nat)
    requires n <= |ranges| && MatchingRanges(cmp, ranges[..n], e, version).Err?
    ensures MatchingRanges(cmp, ranges, e, version).Err?
  {
    if n == |ranges| {
      assert ranges[..n] == ranges;
    } else {
      assert ranges[..|ranges| - 1][..n] == ranges[..n];
      MatchingFails(cmp, ranges[..|ranges| - 1], e, version, n);
    }
  }

  /** The exact hits of one version, by what its statement sees. */
  function ExactOf(store: Store, e: Ecosystem, name: string, version: string): Result<seq<Finding>, CheckError> {
    ExactHits(store.exact(e, name, QueryVersion(e, version)), name, QueryVersion(e, version))
  }

  /** Exact hits and matching ranges of one version, consolidated once. */
  method CheckVersion(
    store: Store, cmp: Comparators, a: Artifact, exact: seq<Finding>, ranges: seq<AdvisoryRange>)
    returns (r: Result<seq<Finding>, CheckError>)
    requires store.healthy(a.ecosystem)
    requires ExactOf(store, a.ecosystem, a.name, a.version) == Ok(exact)
    requires StoredRanges(store.ranges(a.ecosystem, a.name), a.name) == Ok(ranges)
    ensures r.Ok? <==> Check(store, cmp, a).Ok?
    ensures r.Ok? ==> r == Check(store, cmp, a)
  {
    var hits := exact;
    ghost var matched: seq<Finding> := [];
    for i := 0 to |ranges|
      invariant MatchingRanges(cmp, ranges[..i], a.ecosystem, a.version) == Ok(matched)
      invariant hits == exact + matched
    {
      assert ranges[..i + 1][..i] == ranges[..i];
      var matches := RangeMatches(cmp, ranges[i].range, a.ecosystem, a.version);
      if matches.Err? {
        MatchingFails(cmp, ranges, a.ecosystem, a.version, i + 1);
        return Err(matches.error);
      }
      if matches.value {
        hits := hits + [ranges[i].advisory];
        matched := matched + [ranges[i].advisory];
      }
    }
    assert ranges[..|ranges|] == ranges;
    ConsolidateParts(exact, matched);
    var consolidated := ConsolidateLocalFindings(hits);
    return Ok(consolidated);
  }

  // ---- All packages ----

  type Package = (Ecosystem, string)

  function PackageOf(a: Artifact): Package {
    (a.ecosystem, a.name)
  }

  type Groups = map<Package, map<string, seq<nat>>>

  /** This position is filed under its own package and version. */
  ghost predicate FiledAt(artifacts: seq<Artifact>, groups: Groups, i: nat)
    requires i < |artifacts|
  {
    var a := artifacts[i];
    PackageOf(a) in groups && a.version in groups[PackageOf(a)] && i in groups[PackageOf(a)][a.version]
  }

  /** A version's positions exist, are of that package and version, and there is one at least. */
  ghost predicate GroupOk(artifacts: seq<Artifact>, p: Package, versions: map<string, seq<nat>>) {
    && versions != map[]
    && forall v :: v in versions ==> versions[v] != [] && forall i :: i in versions[v] ==>
         i < |artifacts| && PackageOf(artifacts[i]) == p && artifacts[i].version == v
  }

  /** File one more position under its package and version. */
  function FileUnder(groups: Groups, a: Artifact, n: nat): Groups {
    var versions := if PackageOf(a) in groups then groups[PackageOf(a)] else map[];
    var indexes := if a.version in versions then versions[a.version] else [];
    groups[PackageOf(a) := versions[a.version := indexes + [n]]]
  }

  lemma FilingKeepsPositions(artifacts: seq<Artifact>, groups: Groups, n: nat, i: nat)
    requires n < |artifacts| && i <= n && (i < n ==> FiledAt(artifacts, groups, i))
    ensures FiledAt(artifacts, FileUnder(groups, artifacts[n], n), i)
  {
  }

  lemma FilingKeepsGroups(artifacts: seq<Artifact>, groups: Groups, n: nat, p: Package)
    requires n < |artifacts| && (p in groups ==> GroupOk(artifacts, p, groups[p]))
    ensures p in FileUnder(groups, artifacts[n], n) ==>
      GroupOk(artifacts, p, FileUnder(groups, artifacts[n], n)[p])
  {
  }

  method GroupArtifacts(artifacts: seq<Artifact>) returns (groups: Groups)
    ensures forall i {:trigger FiledAt(artifacts, groups, i)} :: 0 <= i < |artifacts| ==> FiledAt(artifacts, groups, i)
    ensures forall p {:trigger GroupOk(artifacts, p, groups[p])} :: p in groups ==> GroupOk(artifacts, p, groups[p])
    ensures groups.Keys == set a | a in artifacts :: PackageOf(a)
  {
    groups := map[];
    for n := 0 to |artifacts|
      invariant forall i {:trigger FiledAt(artifacts, groups, i)} :: 0 <= i < n ==> FiledAt(artifacts, groups, i)
      invariant forall p {:trigger GroupOk(artifacts, p, groups[p])} :: p in groups ==> GroupOk(artifacts, p, groups[p])
      invariant groups.Keys == set a | a in artifacts[..n] :: PackageOf(a)
    {
      forall i: nat | i <= n
        ensures FiledAt(artifacts, FileUnder(groups, artifacts[n], n), i)
      {
        FilingKeepsPositions(artifacts, groups, n, i);
      }
      forall p | p in FileUnder(groups, artifacts[n], n)
        ensures GroupOk(artifacts, p, FileUnder(groups, artifacts[n], n)[p])
      {
        FilingKeepsGroups(artifacts, groups, n, p);
      }
      groups := FileUnder(groups, artifacts[n], n);
      assert artifacts[..n + 1] == artifacts[..n] + [artifacts[n]];
    }
    assert artifacts[..|artifacts|] == artifacts;
  }

  /** The result at this position is what checking its artifact alone gives. */
  ghost predicate Agrees(
    store: Store, cmp: Comparators, artifacts: seq<Artifact>, results: seq<seq<Finding>>, i: nat)
  {
    i < |artifacts| == |results| && Check(store, cmp, artifacts[i]) == Ok(results[i])
  }

  lemma SameCheck(store: Store, cmp: Comparators, a: Artifact, b: Artifact)
    requires PackageOf(a) == PackageOf(b) && a.version == b.version
    ensures Check(store, cmp, a) == Check(store, cmp, b)
  {
  }

  ghost predicate AllAgree(
    store: Store, cmp: Comparators, artifacts: seq<Artifact>, results: seq<seq<Finding>>, indexes: seq<nat>)
  {
    forall i :: i in indexes ==> Agrees(store, cmp, artifacts, results, i)
  }

  /** What agreed before still agrees. */
  ghost predicate Keeps(
    store: Store, cmp: Comparators, artifacts: seq<Artifact>, before: seq<seq<Finding>>, after: seq<seq<Finding>>)
  {
    && |after| == |artifacts|
    && forall i :: Agrees(store, cmp, artifacts, before, i) ==> Agrees(store, cmp, artifacts, after, i)
  }

  /** Copy one version's findings to every position that asked for it. */
  method Assign(
    ghost store: Store, ghost cmp: Comparators, ghost artifacts: seq<Artifact>, ghost first: Artifact, indexes: seq<nat>,
    before: seq<seq<Finding>>, findings: seq<Finding>)
    returns (results: seq<seq<Finding>>)
    requires |before| == |artifacts| && Check(store, cmp, first) == Ok(findings)
    requires forall i :: i in indexes ==>
      i < |artifacts| && PackageOf(artifacts[i]) == PackageOf(first) && artifacts[i].version == first.version
    ensures AllAgree(store, cmp, artifacts, results, indexes)
    ensures Keeps(store, cmp, artifacts, before, results)
  {
    results := before;
    for k := 0 to |indexes|
      invariant forall j :: 0 <= j < k ==> Agrees(store, cmp, artifacts, results, indexes[j])
      invariant Keeps(store, cmp, artifacts, before, results)
    {
      var i := indexes[k];
      assert i in indexes;
      SameCheck(store, cmp, artifacts[i], first);
      results := results[i := findings];
    }
  }

  lemma AgreementCarries(
    store: Store, cmp: Comparators, artifacts: seq<Artifact>, before: seq<seq<Finding>>, after: seq<seq<Finding>>,
    indexes: seq<nat>)
    requires AllAgree(store, cmp, artifacts, before, indexes) && Keeps(store, cmp, artifacts, before, after)
    ensures AllAgree(store, cmp, artifacts, after, indexes)
  {
  }

  /** A version's first position stands for all of them. */
  lemma FirstOf(artifacts: seq<Artifact>, p: Package, versions: map<string, seq<nat>>, v: string)
    requires GroupOk(artifacts, p, versions) && v in versions
    ensures versions[v] != [] && versions[v][0] < |artifacts|
    ensures PackageOf(artifacts[versions[v][0]]) == p && artifacts[versions[v][0]].version == v
    ensures forall i :: i in versions[v] ==>
      i < |artifacts| && PackageOf(artifacts[i]) == p && artifacts[i].version == v
  {
    assert versions[v][0] in versions[v];
  }

  /** These are the exact hits of a version of a package. */
  ghost predicate ExactFor(store: Store, p: Package, v: string, exact: Hits) {
    v in exact && ExactOf(store, p.0, p.1, v) == Ok(exact[v])
  }

  ghost predicate SomeCheckFails(store: Store, cmp: Comparators, artifacts: seq<Artifact>) {
    exists i :: 0 <= i < |artifacts| && Check(store, cmp, artifacts[i]).Err?
  }

  /** Check one version and hand its findings to every position that asked for it. */
  method CheckAndAssign(
    store: Store, cmp: Comparators, artifacts: seq<Artifact>, p: Package, versions: map<string, seq<nat>>, v: string,
    ranges: seq<AdvisoryRange>, exact: Hits, before: seq<seq<Finding>>)
    returns (r: Result<seq<seq<Finding>>, CheckError>)
    requires GroupOk(artifacts, p, versions) && |before| == |artifacts| && store.healthy(p.0) && v in versions
    requires StoredRanges(store.ranges(p.0, p.1), p.1) == Ok(ranges)
    requires ExactFor(store, p, v, exact)
    ensures r.Err? ==> SomeCheckFails(store, cmp, artifacts)
    ensures r.Ok? ==> Keeps(store, cmp, artifacts, before, r.value)
    ensures r.Ok? ==> AllAgree(store, cmp, artifacts, r.value, versions[v])
  {
    FirstOf(artifacts, p, versions, v);
    var first := artifacts[versions[v][0]];
    var checked := CheckVersion(store, cmp, first, exact[v], ranges);
    if checked.Err? {
      assert Check(store, cmp, artifacts[versions[v][0]]).Err?;
      return Err(checked.error);
    }
    var results := Assign(store, cmp, artifacts, first, versions[v], before, checked.value);
    return Ok(results);
  }

  /** Check every version of one package with the package's ranges and exact hits at hand. */
  method CheckVersions(
    store: Store, cmp: Comparators, artifacts: seq<Artifact>, p: Package, versions: map<string, seq<nat>>,
    names: seq<string>, ranges: seq<AdvisoryRange>, exact: Hits, before: seq<seq<Finding>>)
    returns (r: Result<seq<seq<Finding>>, CheckError>)
    requires GroupOk(artifacts, p, versions) && |before| == |artifacts| && store.healthy(p.0)
    requires forall v :: v in names <==> v in versions
    requires StoredRanges(store.ranges(p.0, p.1), p.1) == Ok(ranges)
    requires forall v {:trigger ExactFor(store, p, v, exact)} :: v in names ==> ExactFor(store, p, v, exact)
    ensures r.Err? ==> SomeCheckFails(store, cmp, artifacts)
    ensures r.Ok? ==> Keeps(store, cmp, artifacts, before, r.value)
    ensures r.Ok? ==> forall v :: v in versions ==> AllAgree(store, cmp, artifacts, r.value, versions[v])
  {
    var results := before;
    for n := 0 to |names|
      invariant Keeps(store, cmp, artifacts, before, results)
      invariant forall k :: 0 <= k < n ==> AllAgree(store, cmp, artifacts, results, versions[names[k]])
    {
      var v := names[n];
      assert v in names && ExactFor(store, p, v, exact);
      var checked := CheckAndAssign(store, cmp, artifacts, p, versions, v, ranges, exact, results);
      if checked.Err? {
        return checked;
      }
      forall k | 0 <= k < n
        ensures AllAgree(store, cmp, artifacts, checked.value, versions[names[k]])
      {
        AgreementCarries(store, cmp, artifacts, results, checked.value, versions[names[k]]);
      }
      results := checked.value;
    }
    return Ok(results);
  }

  /** A package whose ranges or one of whose versions cannot be read fails every check that reads them. */
  lemma UnreadableFails(store: Store, cmp: Comparators, a: Artifact)
    requires StoredRanges(store.ranges(a.ecosystem, a.name), a.name).Err? || ExactOf(store, a.ecosystem, a.name, a.version).Err?
    ensures Check(store, cmp, a).Err?
  {
  }

  method CheckPackage(
    store: Store, cmp: Comparators, artifacts: seq<Artifact>, p: Package, versions: map<string, seq<nat>>,
    before: seq<seq<Finding>>)
    returns (r: Result<seq<seq<Finding>>, CheckError>)
    requires GroupOk(artifacts, p, versions) && |before| == |artifacts| && store.healthy(p.0)
    ensures r.Err? ==> SomeCheckFails(store, cmp, artifacts)
    ensures r.Ok? ==> Keeps(store, cmp, artifacts, before, r.value)
    ensures r.Ok? ==> forall v :: v in versions ==> AllAgree(store, cmp, artifacts, r.value, versions[v])
  {
    var names := Enumerate(versions.Keys);
    var ranges := StoredRanges(store.ranges(p.0, p.1), p.1);
    if ranges.Err? {
      var v: string :| v in versions;
      FirstOf(artifacts, p, versions, v);
      UnreadableFails(store, cmp, artifacts[versions[v][0]]);
      return Err(ranges.error);
    }
    var exact := ExactHitsForVersions(query => store.exact(p.0, p.1, query), p.0, p.1, names);
    if exact.Err? {
      var v :| v in names && ExactOf(store, p.0, p.1, v).Err?;
      FirstOf(artifacts, p, versions, v);
      UnreadableFails(store, cmp, artifacts[versions[v][0]]);
      return Err(exact.error);
    }
    assert forall v :: v in names ==> ExactFor(store, p, v, exact.value);
    r := CheckVersions(store, cmp, artifacts, p, versions, names, ranges.value, exact.value, before);
  }

  /** Every position of this package agrees. */
  ghost predicate PackageDone(
    store: Store, cmp: Comparators, artifacts: seq<Artifact>, results: seq<seq<Finding>>, versions: map<string, seq<nat>>)
  {
    forall v :: v in versions ==> AllAgree(store, cmp, artifacts, results, versions[v])
  }

  /** Check package by package. */
  method CheckPackages(
    store: Store, cmp: Comparators, artifacts: seq<Artifact>, groups: Groups, packages: seq<Package>)
    returns (r: Result<seq<seq<Finding>>, CheckError>, rangePackageLoads: nat)
    requires forall p {:trigger GroupOk(artifacts, p, groups[p])} :: p in groups ==> GroupOk(artifacts, p, groups[p])
    requires forall p :: p in packages ==> p in groups && store.healthy(p.0)
    ensures r.Err? ==> SomeCheckFails(store, cmp, artifacts)
    ensures r.Ok? ==> |r.value| == |artifacts| && rangePackageLoads == |packages|
    ensures r.Ok? ==> forall p :: p in packages ==> PackageDone(store, cmp, artifacts, r.value, groups[p])
  {
    rangePackageLoads := 0;
    var results: seq<seq<Finding>> := seq(|artifacts|, _ => []);
    for n := 0 to |packages|
      invariant |results| == |artifacts| && rangePackageLoads == n
      invariant forall k :: 0 <= k < n ==> PackageDone(store, cmp, artifacts, results, groups[packages[k]])
    {
      var p := packages[n];
      assert p in packages && GroupOk(artifacts, p, groups[p]);
      var checked := CheckPackage(store, cmp, artifacts, p, groups[p], results);
      if checked.Err? {
        return Err(checked.error), rangePackageLoads;
      }
      ghost var before := results;
      results := checked.value;
      rangePackageLoads := rangePackageLoads + 1;
      forall k | 0 <= k < n
        ensures PackageDone(store, cmp, artifacts, results, groups[packages[k]])
      {
        assert PackageDone(store, cmp, artifacts, before, groups[packages[k]]);
        forall v | v in groups[packages[k]]
          ensures AllAgree(store, cmp, artifacts, results, groups[packages[k]][v])
        {
          AgreementCarries(store, cmp, artifacts, before, results, groups[packages[k]][v]);
        }
      }
    }
    return Ok(results), rangePackageLoads;
  }

  /**
   The batch succeeds exactly when every artifact's own check succeeds on what the
   batch's statements see, and then its results are those checks in order, whatever
   duplicates, packages and versions are mixed and whatever commits fall between the
   statements.  Ranges are loaded once per package.
   */
  method CheckMany(store: Store, cmp: Comparators, artifacts: seq<Artifact>)
    returns (r: Result<seq<seq<Finding>>, CheckError>, rangePackageLoads: nat)
    ensures r.Ok? <==> forall i :: 0 <= i < |artifacts| ==> Check(store, cmp, artifacts[i]).Ok?
    ensures r.Ok? ==> |r.value| == |artifacts|
    ensures r.Ok? ==> forall i :: 0 <= i < |artifacts| ==> Check(store, cmp, artifacts[i]) == Ok(r.value[i])
    ensures r.Ok? ==> rangePackageLoads == |set a | a in artifacts :: PackageOf(a)|
  {
    rangePackageLoads := 0;
    for i := 0 to |artifacts|
      invariant forall k :: 0 <= k < i ==> store.healthy(artifacts[k].ecosystem)
    {
      if !store.healthy(artifacts[i].ecosystem) {
        assert Check(store, cmp, artifacts[i]).Err?;
        return Err(Unhealthy(artifacts[i].ecosystem)), rangePackageLoads;
      }
    }
    var groups := GroupArtifacts(artifacts);
    var packages := Enumerate(groups.Keys);
    r, rangePackageLoads := CheckPackages(store, cmp, artifacts, groups, packages);
    if r.Ok? {
      forall i | 0 <= i < |artifacts|
        ensures Check(store, cmp, artifacts[i]) == Ok(r.value[i])
      {
        assert FiledAt(artifacts, groups, i);
        assert PackageDone(store, cmp, artifacts, r.value, groups[PackageOf(artifacts[i])]);
        assert AllAgree(store, cmp, artifacts, r.value, groups[PackageOf(artifacts[i])][artifacts[i].version]);
        assert Agrees(store, cmp, artifacts, r.value, i);
      }
    }
  }
}
