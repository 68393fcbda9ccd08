/** The store as a query sees it, and the check of one artifact. */
module StoreQueries {
  import opened Prelude
  import opened Text
  import opened Findings
  import opened RangeEvents
  import OsvStore

  datatype Artifact = Artifact(ecosystem: Ecosystem, name: string, version: string, publishedAt: Option<int>)

  datatype StoredRange = StoredRange(kind: string, events: seq<Event>)

  /** One affected package of one advisory.  `modified` may hold text that does not parse as a timestamp. */
  datatype PackageRow = PackageRow(
    osvId: string, summary: Option<string>, source: string, modified: Result<Option<nat>, string>, name: string,
    severity: Option<EffectiveSeverity>, severityError: Option<string>, versions: seq<string>, ranges: seq<StoredRange>)

  datatype CheckError = Unhealthy(ecosystem: Ecosystem) | BadTimestamp(text: string) | RangeFailure

  /**
   What the statements of one check, or of one batch of checks, see.  There is no
   transaction around them, so each has rows of its own: the health of an ecosystem;
   for the exact hits, by ecosystem, package and query version, the rows that the
   statement asking for that version sees; and for the ranges, by ecosystem and
   package, the rows that the statement asking for that package sees.  Rows are those
   of the active generation that are not withdrawn, in a fixed order.
   */
  datatype Store = Store(
    healthy: Ecosystem -> bool,
    exact: (Ecosystem, string, string) -> seq<PackageRow>,
    ranges: (Ecosystem, string) -> seq<PackageRow>)

  /**
   Version comparison as the ecosystems' own libraries do it: whether a version
   parses, and how it compares to a boundary if both parse.
   */
  datatype Comparators = Comparators(
    parses: (Ecosystem, string) -> bool, compare: (Ecosystem, string, string) -> Option<Ordering>)

  predicate Contains(s: string, c: char) {
    c in s
  }

  predicate HasDoubleDot(s: string) {
    exists i :: 0 <= i < |s| - 1 && s[i] == '.' && s[i + 1] == '.'
  }

  const INCOMPATIBLE := "+incompatible"

  /** OSV's spelling of a Go version: no leading `v`, no compatibility suffix. */
  function GoOsvVersion(version: string): Option<string> {
    if version == "" || version[0] != 'v' || Contains(version, '/') || Contains(version, '!') || HasDoubleDot(version)
    then None
    else
      var rest := version[1..];
      if |rest| >= |INCOMPATIBLE| && rest[|rest| - |INCOMPATIBLE|..] == INCOMPATIBLE
      then Some(rest[..|rest| - |INCOMPATIBLE|])
      else Some(rest)
  }

  function QueryVersion(e: Ecosystem, version: string): string {
    if e.Go? && GoOsvVersion(version).Some? then GoOsvVersion(version).value else version
  }

  function RowFinding(row: PackageRow): Result<Finding, CheckError> {
    match row.modified
    case Err(text) => Err(BadTimestamp(text))
    case Ok(modified) =>
      Ok(Finding(row.osvId, row.summary, row.source, modified, row.severity, row.severityError))
  }

  /** Convert rows in order, failing at the first that does not convert. */
  function RowFindings(rows: seq<PackageRow>): Result<seq<Finding>, CheckError> {
    if rows == [] then Ok([])
    else match RowFindings(rows[..|rows| - 1])
      case Err(error) => Err(error)
      case Ok(front) =>
        match RowFinding(rows[|rows| - 1])
        case Err(error) => Err(error)
        case Ok(last) => Ok(front + [last])
  }

  function ExactRows(rows: seq<PackageRow>, name: string, version: string): seq<PackageRow> {
    if rows == [] then []
    else
      var front := ExactRows(rows[..|rows| - 1], name, version);
      var last := rows[|rows| - 1];
      if last.name == name && version in last.versions then front + [last] else front
  }

  function ExactHits(rows: seq<PackageRow>, name: string, version: string): Result<seq<Finding>, CheckError> {
    match RowFindings(ExactRows(rows, name, version))
    case Err(error) => Err(error)
    case Ok(findings) => Ok(Consolidate(findings))
  }

  datatype AdvisoryRange = AdvisoryRange(advisory: Finding, range: StoredRange)

  function RangesOf(advisory: Finding, ranges: seq<StoredRange>): seq<AdvisoryRange> {
    if ranges == [] then [] else [AdvisoryRange(advisory, ranges[0])] + RangesOf(advisory, ranges[1..])
  }

  /** The package's ranges; a row without ranges is not read. */
  function StoredRanges(rows: seq<PackageRow>, name: string): Result<seq<AdvisoryRange>, CheckError> {
    if rows == [] then Ok([])
    else match StoredRanges(rows[..|rows| - 1], name)
      case Err(error) => Err(error)
      case Ok(front) =>
        var last := rows[|rows| - 1];
        if last.name != name || last.ranges == [] then Ok(front)
        else match RowFinding(last)
          case Err(error) => Err(error)
          case Ok(advisory) => Ok(front + RangesOf(advisory, last.ranges))
  }

  /** The range types each ecosystem understands. */
  predicate Supported(e: Ecosystem, kind: string) {
    match e
    case Npm => kind == "SEMVER"
    case Go => kind == "SEMVER" || kind == "ECOSYSTEM"
    case CratesIo => kind == "SEMVER" || kind == "ECOSYSTEM"
    case Pypi | Nuget | RubyGems | Maven => kind == "ECOSYSTEM"
  }

  /** Some libraries parse the version before looking at any event; others only to compare a boundary. */
  function RangeMatches(cmp: Comparators, range: StoredRange, e: Ecosystem, version: string): Result<bool, CheckError> {
    if !Supported(e, range.kind) then Err(RangeFailure)
    else if (e.Npm? || e.Pypi? || e.CratesIo?) && !cmp.parses(e, version) then Err(RangeFailure)
    else if e.Go? && GoOsvVersion(version).None? then Err(RangeFailure)
    else
      var left := if e.Go? then "v" + GoOsvVersion(version).value else version;
      match Evaluate(boundary => cmp.compare(e, left, if e.Go? then "v" + boundary else boundary), range.events)
      case Err(_) => Err(RangeFailure)
      case Ok(affected) => Ok(affected)
  }

  /** The advisories of the matching ranges, failing at the first range that cannot be evaluated. */
  function MatchingRanges(cmp: Comparators, ranges: seq<AdvisoryRange>, e: Ecosystem, version: string)
    : Result<seq<Finding>, CheckError>
  {
    if ranges == [] then Ok([])
    else match MatchingRanges(cmp, ranges[..|ranges| - 1], e, version)
      case Err(error) => Err(error)
      case Ok(front) =>
        var last := ranges[|ranges| - 1];
        match RangeMatches(cmp, last.range, e, version)
        case Err(error) => Err(error)
        case Ok(affected) => Ok(if affected then front + [last.advisory] else front)
  }

  function RangeHits(cmp: Comparators, rows: seq<PackageRow>, e: Ecosystem, name: string, version: string)
    : Result<seq<Finding>, CheckError>
  {
    match StoredRanges(rows, name)
    case Err(error) => Err(error)
    case Ok(ranges) =>
      match MatchingRanges(cmp, ranges, e, version)
      case Err(error) => Err(error)
      case Ok(findings) => Ok(Consolidate(findings))
  }

  /** The check of one artifact. */
  function Check(store: Store, cmp: Comparators, a: Artifact): Result<seq<Finding>, CheckError> {
    if !store.healthy(a.ecosystem) then Err(Unhealthy(a.ecosystem))
    else
      var query := QueryVersion(a.ecosystem, a.version);
      match ExactHits(store.exact(a.ecosystem, a.name, query), a.name, query)
      case Err(error) => Err(error)
      case Ok(exact) =>
        match RangeHits(cmp, store.ranges(a.ecosystem, a.name), a.ecosystem, a.name, a.version)
        case Err(error) => Err(error)
        case Ok(ranges) => Ok(Consolidate(exact + ranges))
  }

  // ---- From documents to rows ----

  predicate IsCvss(kind: string) {
    kind == "CVSS_V2" || kind == "CVSS_V3" || kind == "CVSS_V4"
  }

  /** The best severity of a list; other kinds are skipped and a malformed vector fails the list. */
  function EffectiveOf(list: seq<OsvStore.Severity>): Result<Option<EffectiveSeverity>, string> {
    if list == [] then Ok(None)
    else match EffectiveOf(list[..|list| - 1])
      case Err(error) => Err(error)
      case Ok(best) =>
        var s := list[|list| - 1];
        if !IsCvss(s.kind) then Ok(best)
        else if s.score.None? then Err(s.vector)
        else Ok(BestOf(best, Some(EffectiveSeverity(s.kind, s.vector, s.score.value))))
  }

  /** A package's own severities win over the advisory's when it has any. */
  function EffectiveOsvSeverity(advisory: seq<OsvStore.Severity>, package: seq<OsvStore.Severity>)
    : Result<Option<EffectiveSeverity>, string>
  {
    EffectiveOf(if package != [] then package else advisory)
  }

  predicate IsMalicious(id: string) {
    |id| >= 4 && id[..4] == "MAL-"
  }

  function StoredEvents(events: seq<seq<(string, string)>>): seq<Event> {
    if events == [] then []
    else (if events[0] == [] then [] else [Event(events[0][0].0, events[0][0].1)]) + StoredEvents(events[1..])
  }

  function RangeRows(ranges: seq<OsvStore.RangeSpec>): seq<StoredRange> {
    if ranges == [] then []
    else [StoredRange(ranges[0].rangeType, StoredEvents(ranges[0].events))] + RangeRows(ranges[1..])
  }

  function RowOf(a: OsvStore.Advisory, p: OsvStore.Affected, name: string): PackageRow {
    var effective := if IsMalicious(a.id) then Ok(None) else EffectiveOsvSeverity(a.severity, p.severity);
    PackageRow(a.id, a.summary, "osv-gcs", Ok(a.modified), name,
               if effective.Ok? then effective.value else None,
               if effective.Ok? then None else Some(effective.error),
               p.versions, RangeRows(p.ranges))
  }

  function AdvisoryRows(a: OsvStore.Advisory, affected: seq<OsvStore.Affected>, e: Ecosystem, normalize: string -> string)
    : seq<PackageRow>
  {
    if affected == [] then []
    else
      var p := affected[0];
      (if p.ecosystem == OsvStore.OsvName(e) then [RowOf(a, p, normalize(p.name))] else [])
      + AdvisoryRows(a, affected[1..], e, normalize)
  }

  lemma {:induction false} SmallestExists(ids: set<string>)
    requires ids != {}
    ensures exists m :: m in ids && forall x :: x in ids ==> !TextLess(x, m)
  {
    var m :| m in ids;
    var rest := ids - {m};
    if rest == {} {
      TextLessOrders(m, m, m);
      assert ids == {m};
    } else {
      SmallestExists(rest);
      var n :| n in rest && forall x :: x in rest ==> !TextLess(x, n);
      var least := if TextLess(n, m) then n else m;
      forall x | x in ids
        ensures !TextLess(x, least)
      {
        TextLessOrders(x, m, n);
        TextLessOrders(n, x, m);
        TextLessOrders(m, n, x);
        TextLessOrders(x, n, m);
      }
      assert least in ids;
    }
  }

  ghost function Smallest(ids: set<string>): (m: string)
    requires ids != {}
    ensures m in ids && forall x :: x in ids ==> !TextLess(x, m)
  {
    SmallestExists(ids);
    var m :| m in ids && forall x :: x in ids ==> !TextLess(x, m);
    m
  }

  /** The rows of a set of documents, in identifier order. */
  ghost function TableOf(docs: OsvStore.Docs, ids: set<string>, e: Ecosystem, normalize: string -> string): seq<PackageRow>
    requires ids <= docs.Keys
  {
    if ids == {} then []
    else
      var smallest := Smallest(ids);
      (if docs[smallest].withdrawn.Some? then []
       else AdvisoryRows(docs[smallest], docs[smallest].affected, e, normalize))
      + TableOf(docs, ids - {smallest}, e, normalize)
  }
}
