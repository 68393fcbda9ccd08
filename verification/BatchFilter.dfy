/**
 Filtering a package's metadata with one batched OSV check: which result
 belongs to which artifact, and what the filtered document keeps.
 */
module BatchFilter {
  import opened Prelude
  import opened Findings
  import opened StoreQueries
  import opened TextParts
  import opened Policy

  type Checker = Artifact -> Result<seq<Finding>, CheckError>

  type BatchChecker = seq<Artifact> -> Result<seq<seq<Finding>>, CheckError>

  /** The artifacts that need an OSV result, in order. */
  function Checked(c: Config, artifacts: seq<Artifact>): seq<Artifact> {
    if artifacts == [] then []
    else
      var front, last := Checked(c, artifacts[..|artifacts| - 1]), artifacts[|artifacts| - 1];
      if ShouldCheckOsv(c, last) then front + [last] else front
  }

  /** What a batched check yields: as many results as artifacts, or a failure. */
  function BatchResult(checkMany: BatchChecker, checked: seq<Artifact>): (r: Result<seq<seq<Finding>>, CheckFailure>)
    ensures r.Ok? ==> |r.value| == |checked|
  {
    if checked == [] then Ok([])
    else match checkMany(checked)
      case Err(error) => Err(CheckFailed(error))
      case Ok(results) => if |results| == |checked| then Ok(results) else Err(WrongCount(|results|, |checked|))
  }

  /** An artifact that needs a result comes after exactly the ones needed before it. */
  lemma {:induction false} CheckedAt(c: Config, artifacts: seq<Artifact>, i: nat)
    requires i < |artifacts| && ShouldCheckOsv(c, artifacts[i])
    ensures |Checked(c, artifacts[..i])| < |Checked(c, artifacts)|
    ensures Checked(c, artifacts)[|Checked(c, artifacts[..i])|] == artifacts[i]
  {
    var n := |artifacts| - 1;
    if i < n {
      assert artifacts[..n][..i] == artifacts[..i];
      CheckedAt(c, artifacts[..n], i);
    }
  }

  /** The outcome that belongs to the artifact at a position. */
  function OutcomeOf(c: Config, checkMany: BatchChecker, artifacts: seq<Artifact>, i: nat): OsvOutcome
    requires i < |artifacts|
  {
    if !ShouldCheckOsv(c, artifacts[i]) then None
    else
      CheckedAt(c, artifacts, i);
      match BatchResult(checkMany, Checked(c, artifacts))
      case Ok(results) => Some(Ok(results[|Checked(c, artifacts[..i])|]))
      case Err(failure) => Some(Err(failure))
  }

  function Outcomes(c: Config, checkMany: BatchChecker, artifacts: seq<Artifact>): (outcomes: seq<OsvOutcome>)
    ensures |outcomes| == |artifacts|
    ensures forall i :: 0 <= i < |artifacts| ==> outcomes[i] == OutcomeOf(c, checkMany, artifacts, i)
  {
    seq(|artifacts|, i requires 0 <= i < |artifacts| => OutcomeOf(c, checkMany, artifacts, i))
  }

  /** The instant a batched evaluation records. */
  function BatchExpiry(c: Config, checkMany: BatchChecker, artifacts: seq<Artifact>, now: int): Option<int> {
    Captured(c, artifacts, now, Outcomes(c, checkMany, artifacts))
  }

  /** Every check that the batch was needed for succeeded. */
  predicate BatchUsable(c: Config, checkMany: BatchChecker, artifacts: seq<Artifact>) {
    forall i :: 0 <= i < |artifacts| ==> Usable(c, artifacts[i], OutcomeOf(c, checkMany, artifacts, i))
  }

  /** Evaluating one artifact on its own. */
  function SingleOutcome(c: Config, check: Checker, a: Artifact): OsvOutcome {
    if !ShouldCheckOsv(c, a) then None
    else match check(a)
      case Ok(findings) => Some(Ok(findings))
      case Err(error) => Some(Err(CheckFailed(error)))
  }

  /** The artifacts to check with their positions. */
  function Indexed(c: Config, artifacts: seq<Artifact>): seq<(nat, Artifact)> {
    if artifacts == [] then []
    else
      var n := |artifacts| - 1;
      var front, last := Indexed(c, artifacts[..n]), artifacts[n];
      if ShouldCheckOsv(c, last) then front + [(n, last)] else front
  }

  /** The pair at a rank is the artifact of that rank. */
  lemma {:induction false} IndexedAtRank(c: Config, artifacts: seq<Artifact>, k: nat)
    ensures |Indexed(c, artifacts)| == |Checked(c, artifacts)|
    ensures k < |Indexed(c, artifacts)| ==>
      var i := Indexed(c, artifacts)[k].0;
      i < |artifacts| && ShouldCheckOsv(c, artifacts[i]) && |Checked(c, artifacts[..i])| == k
  {
    if artifacts != [] {
      var n := |artifacts| - 1;
      IndexedAtRank(c, artifacts[..n], k);
      if k < |Indexed(c, artifacts[..n])| {
        var i := Indexed(c, artifacts[..n])[k].0;
        assert artifacts[..n][..i] == artifacts[..i];
      }
    }
  }

  /** An artifact's pair stands at its rank. */
  lemma {:induction false} RankIsIndexed(c: Config, artifacts: seq<Artifact>, i: nat)
    requires i < |artifacts| && ShouldCheckOsv(c, artifacts[i])
    ensures |Checked(c, artifacts[..i])| < |Indexed(c, artifacts)|
    ensures Indexed(c, artifacts)[|Checked(c, artifacts[..i])|] == (i, artifacts[i])
  {
    var n := |artifacts| - 1;
    IndexedAtRank(c, artifacts[..n], 0);
    if i < n {
      assert artifacts[..n][..i] == artifacts[..i];
      RankIsIndexed(c, artifacts[..n], i);
    }
  }

  method Select(c: Config, artifacts: seq<Artifact>) returns (indexed: seq<(nat, Artifact)>, checked: seq<Artifact>)
    ensures indexed == Indexed(c, artifacts) && checked == Checked(c, artifacts)
  {
    indexed, checked := [], [];
    for n := 0 to |artifacts|
      invariant indexed == Indexed(c, artifacts[..n]) && checked == Checked(c, artifacts[..n])
    {
      assert artifacts[..n + 1][..n] == artifacts[..n];
      if ShouldCheckOsv(c, artifacts[n]) {
        indexed := indexed + [(n, artifacts[n])];
        checked := checked + [artifacts[n]];
      }
    }
    assert artifacts[..|artifacts|] == artifacts;
  }

  /** Hand every result to its own position. */
  method Distribute(c: Config, checkMany: BatchChecker, artifacts: seq<Artifact>) returns (byIndex: seq<OsvOutcome>)
    ensures byIndex == Outcomes(c, checkMany, artifacts)
  {
    var indexed, checked := Select(c, artifacts);
    var results := BatchResult(checkMany, checked);
    IndexedAtRank(c, artifacts, 0);
    byIndex := seq(|artifacts|, _ => None);
    for k := 0 to |indexed|
      invariant |byIndex| == |artifacts|
      invariant forall i :: 0 <= i < |artifacts| ==>
        byIndex[i] == (if ShouldCheckOsv(c, artifacts[i]) && |Checked(c, artifacts[..i])| < k
                       then OutcomeOf(c, checkMany, artifacts, i) else None)
    {
      IndexedAtRank(c, artifacts, k);
      forall i | 0 <= i < |artifacts| && ShouldCheckOsv(c, artifacts[i]) && |Checked(c, artifacts[..i])| == k
        ensures i == indexed[k].0
      {
        RankIsIndexed(c, artifacts, i);
      }
      byIndex := byIndex[indexed[k].0 := Some(if results.Ok? then Ok(results.value[k]) else Err(results.error))];
    }
    forall i | 0 <= i < |artifacts| && ShouldCheckOsv(c, artifacts[i])
      ensures |Checked(c, artifacts[..i])| < |indexed|
    {
      RankIsIndexed(c, artifacts, i);
    }
  }

  /** Check in one batch, hand every result to its own position, and decide each artifact. */
  method EvaluateArtifacts(
    c: Config, checkMany: BatchChecker, artifacts: seq<Artifact>, now: int, meta: CacheMetadata)
    returns (decisions: seq<Decision>)
    modifies meta
    ensures |decisions| == |artifacts|
    ensures forall i :: 0 <= i < |artifacts| ==>
      decisions[i] == Decide(c, artifacts[i], now, OutcomeOf(c, checkMany, artifacts, i))
    ensures meta.validUntil == Earlier(old(meta.validUntil), BatchExpiry(c, checkMany, artifacts, now))
    ensures meta.cacheable == (old(meta.cacheable) && BatchUsable(c, checkMany, artifacts))
  {
    var byIndex := Distribute(c, checkMany, artifacts);
    decisions := EvaluateAll(c, artifacts, byIndex, now, meta);
  }

  /** On this list the batch succeeds exactly when every single check does, with the same findings. */
  ghost predicate AgreesOn(checkMany: BatchChecker, check: Checker, list: seq<Artifact>) {
    && (checkMany(list).Ok? <==> forall i :: 0 <= i < |list| ==> check(list[i]).Ok?)
    && (checkMany(list).Ok? ==> |checkMany(list).value| == |list|)
    && (checkMany(list).Ok? ==> forall i :: 0 <= i < |list| ==> check(list[i]) == Ok(checkMany(list).value[i]))
  }

  lemma {:induction false} CheckedMembers(c: Config, artifacts: seq<Artifact>, a: Artifact)
    ensures a in Checked(c, artifacts) <==> a in artifacts && ShouldCheckOsv(c, a)
  {
    if artifacts != [] {
      var n := |artifacts| - 1;
      CheckedMembers(c, artifacts[..n], a);
      assert artifacts == artifacts[..n] + [artifacts[n]];
    }
  }

  /**
   With a batch that agrees with the single check, deciding in one batch is
   deciding each artifact alone, as long as every needed check succeeds;
   otherwise every artifact that needs one is decided as a checker error.
   */
  lemma {:induction false} BatchedEqualsPointwise(
    c: Config, checkMany: BatchChecker, check: Checker, artifacts: seq<Artifact>, i: nat)
    requires i < |artifacts| && AgreesOn(checkMany, check, Checked(c, artifacts))
    ensures (forall a :: a in artifacts && ShouldCheckOsv(c, a) ==> check(a).Ok?) ==>
      OutcomeOf(c, checkMany, artifacts, i) == SingleOutcome(c, check, artifacts[i])
    ensures (exists a :: a in artifacts && ShouldCheckOsv(c, a) && check(a).Err?) && ShouldCheckOsv(c, artifacts[i]) ==>
      OutcomeOf(c, checkMany, artifacts, i).Some? && OutcomeOf(c, checkMany, artifacts, i).value.Err?
  {
    var checked := Checked(c, artifacts);
    if ShouldCheckOsv(c, artifacts[i]) {
      CheckedAt(c, artifacts, i);
      forall a
        ensures a in checked <==> a in artifacts && ShouldCheckOsv(c, a)
      {
        CheckedMembers(c, artifacts, a);
      }
      if a :| a in artifacts && ShouldCheckOsv(c, a) && check(a).Err? {
        assert a in checked;
      }
    }
  }

  /** A failed batch, or one with the wrong number of results, is a checker error for every artifact that needed it. */
  lemma FailedBatchDecidesErrors(
    c: Config, checkMany: BatchChecker, artifacts: seq<Artifact>, now: int, i: nat, failure: CheckFailure)
    requires i < |artifacts|
    requires checkMany(Checked(c, artifacts)).Err?
      || |checkMany(Checked(c, artifacts)).value| != |Checked(c, artifacts)|
    ensures Decide(c, artifacts[i], now, OutcomeOf(c, checkMany, artifacts, i)) ==
      Decide(c, artifacts[i], now, if ShouldCheckOsv(c, artifacts[i]) then Some(Err(failure)) else None)
  {
    if ShouldCheckOsv(c, artifacts[i]) {
      CheckedAt(c, artifacts, i);
    }
  }

  // ---- npm package metadata ----

  /** A version's distribution record; `others` are the fields filtering does not read. */
  datatype Dist = Dist(tarball: Option<string>, others: map<string, string>)

  datatype VersionEntry = VersionEntry(dist: Option<Dist>, others: map<string, string>)

  type Versions = map<string, VersionEntry>

  function TarballFilename(url: string): Option<string> {
    var name := AfterLast(Before(Before(url, '#'), '?'), '/');
    if name == "" then None else Some(name)
  }

  function ProxyTarballUrl(publicBaseUrl: string, package: string, tarball: string): string {
    TrimEnd(publicBaseUrl, '/') + "/npm/" + TrimStart(package, '/') + "/-/" + tarball
  }

  lemma {:induction false} AfterLastOf(prefix: string, name: string, stop: char)
    requires stop !in name
    ensures AfterLast(prefix + [stop] + name, stop) == name
  {
    var s := prefix + [stop] + name;
    if name != "" {
      assert s[..|s| - 1] == prefix + [stop] + name[..|name| - 1];
      AfterLastOf(prefix, name[..|name| - 1], stop);
    }
  }

  lemma {:induction false} AfterLastMembers(s: string, stop: char)
    ensures stop !in AfterLast(s, stop) && forall c :: c in AfterLast(s, stop) ==> c in s
  {
    if s != "" {
      AfterLastMembers(s[..|s| - 1], stop);
    }
  }

  lemma {:induction false} BeforeMembers(s: string, stop: char)
    ensures forall c :: c in Before(s, stop) ==> c in s
    ensures stop !in s ==> Before(s, stop) == s
  {
    if s != "" && s[0] != stop {
      BeforeMembers(s[1..], stop);
    }
  }

  lemma {:induction false} TrimmedMembers(s: string, c: char)
    ensures forall x :: x in TrimEnd(s, c) || x in TrimStart(s, c) ==> x in s
  {
    if s != "" {
      TrimmedMembers(s[..|s| - 1], c);
      TrimmedMembers(s[1..], c);
      assert s == s[..|s| - 1] + [s[|s| - 1]] && s == [s[0]] + s[1..];
    }
  }

  predicate Plain(s: string) {
    '#' !in s && '?' !in s
  }

  /** The proxy's address of a tarball names the same file as the address it replaces. */
  lemma ProxyKeepsFilename(publicBaseUrl: string, package: string, url: string)
    requires Plain(publicBaseUrl) && Plain(package) && TarballFilename(url).Some?
    ensures TarballFilename(ProxyTarballUrl(publicBaseUrl, package, TarballFilename(url).value)) == TarballFilename(url)
  {
    var cut := Before(Before(url, '#'), '?');
    var name := AfterLast(cut, '/');
    AfterLastMembers(cut, '/');
    BeforeMembers(Before(url, '#'), '?');
    BeforeMembers(url, '#');
    TrimmedMembers(publicBaseUrl, '/');
    TrimmedMembers(package, '/');
    var prefix := TrimEnd(publicBaseUrl, '/') + "/npm/" + TrimStart(package, '/') + "/-";
    var proxied := ProxyTarballUrl(publicBaseUrl, package, name);
    assert proxied == prefix + ['/'] + name;
    assert Plain(proxied) && Plain(name);
    BeforeMembers(proxied, '#');
    BeforeMembers(proxied, '?');
    AfterLastOf(prefix, name, '/');
  }

  /** A kept version: its tarball, if it has a distribution at all, is fetched through the proxy. */
  function Rewritten(publicBaseUrl: string, package: string, version: string, entry: VersionEntry): VersionEntry {
    if entry.dist.None? then entry
    else
      var dist := entry.dist.value;
      var name := if dist.tarball.Some? then TarballFilename(dist.tarball.value) else None;
      var tarball := if name.Some? then name.value else AfterLast(package, '/') + "-" + version + ".tgz";
      entry.(dist := Some(dist.(tarball := Some(ProxyTarballUrl(publicBaseUrl, package, tarball)))))
  }

  type Times = map<string, int>

  function NpmArtifact(package: string, times: Times, version: string): Artifact {
    Artifact(Npm, package, version, if version in times then Some(times[version]) else None)
  }

  function NpmArtifacts(package: string, times: Times, names: seq<string>): seq<Artifact> {
    seq(|names|, i requires 0 <= i < |names| => NpmArtifact(package, times, names[i]))
  }

  /** Tags with the text they hold, or none where it is not text. */
  type Tags = Option<map<string, Option<string>>>

  datatype NpmError = InvalidMetadata

  /** A package's document: parsed publish times, versions if it has an object of them, and tags if any. */
  class PackageDocument {
    const times: Times
    var versions: Option<Versions>
    var distTags: Tags

    constructor (times: Times, versions: Option<Versions>, distTags: Tags)
      ensures this.times == times && this.versions == versions && this.distTags == distTags
    {
      this.times, this.versions, this.distTags := times, versions, distTags;
    }

    /** Rewrite or remove each version in turn; `kept` lists the ones that stay. */
    method KeepAllowed(publicBaseUrl: string, package: string, names: seq<string>, decisions: seq<Decision>)
      returns (kept: seq<string>)
      requires versions.Some? && Injective(names) && |decisions| == |names|
      requires forall v :: v in names <==> v in versions.value
      modifies `versions
      ensures versions.Some? && versions.value.Keys <= old(versions).value.Keys
      ensures forall i :: 0 <= i < |names| ==> (names[i] in versions.value <==> decisions[i].allowed)
      ensures forall v :: v in versions.value ==>
        versions.value[v] == Rewritten(publicBaseUrl, package, v, old(versions).value[v])
      ensures forall v :: v in kept <==> v in versions.value
    {
      ghost var before := versions.value;
      kept := [];
      for i := 0 to |names|
        invariant versions.Some? && versions.value.Keys <= before.Keys
        invariant forall k :: 0 <= k < i ==> (names[k] in versions.value <==> decisions[k].allowed)
        invariant forall k :: 0 <= k < i && names[k] in versions.value ==>
          versions.value[names[k]] == Rewritten(publicBaseUrl, package, names[k], before[names[k]])
        invariant forall k :: i <= k < |names| ==>
          names[k] in versions.value && versions.value[names[k]] == before[names[k]]
        invariant forall v :: v in kept <==> v in names[..i] && v in versions.value
      {
        var version := names[i];
        assert names[..i + 1] == names[..i] + [version];
        if decisions[i].allowed {
          var entry := versions.value[version];
          versions := Some(versions.value[version := Rewritten(publicBaseUrl, package, version, entry)]);
          kept := kept + [version];
        } else {
          versions := Some(versions.value - {version});
        }
      }
      assert names[..|names|] == names;
    }

    /**
     Keep exactly the allowed versions, send kept tarballs through the proxy, and
     keep exactly the tags that name a kept version.  `names` lists the versions
     in the order the document lists them.
     */
    method Filter(
      c: Config, checkMany: BatchChecker, publicBaseUrl: string, package: string, names: seq<string>, now: int,
      meta: CacheMetadata)
      returns (r: Result<(), NpmError>)
      requires versions.Some? ==> Injective(names) && forall v :: v in names <==> v in versions.value
      modifies `versions, `distTags, meta
      ensures r.Ok? <==> old(versions).Some?
      ensures r.Err? ==> versions == old(versions) && distTags == old(distTags)
      ensures r.Ok? ==> versions.Some? && versions.value.Keys <= old(versions).value.Keys
      ensures r.Ok? ==> forall i :: 0 <= i < |names| ==>
        (names[i] in versions.value <==>
         Decide(c, Artifact(Npm, package, names[i], if names[i] in times then Some(times[names[i]]) else None), now,
                OutcomeOf(c, checkMany, NpmArtifacts(package, times, names), i)).allowed)
      ensures r.Ok? ==> forall v :: v in versions.value ==>
        versions.value[v] == Rewritten(publicBaseUrl, package, v, old(versions).value[v])
      ensures r.Ok? ==> (distTags.Some? <==> old(distTags).Some?)
      ensures r.Ok? && distTags.Some? ==> forall tag, version ::
        (tag in distTags.value && distTags.value[tag] == Some(version)) <==>
        (tag in old(distTags).value && old(distTags).value[tag] == Some(version) && version in versions.value)
      ensures r.Ok? && distTags.Some? ==> forall tag :: tag in distTags.value ==> distTags.value[tag].Some?
      ensures r.Err? ==> meta.validUntil == old(meta.validUntil) && meta.cacheable == old(meta.cacheable)
      ensures r.Ok? ==>
        meta.validUntil == Earlier(old(meta.validUntil), BatchExpiry(c, checkMany, NpmArtifacts(package, times, names), now))
      ensures r.Ok? ==>
        (meta.cacheable <==>
         old(meta.cacheable) && BatchUsable(c, checkMany, NpmArtifacts(package, times, names)))
    {
      if versions.None? {
        return Err(InvalidMetadata);
      }
      var artifacts := NpmArtifacts(package, times, names);
      var decisions := EvaluateArtifacts(c, checkMany, artifacts, now, meta);
      var kept := KeepAllowed(publicBaseUrl, package, names, decisions);
      assert (set v | v in kept) == versions.value.Keys;
      distTags := KeptTags(distTags, set v | v in kept);
      return Ok(());
    }
  }

  /** The tags that name a kept version. */
  function KeptTags(tags: Tags, kept: set<string>): Tags {
    if tags.None? then None
    else Some(map tag | tag in tags.value && tags.value[tag].Some? && tags.value[tag].value in kept :: tags.value[tag])
  }
}
