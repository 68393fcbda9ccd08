/** What versions and ranges are asked for, by ecosystem. */
module VersionQueries {
  import opened Prelude
  import opened RangeEvents
  import opened StoreQueries

  // ---- Go versions ----

  ghost predicate EndsWith(s: string, suffix: string) {
    exists front :: s == front + suffix
  }

  /** A Go version starts with a v and holds no slash, no exclamation mark and no two dots in a row. */
  ghost predicate IsGoVersion(version: string) {
    && "v" <= version
    && '/' !in version && '!' !in version
    && !exists front, back :: version == front + ".." + back
  }

  lemma TwoDots(version: string)
    ensures HasDoubleDot(version) <==> exists front, back :: version == front + ".." + back
  {
    if i :| 0 <= i < |version| - 1 && version[i] == '.' && version[i + 1] == '.' {
      assert version == version[..i] + ".." + version[i + 2..];
    }
    if front, back :| version == front + ".." + back {
      assert version[|front|] == '.' && version[|front| + 1] == '.';
    }
  }

  lemma SuffixIsCut(s: string, suffix: string)
    ensures EndsWith(s, suffix) <==> |s| >= |suffix| && s[|s| - |suffix|..] == suffix
    ensures forall front :: s == front + suffix ==> s[..|s| - |suffix|] == front
  {
    if |s| >= |suffix| && s[|s| - |suffix|..] == suffix {
      assert s == s[..|s| - |suffix|] + suffix;
    }
  }

  /** OSV asks for a Go version without its v and without its compatibility mark. */
  lemma GoVersionExactly(version: string)
    ensures GoOsvVersion(version).Some? <==> IsGoVersion(version)
    ensures forall query :: version == "v" + query + "+incompatible" && IsGoVersion(version) ==>
      GoOsvVersion(version) == Some(query)
    ensures forall query :: version == "v" + query && IsGoVersion(version) && !EndsWith(query, "+incompatible") ==>
      GoOsvVersion(version) == Some(query)
  {
    TwoDots(version);
    if version != "" && version[0] == 'v' {
      SuffixIsCut(version[1..], INCOMPATIBLE);
      forall query | version == "v" + query + "+incompatible"
        ensures version[1..] == query + INCOMPATIBLE
      {
      }
    }
  }

  /** Only Go versions are asked for in another spelling than their own. */
  lemma QueryVersionExactly(e: Ecosystem, version: string)
    ensures !e.Go? || !IsGoVersion(version) ==> QueryVersion(e, version) == version
    ensures e.Go? && IsGoVersion(version) ==> GoOsvVersion(version) == Some(QueryVersion(e, version))
  {
    GoVersionExactly(version);
  }

  // ---- Ranges ----

  /** The types of ranges that are evaluated for each ecosystem. */
  const EVALUATED: set<(Ecosystem, string)> := {
    (Npm, "SEMVER"), (Pypi, "ECOSYSTEM"), (Go, "SEMVER"), (Go, "ECOSYSTEM"), (CratesIo, "SEMVER"),
    (CratesIo, "ECOSYSTEM"), (Nuget, "ECOSYSTEM"), (RubyGems, "ECOSYSTEM"), (Maven, "ECOSYSTEM")
  }

  /** The version can be put to a range of this type; three libraries must have parsed it beforehand. */
  ghost predicate Answerable(cmp: Comparators, kind: string, e: Ecosystem, version: string) {
    && (e, kind) in EVALUATED
    && (e in {Npm, Pypi, CratesIo} ==> cmp.parses(e, version))
    && (e == Go ==> IsGoVersion(version))
  }

  /** How the version compares to boundaries: as it is, or for Go in OSV's spelling with the v put back on both sides. */
  ghost predicate Compares(cmp: Comparators, e: Ecosystem, version: string, compare: Compare) {
    forall boundary :: compare(boundary) ==
      if e == Go then cmp.compare(e, "v" + QueryVersion(e, version), "v" + boundary)
      else cmp.compare(e, version, boundary)
  }

  lemma {:induction false} SameAnswers(f: Compare, g: Compare, events: seq<Event>)
    requires forall boundary :: f(boundary) == g(boundary)
    ensures Evaluate(f, events) == Evaluate(g, events)
  {
    if events != [] {
      SameAnswers(f, g, events[..|events| - 1]);
    }
  }

  lemma SupportedExactly(e: Ecosystem, kind: string)
    ensures Supported(e, kind) <==> (e, kind) in EVALUATED
  {
    assert "SEMVER" != "ECOSYSTEM" by {
      assert "SEMVER"[0] == 'S';
    }
  }

  /**
   A range holds a version exactly when the version can be put to it, no event stops
   the evaluation, and some introduction that the version has reached is followed by
   nothing that clears it; otherwise it fails exactly when one of the first two does.
   */
  lemma RangeMatchesExactly(cmp: Comparators, range: StoredRange, e: Ecosystem, version: string, compare: Compare)
    requires Compares(cmp, e, version, compare)
    ensures RangeMatches(cmp, range, e, version).Err? <==>
      || !Answerable(cmp, range.kind, e, version)
      || exists k :: 0 <= k < |range.events| && Stuck(compare, range.events, k)
    ensures RangeMatches(cmp, range, e, version).Ok? ==>
      (RangeMatches(cmp, range, e, version).value <==> Live(compare, range.events))
  {
    SupportedExactly(e, range.kind);
    GoVersionExactly(version);
    QueryVersionExactly(e, version);
    if Answerable(cmp, range.kind, e, version) {
      var left := if e.Go? then "v" + GoOsvVersion(version).value else version;
      SameAnswers(boundary => cmp.compare(e, left, if e.Go? then "v" + boundary else boundary), compare, range.events);
      EvaluationDecides(compare, range.events);
    }
  }
}
