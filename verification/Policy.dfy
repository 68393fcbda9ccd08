/** Policy decisions over time. */
module Policy {
  import opened Prelude
  import opened Text
  import opened Findings
  import opened StoreQueries

  // A decision depends on the clock only through the age gate; every age-gated
  // refusal records the instant it ends, so that a filtered response is not reused
  // past the first change.

  datatype AllowlistEntry = AllowlistEntry(
    ecosystem: Ecosystem, name: string, version: string, bypassAgeGate: bool, bypassOsv: bool)

  datatype BlocklistEntry = BlocklistEntry(ecosystem: Ecosystem, name: string, versions: seq<string>)

  datatype OnError = BlockOnError | AllowOnError

  /** List names are already normalised; ages and scores are naturals, scores in tenths. */
  datatype Config = Config(
    blockMalicious: bool, blockVulnerabilities: bool, minimumCvssScore: nat, onError: OnError,
    minimumAge: nat, blockMissingPublishTime: bool,
    allowlist: seq<AllowlistEntry>, blocklist: seq<BlocklistEntry>)

  datatype Reason =
    | Allowed | Allowlisted | TooYoung | Malicious | Vulnerable | ManuallyBlocked | MissingPublishTime

  datatype Decision = Decision(allowed: bool, reason: Reason, ruleId: Option<string>, eligibleAt: Option<int>)

  /** Why a check gave no findings: it failed, or its batch had the wrong number of results. */
  datatype CheckFailure = CheckFailed(error: CheckError) | WrongCount(results: nat, artifacts: nat)

  /** The outcome of an OSV check, or none when no result was supplied. */
  type OsvOutcome = Option<Result<seq<Finding>, CheckFailure>>

  function FindAllow(list: seq<AllowlistEntry>, a: Artifact): Option<AllowlistEntry> {
    if list == [] then None
    else if list[0].ecosystem == a.ecosystem && list[0].name == a.name && list[0].version == a.version then Some(list[0])
    else FindAllow(list[1..], a)
  }

  function FindBlock(list: seq<BlocklistEntry>, a: Artifact): Option<BlocklistEntry> {
    if list == [] then None
    else if list[0].ecosystem == a.ecosystem && list[0].name == a.name
         && ("*" in list[0].versions || a.version in list[0].versions) then Some(list[0])
    else FindBlock(list[1..], a)
  }

  predicate ShouldCheckOsv(c: Config, a: Artifact) {
    (c.blockMalicious || c.blockVulnerabilities)
    && !(FindAllow(c.allowlist, a).Some? && FindAllow(c.allowlist, a).value.bypassOsv)
  }

  /** The three searches over an OSV result, in the order they are tried. */
  datatype Search = MaliciousHits | VulnerabilityHits | FailedHits

  function ScoreOf(f: Finding): int {
    if f.severity.Some? then f.severity.value.score else -1
  }

  predicate Applies(c: Config, search: Search, f: Finding) {
    match search
    case MaliciousHits => IsMalicious(f.osvId)
    case VulnerabilityHits =>
      && !IsMalicious(f.osvId)
      && f.evaluationError.None?
      && (c.minimumCvssScore == 0 || ScoreOf(f) >= c.minimumCvssScore)
    case FailedHits => f.evaluationError.Some?
  }

  /** By identifier; among vulnerabilities higher scores first and unscored ones last. */
  predicate Precedes(search: Search, a: Finding, b: Finding) {
    if search.VulnerabilityHits? && ScoreOf(a) != ScoreOf(b) then ScoreOf(a) > ScoreOf(b)
    else TextLess(a.osvId, b.osvId)
  }

  /** Among the findings the search applies to, the first that no other precedes. */
  function Pick(c: Config, search: Search, hits: seq<Finding>): Option<Finding> {
    if hits == [] then None
    else
      var best, last := Pick(c, search, hits[..|hits| - 1]), hits[|hits| - 1];
      if Applies(c, search, last) && (best.None? || Precedes(search, last, best.value)) then Some(last) else best
  }

  function MaliciousHit(c: Config, hits: seq<Finding>): Option<Finding> {
    if c.blockMalicious then Pick(c, MaliciousHits, hits) else None
  }

  function VulnerabilityHit(c: Config, hits: seq<Finding>): Option<Finding> {
    if c.blockVulnerabilities then Pick(c, VulnerabilityHits, hits) else None
  }

  function Blocked(reason: Reason, ruleId: Option<string>, eligibleAt: Option<int>): Decision {
    Decision(false, reason, ruleId, eligibleAt)
  }

  function ErrorReason(c: Config): Reason {
    if c.blockMalicious then Malicious else Vulnerable
  }

  /** What the OSV result alone decides. */
  function OsvVerdict(c: Config, outcome: OsvOutcome): Option<Decision> {
    match outcome
    case Some(Ok(hits)) =>
      if MaliciousHit(c, hits).Some? then
        Some(Blocked(Malicious, Some(MaliciousHit(c, hits).value.osvId), None))
      else if VulnerabilityHit(c, hits).Some? then
        Some(Blocked(Vulnerable, Some(VulnerabilityHit(c, hits).value.osvId), None))
      else if Pick(c, FailedHits, hits).Some? && c.onError.BlockOnError? then
        var id := Pick(c, FailedHits, hits).value.osvId;
        Some(Blocked(Vulnerable, if id == "" then None else Some(id), None))
      else None
    case Some(Err(_)) => if c.onError.BlockOnError? then Some(Blocked(ErrorReason(c), None, None)) else None
    case None => if c.onError.BlockOnError? then Some(Blocked(ErrorReason(c), None, None)) else None
  }

  /** When the age gate opens for an artifact that reaches it, or none when it does not reach it. */
  function AgeGate(c: Config, a: Artifact, outcome: OsvOutcome): Option<int> {
    if ShouldCheckOsv(c, a) && OsvVerdict(c, outcome).Some? then None
    else if FindBlock(c.blocklist, a).Some? then None
    else if FindAllow(c.allowlist, a).Some? && FindAllow(c.allowlist, a).value.bypassAgeGate then None
    else if a.publishedAt.None? then None
    else Some(a.publishedAt.value + c.minimumAge)
  }

  function Decide(c: Config, a: Artifact, now: int, outcome: OsvOutcome): Decision {
    var allow := FindAllow(c.allowlist, a);
    if ShouldCheckOsv(c, a) && OsvVerdict(c, outcome).Some? then OsvVerdict(c, outcome).value
    else if FindBlock(c.blocklist, a).Some? then
      Blocked(ManuallyBlocked, Some("manual:blocklist:" + FindBlock(c.blocklist, a).value.name), None)
    else if allow.Some? && allow.value.bypassAgeGate then Decision(true, Allowlisted, None, None)
    else if a.publishedAt.Some? && a.publishedAt.value + c.minimumAge > now then
      Blocked(TooYoung, None, Some(a.publishedAt.value + c.minimumAge))
    else if a.publishedAt.None? && c.blockMissingPublishTime then Blocked(MissingPublishTime, None, None)
    else Decision(true, if allow.Some? then Allowlisted else Allowed, None, None)
  }

  /** What one request's evaluations have recorded so far. */
  class CacheMetadata {
    var validUntil: Option<int>
    var cacheable: bool

    constructor ()
      ensures validUntil == None && cacheable
    {
      validUntil, cacheable := None, true;
    }

    /** Keep the earliest recorded instant. */
    method RecordCacheValidUntil(t: int)
      modifies `validUntil
      ensures validUntil == Earlier(old(validUntil), Some(t))
    {
      if validUntil.None? || t < validUntil.value {
        validUntil := Some(t);
      }
    }

    method MarkUncacheable()
      modifies `cacheable
      ensures !cacheable
    {
      cacheable := false;
    }
  }

  function Earlier(a: Option<int>, b: Option<int>): Option<int> {
    if a.None? then b else if b.None? then a else Some(Min(a.value, b.value))
  }

  /** The instant an evaluation records: the end of an age-gated refusal. */
  function Expiry(c: Config, a: Artifact, now: int, outcome: OsvOutcome): Option<int> {
    var gate := AgeGate(c, a, outcome);
    if gate.Some? && gate.value > now then gate else None
  }

  predicate Usable(c: Config, a: Artifact, outcome: OsvOutcome) {
    ShouldCheckOsv(c, a) ==> outcome.Some? && outcome.value.Ok?
  }

  method EvaluateWithMaliciousResult(c: Config, a: Artifact, now: int, outcome: OsvOutcome, meta: CacheMetadata)
    returns (d: Decision)
    modifies meta
    ensures d == Decide(c, a, now, outcome)
    ensures meta.validUntil == Earlier(old(meta.validUntil), Expiry(c, a, now, outcome))
    ensures meta.cacheable == (old(meta.cacheable) && Usable(c, a, outcome))
  {
    var allow := FindAllow(c.allowlist, a);
    if ShouldCheckOsv(c, a) {
      match outcome {
        case Some(Ok(hits)) =>
          var malicious := MaliciousHit(c, hits);
          if malicious.Some? {
            return Blocked(Malicious, Some(malicious.value.osvId), None);
          }
          var vulnerability := VulnerabilityHit(c, hits);
          if vulnerability.Some? {
            return Blocked(Vulnerable, Some(vulnerability.value.osvId), None);
          }
          var failed := Pick(c, FailedHits, hits);
          if failed.Some? && c.onError.BlockOnError? {
            return Blocked(Vulnerable, if failed.value.osvId == "" then None else Some(failed.value.osvId), None);
          }
        case Some(Err(_)) =>
          meta.MarkUncacheable();
          if c.onError.BlockOnError? {
            return Blocked(ErrorReason(c), None, None);
          }
        case None =>
          meta.MarkUncacheable();
          if c.onError.BlockOnError? {
            return Blocked(ErrorReason(c), None, None);
          }
      }
    }
    var block := FindBlock(c.blocklist, a);
    if block.Some? {
      return Blocked(ManuallyBlocked, Some("manual:blocklist:" + block.value.name), None);
    }
    if allow.Some? && allow.value.bypassAgeGate {
      return Decision(true, Allowlisted, None, None);
    }
    match a.publishedAt {
      case Some(publishedAt) =>
        var eligibleAt := publishedAt + c.minimumAge;
        if eligibleAt > now {
          meta.RecordCacheValidUntil(eligibleAt);
          return Blocked(TooYoung, None, Some(eligibleAt));
        }
      case None =>
        if c.blockMissingPublishTime {
          return Blocked(MissingPublishTime, None, None);
        }
    }
    return Decision(true, if allow.Some? then Allowlisted else Allowed, None, None);
  }

  // ---- Selection ----

  lemma {:induction false} PickIsLeast(c: Config, search: Search, hits: seq<Finding>)
    ensures Pick(c, search, hits).None? <==> forall f :: f in hits ==> !Applies(c, search, f)
    ensures Pick(c, search, hits).Some? ==>
      var best := Pick(c, search, hits).value;
      && best in hits
      && Applies(c, search, best)
      && forall f :: f in hits && Applies(c, search, f) ==> !Precedes(search, f, best)
  {
    if hits != [] {
      var front, last := hits[..|hits| - 1], hits[|hits| - 1];
      PickIsLeast(c, search, front);
      assert hits == front + [last];
      TextLessOrders(last.osvId, last.osvId, last.osvId);
      if Pick(c, search, front).Some? && Pick(c, search, hits) == Some(last) {
        var best := Pick(c, search, front).value;
        forall f | f in front && Applies(c, search, f)
          ensures !Precedes(search, f, last)
        {
          TextLessOrders(f.osvId, last.osvId, best.osvId);
        }
      }
    }
  }

  /** A malicious record is known by its identifier. */
  predicate Malware(f: Finding) {
    "MAL-" <= f.osvId
  }

  /** A vulnerability that could be evaluated and reaches the threshold; a threshold of zero takes unscored ones as well. */
  predicate Reaches(c: Config, f: Finding) {
    && !("MAL-" <= f.osvId) && f.evaluationError.None?
    && (c.minimumCvssScore == 0 || (f.severity.Some? && f.severity.value.score >= c.minimumCvssScore))
  }

  /** What a check found, or that it found nothing out, must be refused. */
  ghost predicate MustRefuse(c: Config, outcome: OsvOutcome) {
    match outcome
    case Some(Ok(hits)) =>
      || (c.blockMalicious && exists f :: f in hits && Malware(f))
      || (c.blockVulnerabilities && exists f :: f in hits && Reaches(c, f))
      || (c.onError.BlockOnError? && exists f :: f in hits && f.evaluationError.Some?)
    case _ => c.onError.BlockOnError?
  }

  lemma AppliesExactly(c: Config, f: Finding)
    ensures Applies(c, MaliciousHits, f) <==> Malware(f)
    ensures Applies(c, VulnerabilityHits, f) <==> Reaches(c, f)
    ensures Applies(c, FailedHits, f) <==> f.evaluationError.Some?
  {
    assert IsMalicious(f.osvId) <==> "MAL-" <= f.osvId;
  }

  /**
   An OSV result blocks exactly when it must: a malicious record while those are
   blocked, an evaluable vulnerability at or above the threshold while those are
   blocked, or, when errors block, anything that could not be evaluated or looked up.
   */
  lemma OsvBlocksExactly(c: Config, outcome: OsvOutcome)
    ensures OsvVerdict(c, outcome).Some? <==> MustRefuse(c, outcome)
    ensures OsvVerdict(c, outcome).Some? ==> !OsvVerdict(c, outcome).value.allowed
  {
    if outcome.Some? && outcome.value.Ok? {
      var hits := outcome.value.value;
      PickIsLeast(c, MaliciousHits, hits);
      PickIsLeast(c, VulnerabilityHits, hits);
      PickIsLeast(c, FailedHits, hits);
      forall f
        ensures Applies(c, MaliciousHits, f) <==> Malware(f)
        ensures Applies(c, VulnerabilityHits, f) <==> Reaches(c, f)
        ensures Applies(c, FailedHits, f) <==> f.evaluationError.Some?
      {
        AppliesExactly(c, f);
      }
    }
  }

  /** Of the malicious records the one with the smallest identifier. */
  ghost predicate FirstMalware(hits: seq<Finding>, id: string) {
    && (exists f :: f in hits && Malware(f) && f.osvId == id)
    && forall g :: g in hits && Malware(g) ==> !TextLess(g.osvId, id)
  }

  /** A vulnerability that counts, with the highest score of those and the smallest identifier among equals. */
  ghost predicate WorstVulnerability(c: Config, hits: seq<Finding>, f: Finding) {
    && f in hits && Reaches(c, f)
    && (forall g :: g in hits && Reaches(c, g) && g.severity.Some? ==>
          f.severity.Some? && g.severity.value.score <= f.severity.value.score)
    && (forall g :: g in hits && Reaches(c, g) && TextLess(g.osvId, f.osvId) ==>
          f.severity.Some? && (g.severity.Some? ==> g.severity.value.score < f.severity.value.score))
  }

  ghost predicate FirstFailed(hits: seq<Finding>, id: string) {
    && (exists f :: f in hits && f.evaluationError.Some? && f.osvId == id)
    && forall g :: g in hits && g.evaluationError.Some? ==> !TextLess(g.osvId, id)
  }

  /** A refusal names the finding it is for: malware before vulnerabilities before what could not be evaluated. */
  lemma VerdictNamesExactly(c: Config, hits: seq<Finding>)
    requires MustRefuse(c, Some(Ok(hits)))
    ensures OsvVerdict(c, Some(Ok(hits))).Some?
    ensures var d := OsvVerdict(c, Some(Ok(hits))).value;
      if c.blockMalicious && exists f :: f in hits && Malware(f) then
        exists id :: FirstMalware(hits, id) && d == Decision(false, Malicious, Some(id), None)
      else if c.blockVulnerabilities && exists f :: f in hits && Reaches(c, f) then
        exists f :: WorstVulnerability(c, hits, f) && d == Decision(false, Vulnerable, Some(f.osvId), None)
      else
        exists id :: FirstFailed(hits, id) && d == Decision(false, Vulnerable, if id == "" then None else Some(id), None)
  {
    OsvBlocksExactly(c, Some(Ok(hits)));
    MalwareIsFirst(c, hits);
    VulnerabilityIsWorst(c, hits);
    FailedIsFirst(c, hits);
  }

  lemma MalwareIsFirst(c: Config, hits: seq<Finding>)
    ensures MaliciousHit(c, hits).Some? <==> c.blockMalicious && exists f :: f in hits && Malware(f)
    ensures MaliciousHit(c, hits).Some? ==> FirstMalware(hits, MaliciousHit(c, hits).value.osvId)
  {
    PickIsLeast(c, MaliciousHits, hits);
    forall f
      ensures Applies(c, MaliciousHits, f) <==> Malware(f)
    {
      AppliesExactly(c, f);
    }
  }

  lemma VulnerabilityIsWorst(c: Config, hits: seq<Finding>)
    ensures VulnerabilityHit(c, hits).Some? <==> c.blockVulnerabilities && exists f :: f in hits && Reaches(c, f)
    ensures VulnerabilityHit(c, hits).Some? ==> WorstVulnerability(c, hits, VulnerabilityHit(c, hits).value)
  {
    PickIsLeast(c, VulnerabilityHits, hits);
    forall f
      ensures Applies(c, VulnerabilityHits, f) <==> Reaches(c, f)
    {
      AppliesExactly(c, f);
    }
  }

  lemma FailedIsFirst(c: Config, hits: seq<Finding>)
    ensures Pick(c, FailedHits, hits).Some? <==> exists f :: f in hits && f.evaluationError.Some?
    ensures Pick(c, FailedHits, hits).Some? ==> FirstFailed(hits, Pick(c, FailedHits, hits).value.osvId)
  {
    PickIsLeast(c, FailedHits, hits);
  }

  predicate Blocklisted(c: Config, a: Artifact) {
    exists e :: e in c.blocklist && e.ecosystem == a.ecosystem && e.name == a.name
      && ("*" in e.versions || a.version in e.versions)
  }

  lemma {:induction false} FindBlockExactly(list: seq<BlocklistEntry>, a: Artifact)
    ensures FindBlock(list, a).Some? <==>
      exists e :: e in list && e.ecosystem == a.ecosystem && e.name == a.name
        && ("*" in e.versions || a.version in e.versions)
    ensures FindBlock(list, a).Some? ==> FindBlock(list, a).value.name == a.name
  {
    if list != [] {
      FindBlockExactly(list[1..], a);
      assert list == [list[0]] + list[1..];
    }
  }

  /** The first allowlist entry for exactly this version. */
  ghost predicate FirstEntry(list: seq<AllowlistEntry>, a: Artifact, i: nat) {
    && i < |list|
    && list[i].ecosystem == a.ecosystem && list[i].name == a.name && list[i].version == a.version
    && forall j :: 0 <= j < i ==>
         !(list[j].ecosystem == a.ecosystem && list[j].name == a.name && list[j].version == a.version)
  }

  lemma {:induction false} FindAllowExactly(list: seq<AllowlistEntry>, a: Artifact)
    ensures forall i: nat :: FirstEntry(list, a, i) ==> FindAllow(list, a) == Some(list[i])
    ensures FindAllow(list, a).Some? ==> exists i: nat :: FirstEntry(list, a, i)
  {
    if list != [] {
      FindAllowExactly(list[1..], a);
      forall i: nat | FirstEntry(list, a, i) && i > 0
        ensures FirstEntry(list[1..], a, i - 1)
      {
        assert forall j :: 0 <= j < i - 1 ==> list[1..][j] == list[j + 1];
      }
      if FindAllow(list, a).Some? && !FirstEntry(list, a, 0) {
        var i: nat :| FirstEntry(list[1..], a, i);
        assert forall j :: 0 < j <= i ==> list[1..][j - 1] == list[j];
        assert FirstEntry(list, a, i + 1);
      }
    }
  }

  /** The artifact's allowlist entry lets it pass the age gate. */
  ghost predicate Bypasses(c: Config, a: Artifact) {
    exists i: nat :: FirstEntry(c.allowlist, a, i) && c.allowlist[i].bypassAgeGate
  }

  /** The artifact's allowlist entry lets it pass OSV. */
  ghost predicate BypassesOsv(c: Config, a: Artifact) {
    exists i: nat :: FirstEntry(c.allowlist, a, i) && c.allowlist[i].bypassOsv
  }

  /** OSV is asked exactly when something is to be blocked and no allowlist entry of the artifact says otherwise. */
  lemma ShouldCheckExactly(c: Config, a: Artifact)
    ensures ShouldCheckOsv(c, a) <==> (c.blockMalicious || c.blockVulnerabilities) && !BypassesOsv(c, a)
  {
    FindAllowExactly(c.allowlist, a);
  }

  /** OSV is asked, and what it says must be refused. */
  ghost predicate OsvRefuses(c: Config, a: Artifact, outcome: OsvOutcome) {
    (c.blockMalicious || c.blockVulnerabilities) && !BypassesOsv(c, a) && MustRefuse(c, outcome)
  }

  /**
   An artifact is allowed exactly when OSV does not refuse it, no blocklist entry
   names it, and it bypasses the age gate or is old enough, or has no publish
   time while that is tolerated.  Only a refusal for youth names an eligible time,
   and that time is still to come.
   */
  lemma AllowedExactly(c: Config, a: Artifact, now: int, outcome: OsvOutcome)
    ensures var d := Decide(c, a, now, outcome);
      && (d.allowed <==>
            && !OsvRefuses(c, a, outcome)
            && !Blocklisted(c, a)
            && (Bypasses(c, a)
                || (if a.publishedAt.Some? then a.publishedAt.value + c.minimumAge <= now else !c.blockMissingPublishTime)))
      && (d.eligibleAt.Some? <==> d.reason == TooYoung)
      && (d.eligibleAt.Some? ==> !d.allowed && d.eligibleAt.value > now)
  {
    FindBlockExactly(c.blocklist, a);
    FindAllowExactly(c.allowlist, a);
    ShouldCheckExactly(c, a);
    OsvBlocksExactly(c, outcome);
  }

  /** Which reason and rule a decision gives: OSV's, the blocklist's, the age gate's, or that nothing is against it. */
  lemma ReasonExactly(c: Config, a: Artifact, now: int, outcome: OsvOutcome)
    ensures var d := Decide(c, a, now, outcome);
      if OsvRefuses(c, a, outcome) then
        && OsvVerdict(c, outcome) == Some(d)
        && (outcome.None? || outcome.value.Err? ==>
              d == Decision(false, if c.blockMalicious then Malicious else Vulnerable, None, None))
      else if Blocklisted(c, a) then d == Decision(false, ManuallyBlocked, Some("manual:blocklist:" + a.name), None)
      else if Bypasses(c, a) then d == Decision(true, Allowlisted, None, None)
      else if a.publishedAt.Some? && now < a.publishedAt.value + c.minimumAge then
        d == Decision(false, TooYoung, None, Some(a.publishedAt.value + c.minimumAge))
      else if a.publishedAt.None? && c.blockMissingPublishTime then d == Decision(false, MissingPublishTime, None, None)
      else
        d == Decision(true, if exists i: nat :: FirstEntry(c.allowlist, a, i) then Allowlisted else Allowed, None, None)
  {
    FindBlockExactly(c.blocklist, a);
    FindAllowExactly(c.allowlist, a);
    ShouldCheckExactly(c, a);
    OsvBlocksExactly(c, outcome);
  }

  // ---- Over time ----

  /** The instant recorded by evaluating a list of artifacts. */
  function Captured(c: Config, artifacts: seq<Artifact>, now: int, outcomes: seq<OsvOutcome>): Option<int>
    requires |outcomes| == |artifacts|
  {
    if artifacts == [] then None
    else
      var n := |artifacts| - 1;
      Earlier(Captured(c, artifacts[..n], now, outcomes[..n]), Expiry(c, artifacts[n], now, outcomes[n]))
  }

  /** This instant comes before whatever an evaluation recorded. */
  predicate StillValid(t: int, expiry: Option<int>) {
    expiry.None? || t < expiry.value
  }

  lemma OneDecisionOverTime(c: Config, a: Artifact, outcome: OsvOutcome, now: int, t: int)
    requires now <= t
    ensures Decide(c, a, t, outcome) == Decide(c, a, now, outcome) <==>
      StillValid(t, Expiry(c, a, now, outcome))
    ensures Decide(c, a, now, outcome).allowed ==> Decide(c, a, t, outcome).allowed
  {
  }

  /** The captured instant is the earliest that any artifact's evaluation records. */
  lemma {:induction false} CapturedIsEarliest(
    c: Config, artifacts: seq<Artifact>, outcomes: seq<OsvOutcome>, now: int, t: int)
    requires |outcomes| == |artifacts|
    ensures StillValid(t, Captured(c, artifacts, now, outcomes)) <==>
      forall i :: 0 <= i < |artifacts| ==> StillValid(t, Expiry(c, artifacts[i], now, outcomes[i]))
  {
    if artifacts != [] {
      var n := |artifacts| - 1;
      CapturedIsEarliest(c, artifacts[..n], outcomes[..n], now, t);
      assert StillValid(t, Captured(c, artifacts, now, outcomes)) <==>
        StillValid(t, Captured(c, artifacts[..n], now, outcomes[..n])) && StillValid(t, Expiry(c, artifacts[n], now, outcomes[n]));
    }
  }

  /**
   The captured instant is exact: re-deciding with the same OSV results at any
   later time gives the same decisions if and only if that time is before it, and
   time alone never turns an allowed artifact into a refused one.
   */
  lemma {:induction false} StableExactlyUntilCaptured(
    c: Config, artifacts: seq<Artifact>, outcomes: seq<OsvOutcome>, now: int, t: int)
    requires |outcomes| == |artifacts| && now <= t
    ensures (forall i :: 0 <= i < |artifacts| ==>
               Decide(c, artifacts[i], t, outcomes[i]) == Decide(c, artifacts[i], now, outcomes[i]))
       <==> StillValid(t, Captured(c, artifacts, now, outcomes))
    ensures forall i :: 0 <= i < |artifacts| ==>
      Decide(c, artifacts[i], now, outcomes[i]).allowed ==> Decide(c, artifacts[i], t, outcomes[i]).allowed
  {
    CapturedIsEarliest(c, artifacts, outcomes, now, t);
    forall i | 0 <= i < |artifacts|
      ensures Decide(c, artifacts[i], t, outcomes[i]) == Decide(c, artifacts[i], now, outcomes[i]) <==>
        StillValid(t, Expiry(c, artifacts[i], now, outcomes[i]))
      ensures Decide(c, artifacts[i], now, outcomes[i]).allowed ==> Decide(c, artifacts[i], t, outcomes[i]).allowed
    {
      OneDecisionOverTime(c, artifacts[i], outcomes[i], now, t);
    }
  }

  /** Evaluating a list records its captured instant, and stays cacheable only if every needed check succeeded. */
  method EvaluateAll(c: Config, artifacts: seq<Artifact>, outcomes: seq<OsvOutcome>, now: int, meta: CacheMetadata)
    returns (decisions: seq<Decision>)
    requires |outcomes| == |artifacts|
    modifies meta
    ensures |decisions| == |artifacts|
    ensures forall i :: 0 <= i < |artifacts| ==> decisions[i] == Decide(c, artifacts[i], now, outcomes[i])
    ensures meta.validUntil == Earlier(old(meta.validUntil), Captured(c, artifacts, now, outcomes))
    ensures meta.cacheable == (old(meta.cacheable) &&
      forall i :: 0 <= i < |artifacts| ==> Usable(c, artifacts[i], outcomes[i]))
  {
    decisions := [];
    for i := 0 to |artifacts|
      invariant |decisions| == i
      invariant forall k :: 0 <= k < i ==> decisions[k] == Decide(c, artifacts[k], now, outcomes[k])
      invariant meta.validUntil == Earlier(old(meta.validUntil), Captured(c, artifacts[..i], now, outcomes[..i]))
      invariant meta.cacheable == (old(meta.cacheable) && forall k :: 0 <= k < i ==> Usable(c, artifacts[k], outcomes[k]))
    {
      assert artifacts[..i + 1][..i] == artifacts[..i] && outcomes[..i + 1][..i] == outcomes[..i];
      var d := EvaluateWithMaliciousResult(c, artifacts[i], now, outcomes[i], meta);
      decisions := decisions + [d];
    }
    assert artifacts[..|artifacts|] == artifacts && outcomes[..|artifacts|] == outcomes;
  }
}
