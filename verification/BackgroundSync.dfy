/** The background cycle: which ecosystems are retried, and how long the loop waits. */
module BackgroundSync {
  import opened Prelude
  import OsvStore

  const ALL: seq<Ecosystem> := [Npm, Pypi, Go, CratesIo, Nuget, RubyGems, Maven]

  ghost predicate Everything(have: set<Ecosystem>) {
    forall e: Ecosystem :: e in have
  }

  // ---- One run over the requested ecosystems ----

  datatype Report = Report(synced: seq<Ecosystem>, failures: seq<string>)

  /** Which ecosystems' syncs commit, or none when the run itself cannot start. */
  type Outcome = Option<set<Ecosystem>>

  method SyncEcosystems(requested: seq<Ecosystem>, commits: set<Ecosystem>) returns (report: Report)
    ensures forall e :: e in report.synced <==> e in requested && e in commits
    ensures forall name :: name in report.failures <==>
      exists e :: e in requested && e !in commits && OsvStore.OsvName(e) == name
  {
    report := Report([], []);
    for i := 0 to |requested|
      invariant forall e :: e in report.synced <==> e in requested[..i] && e in commits
      invariant forall name :: name in report.failures <==>
        exists e :: e in requested[..i] && e !in commits && OsvStore.OsvName(e) == name
    {
      var e := requested[i];
      assert requested[..i + 1] == requested[..i] + [e];
      if e in commits {
        report := Report(report.synced + [e], report.failures);
      } else {
        report := Report(report.synced, report.failures + [OsvStore.OsvName(e)]);
      }
    }
    assert requested[..|requested|] == requested;
  }

  /** The ecosystems not in a set, in their fixed order. */
  function Missing(have: set<Ecosystem>, all: seq<Ecosystem>): seq<Ecosystem> {
    if all == [] then [] else (if all[0] in have then [] else [all[0]]) + Missing(have, all[1..])
  }

  /** The ecosystems whose name is among the failures, in their fixed order. */
  function NamedIn(failures: seq<string>, all: seq<Ecosystem>): seq<Ecosystem> {
    if all == [] then []
    else (if OsvStore.OsvName(all[0]) in failures then [all[0]] else []) + NamedIn(failures, all[1..])
  }

  lemma NamesAreDistinct(a: Ecosystem, b: Ecosystem)
    ensures OsvStore.OsvName(a) == OsvStore.OsvName(b) <==> a == b
  {
    assert "npm"[0] == 'n' && "PyPI"[0] == 'P' && "Go"[0] == 'G' && "crates.io"[0] == 'c' && "NuGet"[0] == 'N';
    assert "RubyGems"[0] == 'R' && "Maven"[0] == 'M';
  }

  lemma {:induction false} MissingMembers(have: set<Ecosystem>, all: seq<Ecosystem>, e: Ecosystem)
    ensures e in Missing(have, all) <==> e in all && e !in have
  {
    if all != [] {
      MissingMembers(have, all[1..], e);
    }
  }

  /** Reading the failures back by name gives exactly the ecosystems still missing. */
  lemma {:induction false} FailuresAreMissing(failures: seq<string>, have: set<Ecosystem>, all: seq<Ecosystem>)
    requires forall e :: e in all ==> (OsvStore.OsvName(e) in failures <==> e !in have)
    ensures NamedIn(failures, all) == Missing(have, all)
  {
    if all != [] {
      assert all[0] in all;
      FailuresAreMissing(failures, have, all[1..]);
    }
  }

  // ---- Delays, in nanoseconds ----

  const MILLISECOND: nat := 1_000_000
  const SECOND: nat := 1_000 * MILLISECOND
  const DURATION_MAX: nat := 0x1_0000_0000_0000_0000 * SECOND - 1
  const U32_MAX: nat := 0xFFFF_FFFF

  datatype RetryPolicy = RetryPolicy(initial: nat, maximum: nat)

  const BACKGROUND_RETRY_POLICY: RetryPolicy := RetryPolicy(5 * SECOND, 5 * 60 * SECOND)

  function Pow2(n: nat): (p: nat)
    ensures p >= 1
  {
    if n == 0 then 1 else 2 * Pow2(n - 1)
  }

  function Exponent(failures: nat): nat {
    if failures <= 1 then 0 else Min(failures - 1, 16)
  }

  /** Multiplication of a duration; none on overflow. */
  function CheckedMul(d: nat, factor: nat): Option<nat> {
    if d * factor <= DURATION_MAX then Some(d * factor) else None
  }

  function RetryDelay(interval: nat, failures: nat, policy: RetryPolicy): nat {
    var product := CheckedMul(policy.initial, Pow2(Exponent(failures)));
    var exponential := if product.Some? then product.value else policy.maximum;
    Min(Min(exponential, policy.maximum), Max(interval / 2, MILLISECOND))
  }

  lemma {:induction false} Pow2Monotone(m: nat, n: nat)
    requires m <= n
    ensures Pow2(m) <= Pow2(n)
  {
    if m < n {
      Pow2Monotone(m, n - 1);
    }
  }

  lemma ScaledMonotone(d: nat, m: nat, n: nat)
    requires m <= n
    ensures d * Pow2(m) <= d * Pow2(n)
  {
    Pow2Monotone(m, n);
    assert d * Pow2(n) - d * Pow2(m) == d * (Pow2(n) - Pow2(m));
  }

  /** The delay never shrinks as failures go on, and stays within both bounds. */
  lemma DelayIsMonotoneAndBounded(interval: nat, f: nat, g: nat, policy: RetryPolicy)
    requires f <= g
    ensures RetryDelay(interval, f, policy) <= RetryDelay(interval, g, policy)
    ensures RetryDelay(interval, g, policy) <= policy.maximum
    ensures RetryDelay(interval, g, policy) <= Max(interval / 2, MILLISECOND)
  {
    ScaledMonotone(policy.initial, Exponent(f), Exponent(g));
  }

  /** A product overflows exactly when its whole seconds do not fit 64 bits. */
  lemma CheckedMulExactly(d: nat, factor: nat)
    ensures CheckedMul(d, factor) ==
      if d * factor / 1_000_000_000 < 0x1_0000_0000_0000_0000 then Some(d * factor) else None
  {
  }

  /** The longest the loop ever waits after a failure. */
  function Longest(interval: nat, policy: RetryPolicy): nat {
    var half := if interval / 2 < 1_000_000 then 1_000_000 else interval / 2;
    if policy.maximum < half then policy.maximum else half
  }

  /**
   The first failure waits the initial delay and each further one twice as long as
   the one before, up to the longest, for sixteen doublings; from then on the delay
   stays as it is.
   */
  lemma DelayDoubles(interval: nat, failures: nat, policy: RetryPolicy)
    requires policy.maximum <= DURATION_MAX
    ensures var first, longest := RetryDelay(interval, 1, policy), Longest(interval, policy);
      && first == (if policy.initial < longest then policy.initial else longest)
      && RetryDelay(interval, 0, policy) == first
    ensures 1 <= failures <= 16 ==>
      RetryDelay(interval, failures + 1, policy) ==
        if 2 * RetryDelay(interval, failures, policy) < Longest(interval, policy)
        then 2 * RetryDelay(interval, failures, policy) else Longest(interval, policy)
    ensures failures >= 17 ==> RetryDelay(interval, failures, policy) == RetryDelay(interval, 17, policy)
  {
    if 1 <= failures <= 16 {
      Doubled(policy.initial, Pow2(failures - 1));
    }
  }

  lemma Doubled(d: nat, p: nat)
    ensures d * (2 * p) == 2 * (d * p)
  {
  }

  /** The multiplier fits 32 bits and the proxy's own policy never overflows, so the delay is the plain formula. */
  lemma OwnPolicyNeverOverflows(interval: nat, failures: nat)
    ensures Pow2(Exponent(failures)) <= 65536 < U32_MAX
    ensures CheckedMul(BACKGROUND_RETRY_POLICY.initial, Pow2(Exponent(failures))).Some?
    ensures RetryDelay(interval, failures, BACKGROUND_RETRY_POLICY) ==
      Min(Min(5_000_000_000 * Pow2(Exponent(failures)), 300_000_000_000), Max(interval / 2, 1_000_000))
  {
    Pow2Monotone(Exponent(failures), 16);
    assert Pow2(8) == 256;
    assert Pow2(16) == 65536;
  }

  // ---- The loop ----

  /** What has committed since the last time everything had. */
  ghost function Committed(history: seq<Outcome>): set<Ecosystem> {
    if history == [] then {}
    else
      var before, last := Committed(history[..|history| - 1]), history[|history| - 1];
      if last.None? then before
      else if Everything(before + last.value) then {}
      else before + last.value
  }

  /** How many iterations in a row did not end a cycle. */
  ghost function FailuresInARow(history: seq<Outcome>): nat {
    if history == [] then 0
    else if EndsCycle(history) then 0
    else 1 + FailuresInARow(history[..|history| - 1])
  }

  /** The last iteration committed everything that was still missing. */
  ghost predicate EndsCycle(history: seq<Outcome>)
    requires history != []
  {
    var last := history[|history| - 1];
    last.Some? && Everything(Committed(history[..|history| - 1]) + last.value)
  }

  lemma HistoryStep(before: seq<Outcome>, outcome: Outcome)
    ensures var have := if outcome.Some? then Committed(before) + outcome.value else Committed(before);
      && (EndsCycle(before + [outcome]) <==> outcome.Some? && Everything(have))
      && Committed(before + [outcome]) == (if EndsCycle(before + [outcome]) then {} else have)
      && FailuresInARow(before + [outcome]) == (if EndsCycle(before + [outcome]) then 0 else 1 + FailuresInARow(before))
  {
    assert (before + [outcome])[..|before|] == before;
  }

  /** The loop's variables; each iteration runs one sync and then sleeps. */
  class BackgroundLoop {
    const interval: nat
    const policy: RetryPolicy
    var requested: seq<Ecosystem>
    var consecutiveFailures: nat
    ghost var history: seq<Outcome>

    ghost predicate Valid()
      reads this
    {
      && requested == Missing(Committed(history), ALL)
      && consecutiveFailures == Min(FailuresInARow(history), U32_MAX)
    }

    constructor (interval: nat, policy: RetryPolicy)
      ensures Valid() && history == [] && this.interval == interval && this.policy == policy
    {
      this.interval, this.policy := interval, policy;
      requested, consecutiveFailures, history := ALL, 0, [];
      new;
      NothingCommitted(ALL);
    }

    /** One iteration under any outcome; the delay is the interval exactly when the cycle ends. */
    method Iterate(outcome: Outcome) returns (delay: nat)
      requires Valid()
      modifies `requested, `consecutiveFailures, `history
      ensures Valid() && history == old(history) + [outcome]
      ensures delay ==
        if EndsCycle(history) then interval else RetryDelay(interval, FailuresInARow(history), policy)
    {
      HistoryStep(history, outcome);
      ghost var before := history;
      history := history + [outcome];
      if outcome.None? {
        delay := Fail(before, requested);
        return;
      }
      var report := SyncEcosystems(requested, outcome.value);
      ReportIsExact(report, requested, Committed(before), outcome.value);
      if report.failures == [] {
        NothingCommitted(ALL);
        requested := ALL;
        consecutiveFailures := 0;
        delay := interval;
      } else {
        delay := Fail(before, NamedIn(report.failures, ALL));
      }
    }

    /** Ask for what is missing, count the failure and wait. */
    method Fail(ghost before: seq<Outcome>, missing: seq<Ecosystem>) returns (delay: nat)
      requires consecutiveFailures == Min(FailuresInARow(before), U32_MAX)
      modifies `requested, `consecutiveFailures
      ensures requested == missing && consecutiveFailures == Min(1 + FailuresInARow(before), U32_MAX)
      ensures delay == RetryDelay(interval, 1 + FailuresInARow(before), policy)
    {
      requested := missing;
      consecutiveFailures := Min(consecutiveFailures + 1, U32_MAX);
      DelayIsCapped(interval, 1 + FailuresInARow(before), policy);
      delay := RetryDelay(interval, consecutiveFailures, policy);
    }
  }

  lemma {:induction false} NothingCommitted(all: seq<Ecosystem>)
    ensures Missing({}, all) == all
  {
    if all != [] {
      NothingCommitted(all[1..]);
      assert all == [all[0]] + all[1..];
    }
  }

  /** Saturating the failure count changes no delay. */
  lemma DelayIsCapped(interval: nat, failures: nat, policy: RetryPolicy)
    ensures RetryDelay(interval, Min(failures, U32_MAX), policy) == RetryDelay(interval, failures, policy)
  {
  }

  lemma EveryEcosystem(e: Ecosystem)
    ensures e in ALL
  {
    match e
    case Npm => assert ALL[0] == e;
    case Pypi => assert ALL[1] == e;
    case Go => assert ALL[2] == e;
    case CratesIo => assert ALL[3] == e;
    case Nuget => assert ALL[4] == e;
    case RubyGems => assert ALL[5] == e;
    case Maven => assert ALL[6] == e;
  }

  lemma IsReported(report: Report, requested: seq<Ecosystem>, have: set<Ecosystem>, commits: set<Ecosystem>, e: Ecosystem)
    requires requested == Missing(have, ALL)
    requires forall name :: name in report.failures <==>
      exists x :: x in requested && x !in commits && OsvStore.OsvName(x) == name
    ensures OsvStore.OsvName(e) in report.failures <==> e !in have + commits
  {
    EveryEcosystem(e);
    MissingMembers(have, ALL, e);
    if OsvStore.OsvName(e) in report.failures {
      var x :| x in requested && x !in commits && OsvStore.OsvName(x) == OsvStore.OsvName(e);
      NamesAreDistinct(x, e);
    }
  }

  /** The report's failures name exactly what is missing afterwards. */
  lemma ReportIsExact(report: Report, requested: seq<Ecosystem>, have: set<Ecosystem>, commits: set<Ecosystem>)
    requires requested == Missing(have, ALL)
    requires forall name :: name in report.failures <==>
      exists x :: x in requested && x !in commits && OsvStore.OsvName(x) == name
    ensures report.failures == [] <==> Everything(have + commits)
    ensures NamedIn(report.failures, ALL) == Missing(have + commits, ALL)
  {
    forall e: Ecosystem
      ensures OsvStore.OsvName(e) in report.failures <==> e !in have + commits
    {
      IsReported(report, requested, have, commits, e);
    }
    FailuresAreMissing(report.failures, have + commits, ALL);
    if report.failures != [] {
      assert report.failures[0] in report.failures;
    }
  }

  /** An iteration that ends a cycle was preceded, since the last one, by a commit of every ecosystem. */
  lemma {:induction false} CommittedSince(history: seq<Outcome>, e: Ecosystem) returns (i: nat)
    requires e in Committed(history)
    ensures i < |history| && history[i].Some? && e in history[i].value && e !in Committed(history[..i])
    ensures forall j :: i < j <= |history| ==> !EndsCycle(history[..j])
  {
    var n := |history| - 1;
    if e in Committed(history[..n]) {
      i := CommittedSince(history[..n], e);
      assert history[..n][..i] == history[..i];
      forall j | i < j <= |history|
        ensures !EndsCycle(history[..j])
      {
        if j <= n {
          assert history[..n][..j] == history[..j];
        } else {
          assert history[..j] == history;
        }
      }
    } else {
      i := n;
      assert history[..n + 1] == history;
    }
  }

  /**
   A cycle ends only after all seven ecosystems committed: each did so in some
   iteration, when it was still missing, with no cycle ending before this one.
   */
  lemma CycleEndsAfterAllCommit(history: seq<Outcome>, e: Ecosystem) returns (i: nat)
    requires history != [] && EndsCycle(history)
    ensures i < |history| && history[i].Some? && e in history[i].value
    ensures e in Missing(Committed(history[..i]), ALL)
    ensures forall j :: i < j < |history| ==> !EndsCycle(history[..j])
  {
    var n := |history| - 1;
    EveryEcosystem(e);
    assert history[..n + 1] == history;
    if e in Committed(history[..n]) {
      i := CommittedSince(history[..n], e);
      assert history[..n][..i] == history[..i];
      forall j | i < j < |history|
        ensures !EndsCycle(history[..j])
      {
        assert history[..n][..j] == history[..j];
      }
    } else {
      i := n;
      assert e in Committed(history[..n]) + history[n].value;
    }
    MissingMembers(Committed(history[..i]), ALL, e);
  }
}
