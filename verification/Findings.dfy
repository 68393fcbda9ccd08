/**
 Consolidating findings: one per advisory, in identifier order, keeping the
 first evaluation error and the best severity.
 */
module Findings {
  import opened Prelude
  import opened Text

  /** CVSS scores in tenths. */
  datatype EffectiveSeverity = EffectiveSeverity(kind: string, vector: string, score: nat)

  datatype Finding = Finding(
    osvId: string, summary: Option<string>, source: string, modified: Option<nat>,
    severity: Option<EffectiveSeverity>, evaluationError: Option<string>)

  /** A higher score, or at the same score the textually smaller type and vector. */
  predicate Better(candidate: EffectiveSeverity, current: EffectiveSeverity) {
    candidate.score > current.score
    || (candidate.score == current.score
        && (TextLess(candidate.kind, current.kind)
            || (candidate.kind == current.kind && TextLess(candidate.vector, current.vector))))
  }

  function BestOf(current: Option<EffectiveSeverity>, candidate: Option<EffectiveSeverity>): Option<EffectiveSeverity> {
    if candidate.Some? && (current.None? || Better(candidate.value, current.value)) then candidate else current
  }

  /** Fold a later finding of the same advisory into an earlier one. */
  function Absorb(entry: Finding, f: Finding): Finding {
    entry.(evaluationError := if entry.evaluationError.None? then f.evaluationError else entry.evaluationError,
           severity := BestOf(entry.severity, f.severity))
  }

  /** Insert into findings sorted by identifier, absorbing into the entry already there. */
  function Upsert(sorted: seq<Finding>, f: Finding): seq<Finding> {
    if sorted == [] || TextLess(f.osvId, sorted[0].osvId) then [f] + sorted
    else if sorted[0].osvId == f.osvId then [Absorb(sorted[0], f)] + sorted[1..]
    else [sorted[0]] + Upsert(sorted[1..], f)
  }

  function Consolidate(findings: seq<Finding>): seq<Finding> {
    if findings == [] then []
    else Upsert(Consolidate(findings[..|findings| - 1]), findings[|findings| - 1])
  }

  method ConsolidateLocalFindings(findings: seq<Finding>) returns (consolidated: seq<Finding>)
    ensures consolidated == Consolidate(findings)
  {
    consolidated := [];
    for i := 0 to |findings|
      invariant consolidated == Consolidate(findings[..i])
    {
      assert findings[..i + 1][..i] == findings[..i];
      consolidated := Upsert(consolidated, findings[i]);
    }
    assert findings[..|findings|] == findings;
  }

  // ---- What consolidation computes ----

  /** What one advisory's findings merge to, in list order. */
  function Merged(findings: seq<Finding>, id: string): Option<Finding> {
    if findings == [] then None
    else Combine(Merged(findings[..|findings| - 1], id), Only(findings[|findings| - 1], id))
  }

  function Only(f: Finding, id: string): Option<Finding> {
    if f.osvId == id then Some(f) else None
  }

  function Combine(a: Option<Finding>, b: Option<Finding>): Option<Finding> {
    if a.None? then b else if b.None? then a else Some(Absorb(a.value, b.value))
  }

  ghost predicate SortedById(s: seq<Finding>) {
    forall i, j :: 0 <= i < j < |s| ==> TextLess(s[i].osvId, s[j].osvId)
  }

  function Get(s: seq<Finding>, id: string): Option<Finding> {
    if s == [] then None else if s[0].osvId == id then Some(s[0]) else Get(s[1..], id)
  }

  /** Being better is a strict total order, so equals are one and the same severity. */
  lemma BetterOrders(x: EffectiveSeverity, y: EffectiveSeverity, z: EffectiveSeverity)
    ensures !(Better(x, y) && Better(y, x))
    ensures Better(x, y) || Better(y, x) || x == y
    ensures Better(x, y) && Better(y, z) ==> Better(x, z)
  {
    TextLessOrders(x.kind, y.kind, z.kind);
    TextLessOrders(y.kind, z.kind, x.kind);
    TextLessOrders(x.vector, y.vector, z.vector);
  }

  lemma BestIsAssociative(
    a: Option<EffectiveSeverity>, b: Option<EffectiveSeverity>, c: Option<EffectiveSeverity>)
    ensures BestOf(BestOf(a, b), c) == BestOf(a, BestOf(b, c))
  {
    if a.Some? && b.Some? && c.Some? {
      BetterOrders(a.value, b.value, c.value);
      BetterOrders(c.value, b.value, a.value);
      BetterOrders(c.value, a.value, b.value);
    }
  }

  lemma CombineIsAssociative(a: Option<Finding>, b: Option<Finding>, c: Option<Finding>)
    ensures Combine(Combine(a, b), c) == Combine(a, Combine(b, c))
  {
    if a.Some? && b.Some? && c.Some? {
      BestIsAssociative(a.value.severity, b.value.severity, c.value.severity);
    }
  }

  lemma {:induction false} MergedConcat(a: seq<Finding>, b: seq<Finding>, id: string)
    ensures Merged(a + b, id) == Combine(Merged(a, id), Merged(b, id))
  {
    if b == [] {
      assert a + b == a;
    } else {
      var front, last := b[..|b| - 1], b[|b| - 1];
      assert (a + b)[..|a + b| - 1] == a + front;
      MergedConcat(a, front, id);
      CombineIsAssociative(Merged(a, id), Merged(front, id), Only(last, id));
    }
  }

  lemma {:induction false} UpsertMerges(s: seq<Finding>, f: Finding, id: string)
    requires SortedById(s)
    ensures Get(Upsert(s, f), id) == Combine(Get(s, id), Only(f, id))
  {
    if s != [] {
      TextLessOrders(f.osvId, s[0].osvId, s[0].osvId);
      if TextLess(f.osvId, s[0].osvId) {
        SmallerIsAbsent(s, f.osvId);
      } else {
        UpsertMerges(s[1..], f, id);
      }
    }
  }

  lemma {:induction false} SmallerIsAbsent(s: seq<Finding>, id: string)
    requires SortedById(s) && s != [] && TextLess(id, s[0].osvId)
    ensures Get(s, id) == None
  {
    TextLessOrders(id, s[0].osvId, id);
    if |s| > 1 {
      TextLessOrders(id, s[0].osvId, s[1].osvId);
      SmallerIsAbsent(s[1..], id);
    }
  }

  lemma {:induction false} UpsertSorts(s: seq<Finding>, f: Finding)
    requires SortedById(s)
    ensures SortedById(Upsert(s, f))
    ensures Upsert(s, f) != [] && (Upsert(s, f)[0].osvId == f.osvId || (s != [] && Upsert(s, f)[0].osvId == s[0].osvId))
  {
    if s != [] {
      TextLessOrders(f.osvId, s[0].osvId, s[0].osvId);
      if TextLess(f.osvId, s[0].osvId) {
        forall j | 0 <= j < |s|
          ensures TextLess(f.osvId, s[j].osvId)
        {
          TextLessOrders(f.osvId, s[0].osvId, s[j].osvId);
        }
      } else if s[0].osvId != f.osvId {
        UpsertSorts(s[1..], f);
        UpsertedAbove(s[1..], f, s[0].osvId);
      }
    }
  }

  lemma {:induction false} UpsertedAbove(s: seq<Finding>, f: Finding, id: string)
    requires TextLess(id, f.osvId) && forall j :: 0 <= j < |s| ==> TextLess(id, s[j].osvId)
    ensures forall j :: 0 <= j < |Upsert(s, f)| ==> TextLess(id, Upsert(s, f)[j].osvId)
  {
    if s != [] {
      UpsertedAbove(s[1..], f, id);
    }
  }

  /** Consolidation holds each advisory's merge once, in strictly ascending identifier order. */
  lemma {:induction false} ConsolidateMerges(findings: seq<Finding>)
    ensures SortedById(Consolidate(findings))
    ensures forall id :: Get(Consolidate(findings), id) == Merged(findings, id)
  {
    if findings != [] {
      var front, last := findings[..|findings| - 1], findings[|findings| - 1];
      ConsolidateMerges(front);
      UpsertSorts(Consolidate(front), last);
      forall id
        ensures Get(Consolidate(findings), id) == Merged(findings, id)
      {
        UpsertMerges(Consolidate(front), last, id);
      }
    }
  }

  /** The severity is no higher than this one, nor, at the same score, textually smaller in type or then in vector. */
  predicate NotAbove(s: EffectiveSeverity, best: EffectiveSeverity) {
    && s.score <= best.score
    && (s.score == best.score ==>
          !TextLess(s.kind, best.kind) && (s.kind == best.kind ==> !TextLess(s.vector, best.vector)))
  }

  /** An advisory's severity is the best of its findings': one of them, with none above it. */
  ghost predicate IsBestSeverity(findings: seq<Finding>, id: string, best: Option<EffectiveSeverity>) {
    if best.Some? then
      && (exists f :: f in findings && f.osvId == id && f.severity == best)
      && forall f :: f in findings && f.osvId == id && f.severity.Some? ==> NotAbove(f.severity.value, best.value)
    else forall f :: f in findings && f.osvId == id ==> f.severity.None?
  }

  /** An advisory's error is the first one among its findings. */
  ghost predicate IsFirstError(findings: seq<Finding>, id: string, error: Option<string>) {
    if error.Some? then
      exists i :: 0 <= i < |findings| && findings[i].osvId == id && findings[i].evaluationError == error
        && forall j :: 0 <= j < i && findings[j].osvId == id ==> findings[j].evaluationError.None?
    else forall f :: f in findings && f.osvId == id ==> f.evaluationError.None?
  }

  /** The texts are those of an advisory's first finding. */
  ghost predicate TakesFirst(findings: seq<Finding>, id: string, m: Finding) {
    exists i :: 0 <= i < |findings| && findings[i].osvId == id
      && (forall j :: 0 <= j < i ==> findings[j].osvId != id)
      && m.summary == findings[i].summary && m.source == findings[i].source && m.modified == findings[i].modified
  }

  lemma FirstAfter(front: seq<Finding>, last: Finding, id: string, m: Finding)
    ensures TakesFirst(front, id, m) ==> TakesFirst(front + [last], id, m)
    ensures last.osvId == id && (forall f :: f in front ==> f.osvId != id) ==> TakesFirst(front + [last], id, last)
  {
    var all := front + [last];
    assert all[|front|] == last;
    assert forall j :: 0 <= j < |front| ==> all[j] == front[j] && front[j] in front;
  }

  lemma BetterExactly(x: EffectiveSeverity, y: EffectiveSeverity)
    ensures Better(x, y) <==> !NotAbove(x, y)
  {
    TextLessOrders(x.kind, y.kind, x.kind);
    TextLessOrders(x.vector, y.vector, x.vector);
  }

  lemma BestAfter(front: seq<Finding>, last: Finding, id: string, best: Option<EffectiveSeverity>)
    requires IsBestSeverity(front, id, best)
    ensures IsBestSeverity(front + [last], id, if last.osvId == id then BestOf(best, last.severity) else best)
  {
    assert last in front + [last];
    assert forall f :: f in front ==> f in front + [last];
    forall f | f in front && f.osvId == id && f.severity.Some? && best.Some? && last.severity.Some?
      ensures Better(last.severity.value, best.value) ==> NotAbove(f.severity.value, last.severity.value)
    {
      BetterOrders(f.severity.value, last.severity.value, best.value);
      BetterExactly(f.severity.value, last.severity.value);
      BetterExactly(f.severity.value, best.value);
    }
    if last.severity.Some? {
      BetterOrders(last.severity.value, last.severity.value, last.severity.value);
      BetterExactly(last.severity.value, last.severity.value);
      if best.Some? {
        BetterExactly(last.severity.value, best.value);
      }
    }
  }

  lemma FirstErrorAfter(front: seq<Finding>, last: Finding, id: string, error: Option<string>)
    requires IsFirstError(front, id, error)
    ensures IsFirstError(
      front + [last], id, if last.osvId == id && error.None? then last.evaluationError else error)
  {
    var all := front + [last];
    assert all[|front|] == last;
    assert forall j :: 0 <= j < |front| ==> all[j] == front[j] && front[j] in front;
  }

  /**
   What an advisory's findings merge to: present when there are any, with their best
   severity, their first error and otherwise the first finding's texts.
   */
  lemma {:induction false} MergedExactly(findings: seq<Finding>, id: string)
    ensures Merged(findings, id).Some? <==> exists f :: f in findings && f.osvId == id
    ensures Merged(findings, id).Some? ==>
      && Merged(findings, id).value.osvId == id
      && IsBestSeverity(findings, id, Merged(findings, id).value.severity)
      && IsFirstError(findings, id, Merged(findings, id).value.evaluationError)
      && TakesFirst(findings, id, Merged(findings, id).value)
  {
    if findings != [] {
      var front, last := findings[..|findings| - 1], findings[|findings| - 1];
      assert findings == front + [last];
      MergedExactly(front, id);
      var before := Merged(front, id);
      BestAfter(front, last, id, if before.Some? then before.value.severity else None);
      FirstErrorAfter(front, last, id, if before.Some? then before.value.evaluationError else None);
      FirstAfter(front, last, id, if before.Some? then Merged(findings, id).value else last);
    }
  }

  /** A sorted list is determined by what it holds for each identifier. */
  lemma {:induction false} SortedAreEqual(a: seq<Finding>, b: seq<Finding>)
    requires SortedById(a) && SortedById(b) && forall id :: Get(a, id) == Get(b, id)
    ensures a == b
  {
    var x, y := if a != [] then a[0].osvId else "", if b != [] then b[0].osvId else "";
    assert Get(a, x) == Get(b, x) && Get(a, y) == Get(b, y);
    if a != [] && b != [] {
      TextLessOrders(x, y, x);
      if TextLess(x, y) {
        SmallerIsAbsent(b, x);
      } else if TextLess(y, x) {
        SmallerIsAbsent(a, y);
      } else {
        forall id
          ensures Get(a[1..], id) == Get(b[1..], id)
        {
          assert Get(a, id) == Get(b, id);
          if id == x {
            if |a| > 1 { SmallerIsAbsent(a[1..], id); }
            if |b| > 1 { SmallerIsAbsent(b[1..], id); }
          }
        }
        SortedAreEqual(a[1..], b[1..]);
        assert a == [a[0]] + a[1..] && b == [b[0]] + b[1..];
      }
    }
  }

  lemma {:induction false} SortedMergeIsGet(s: seq<Finding>, id: string)
    requires SortedById(s)
    ensures Merged(s, id) == Get(s, id)
  {
    if s != [] {
      assert s == [s[0]] + s[1..];
      MergedConcat([s[0]], s[1..], id);
      assert [s[0]][..0] == [];
      SortedMergeIsGet(s[1..], id);
      if |s| > 1 && s[0].osvId == id {
        SmallerIsAbsent(s[1..], id);
      }
    }
  }

  /** Consolidating parts first changes nothing, whichever part it is. */
  lemma {:induction false} ConsolidateParts(a: seq<Finding>, b: seq<Finding>)
    ensures Consolidate(Consolidate(a) + b) == Consolidate(a + b)
    ensures Consolidate(a + Consolidate(b)) == Consolidate(a + b)
    ensures Consolidate(Consolidate(a)) == Consolidate(a)
  {
    ConsolidateMerges(a);
    ConsolidateMerges(b);
    ConsolidateMerges(a + b);
    ConsolidateMerges(Consolidate(a) + b);
    ConsolidateMerges(a + Consolidate(b));
    ConsolidateMerges(Consolidate(a));
    forall id
      ensures Get(Consolidate(Consolidate(a) + b), id) == Get(Consolidate(a + b), id)
      ensures Get(Consolidate(a + Consolidate(b)), id) == Get(Consolidate(a + b), id)
      ensures Get(Consolidate(Consolidate(a)), id) == Get(Consolidate(a), id)
    {
      MergedConcat(a, b, id);
      MergedConcat(Consolidate(a), b, id);
      MergedConcat(a, Consolidate(b), id);
      SortedMergeIsGet(Consolidate(a), id);
      SortedMergeIsGet(Consolidate(b), id);
    }
    SortedAreEqual(Consolidate(Consolidate(a) + b), Consolidate(a + b));
    SortedAreEqual(Consolidate(a + Consolidate(b)), Consolidate(a + b));
    SortedAreEqual(Consolidate(Consolidate(a)), Consolidate(a));
  }
}
