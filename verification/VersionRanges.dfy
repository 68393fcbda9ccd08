/** Ranges under the hand-written comparators. */
module VersionRanges {
  import opened Prelude
  import opened RangeEvents
  import opened OsvSchema
  import opened OsvLimits
  import RubyGemsVersion
  import NugetVersion

  // For RubyGems and NuGet an ascending list of introduced and fixed boundaries means
  // the union of its intervals, and an ordered list with fitting limits what the OSV
  // Schema says.

  type Interval = (string, string)

  ghost predicate SomeWithin(lt: (string, string) -> bool, version: string, intervals: seq<Interval>) {
    exists m :: 0 <= m < |intervals| && Within(lt, version, intervals[m])
  }

  /** The boundaries to compare: all but an introduction at "0". */
  predicate Boundaries(valid: string -> bool, events: seq<Event>) {
    forall e :: e in events ==> FromStart(e) || valid(e.version)
  }

  // ---- RubyGems ----

  function RubyGemsCompare(version: string): Compare {
    boundary =>
      if RubyGemsVersion.Parse(version).Some? && RubyGemsVersion.Parse(boundary).Some?
      then Some(RubyGemsVersion.PaddedOrder(
                  RubyGemsVersion.Parse(version).value, RubyGemsVersion.Parse(boundary).value))
      else None
  }

  /** Text that is not a version is put with the empty version. */
  function RubyGemsKey(text: string): RubyGemsVersion.Version {
    if RubyGemsVersion.Parse(text).Some? then RubyGemsVersion.Parse(text).value else []
  }

  predicate RubyGemsLess(x: string, y: string) {
    RubyGemsVersion.PaddedOrder(RubyGemsKey(x), RubyGemsKey(y)) == Less
  }

  function RubyGemsOrder(): (string, string) -> bool {
    (x, y) => RubyGemsLess(x, y)
  }

  lemma RubyGemsLessOrders(x: string, y: string, z: string)
    ensures !RubyGemsLess(x, x)
    ensures RubyGemsLess(x, y) && RubyGemsLess(y, z) ==> RubyGemsLess(x, z)
    ensures !RubyGemsLess(x, y) && !RubyGemsLess(y, z) ==> !RubyGemsLess(x, z)
  {
    var a, b, c := RubyGemsKey(x), RubyGemsKey(y), RubyGemsKey(z);
    RubyGemsVersion.PaddedOrderReverse(a, a);
    RubyGemsVersion.PaddedOrderReverse(a, b);
    RubyGemsVersion.PaddedOrderReverse(b, c);
    RubyGemsVersion.PaddedOrderReverse(a, c);
    if RubyGemsLess(x, y) && RubyGemsLess(y, z) {
      RubyGemsVersion.PaddedOrderTransitive(a, b, c);
    }
    if !RubyGemsLess(x, y) && !RubyGemsLess(y, z) {
      RubyGemsVersion.PaddedOrderTransitive(c, b, a);
    }
  }

  function RubyGemsValid(): string -> bool {
    text => RubyGemsVersion.Parse(text).Some?
  }

  function RubyGemsComparator(): string -> Compare {
    version => RubyGemsCompare(version)
  }

  lemma {:induction false} RubyGemsAgrees(version: string, boundary: string)
    requires RubyGemsVersion.Parse(version).Some? && RubyGemsVersion.Parse(boundary).Some?
    ensures RubyGemsCompare(version)(boundary) == CompareBy(RubyGemsOrder(), version)(boundary)
  {
    RubyGemsVersion.PaddedOrderReverse(RubyGemsKey(version), RubyGemsKey(boundary));
  }

  lemma {:induction false} RubyGemsOrderIsWeak()
    ensures StrictWeakOrder(RubyGemsOrder())
  {
    forall x, y, z
      ensures !RubyGemsLess(x, x)
      ensures RubyGemsLess(x, y) && RubyGemsLess(y, z) ==> RubyGemsLess(x, z)
      ensures !RubyGemsLess(x, y) && !RubyGemsLess(y, z) ==> !RubyGemsLess(x, z)
    {
      RubyGemsLessOrders(x, y, z);
    }
  }

  lemma {:induction false} RubyGemsServes(events: seq<Event>)
    requires Boundaries(RubyGemsValid(), events)
    ensures Serves(RubyGemsComparator(), RubyGemsValid(), RubyGemsOrder(), events)
  {
    forall version | RubyGemsValid()(version)
      ensures Follows(RubyGemsComparator()(version), RubyGemsOrder(), version, events)
    {
      forall e | e in events
        ensures FromStart(e) || RubyGemsComparator()(version)(e.version) == CompareBy(RubyGemsOrder(), version)(e.version)
      {
        if !FromStart(e) {
          RubyGemsAgrees(version, e.version);
        }
      }
    }
  }

  /** A RubyGems version is affected exactly when some interval of the ascending list holds it. */
  lemma {:induction false} RubyGemsRanges(intervals: seq<Interval>, version: string)
    requires RubyGemsVersion.Parse(version).Some? && Boundaries(RubyGemsValid(), IntervalEvents(intervals))
    requires Ascending(RubyGemsOrder(), intervals)
    ensures Evaluate(RubyGemsCompare(version), IntervalEvents(intervals)) ==
      Ok(SomeWithin(RubyGemsOrder(), version, intervals))
  {
    RubyGemsOrderIsWeak();
    RubyGemsServes(IntervalEvents(intervals));
    assert RubyGemsValid()(version) && RubyGemsComparator()(version) == RubyGemsCompare(version);
    IntervalsAreUnions(RubyGemsCompare(version), RubyGemsOrder(), intervals, version);
  }

  /** On an ordered list every RubyGems version gets the OSV Schema's answer exactly when the limits fit. */
  lemma {:induction false} RubyGemsMatchesSchema(events: seq<Event>)
    requires AllKnown(events) && Boundaries(RubyGemsValid(), events) && InOrder(RubyGemsOrder(), events)
    ensures (forall v :: RubyGemsValid()(v) ==>
               Evaluate(RubyGemsComparator()(v), events) == Ok(SchemaAffected(RubyGemsOrder(), v, events)))
       <==> LimitsFit(RubyGemsOrder(), events)
  {
    RubyGemsOrderIsWeak();
    RubyGemsServes(events);
    SortedListsMatchSchema(RubyGemsComparator(), RubyGemsValid(), RubyGemsOrder(), events);
  }

  // ---- NuGet ----

  function NugetKey(text: string): NugetVersion.Version {
    if NugetVersion.Read(text).Some? then NugetVersion.Read(text).value else NugetVersion.Version([], None)
  }

  predicate NugetLess(x: string, y: string) {
    NugetVersion.Precedence(NugetKey(x), NugetKey(y)) == Less
  }

  function NugetOrder(): (string, string) -> bool {
    (x, y) => NugetLess(x, y)
  }

  lemma NugetLessOrders(x: string, y: string, z: string)
    ensures !NugetLess(x, x)
    ensures NugetLess(x, y) && NugetLess(y, z) ==> NugetLess(x, z)
    ensures !NugetLess(x, y) && !NugetLess(y, z) ==> !NugetLess(x, z)
  {
    var a, b, c := NugetKey(x), NugetKey(y), NugetKey(z);
    NugetVersion.PrecedenceIsATotalPreorder(a, b, c);
    NugetVersion.PrecedenceIsATotalPreorder(c, b, a);
    NugetVersion.PrecedenceIsATotalPreorder(b, c, a);
    NugetVersion.PrecedenceIsATotalPreorder(c, a, b);
    NugetVersion.PrecedenceIsATotalPreorder(b, a, c);
  }

  function NugetValid(): string -> bool {
    text => NugetVersion.Read(text).Some?
  }

  function NugetComparator(): string -> Compare {
    version => NugetCompare(version)
  }

  function NugetCompare(version: string): Compare {
    boundary => NugetVersion.CompareNuget(version, boundary)
  }

  lemma {:induction false} NugetAgrees(version: string, boundary: string)
    requires NugetVersion.Read(version).Some? && NugetVersion.Read(boundary).Some?
    ensures NugetCompare(version)(boundary) == CompareBy(NugetOrder(), version)(boundary)
  {
    NugetVersion.ComparesAsRead(version, boundary);
    NugetVersion.PrecedenceReverse(NugetKey(version), NugetKey(boundary));
  }

  lemma {:induction false} NugetOrderIsWeak()
    ensures StrictWeakOrder(NugetOrder())
  {
    forall x, y, z
      ensures !NugetLess(x, x)
      ensures NugetLess(x, y) && NugetLess(y, z) ==> NugetLess(x, z)
      ensures !NugetLess(x, y) && !NugetLess(y, z) ==> !NugetLess(x, z)
    {
      NugetLessOrders(x, y, z);
    }
  }

  lemma {:induction false} NugetServes(events: seq<Event>)
    requires Boundaries(NugetValid(), events)
    ensures Serves(NugetComparator(), NugetValid(), NugetOrder(), events)
  {
    forall version | NugetValid()(version)
      ensures Follows(NugetComparator()(version), NugetOrder(), version, events)
    {
      forall e | e in events
        ensures FromStart(e) || NugetComparator()(version)(e.version) == CompareBy(NugetOrder(), version)(e.version)
      {
        if !FromStart(e) {
          NugetAgrees(version, e.version);
        }
      }
    }
  }

  /** A NuGet version is affected exactly when some interval of the ascending list holds it. */
  lemma {:induction false} NugetRanges(intervals: seq<Interval>, version: string)
    requires NugetVersion.Read(version).Some? && Boundaries(NugetValid(), IntervalEvents(intervals))
    requires Ascending(NugetOrder(), intervals)
    ensures Evaluate(NugetCompare(version), IntervalEvents(intervals)) ==
      Ok(SomeWithin(NugetOrder(), version, intervals))
  {
    NugetOrderIsWeak();
    NugetServes(IntervalEvents(intervals));
    assert NugetValid()(version) && NugetComparator()(version) == NugetCompare(version);
    IntervalsAreUnions(NugetCompare(version), NugetOrder(), intervals, version);
  }

  /** On an ordered list every NuGet version gets the OSV Schema's answer exactly when the limits fit. */
  lemma {:induction false} NugetMatchesSchema(events: seq<Event>)
    requires AllKnown(events) && Boundaries(NugetValid(), events) && InOrder(NugetOrder(), events)
    ensures (forall v :: NugetValid()(v) ==>
               Evaluate(NugetComparator()(v), events) == Ok(SchemaAffected(NugetOrder(), v, events)))
       <==> LimitsFit(NugetOrder(), events)
  {
    NugetOrderIsWeak();
    NugetServes(events);
    SortedListsMatchSchema(NugetComparator(), NugetValid(), NugetOrder(), events);
  }
}
