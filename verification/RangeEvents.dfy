/** Affected-range evaluation: one pass over a range's events with a flag. */
module RangeEvents {
  import opened Prelude

  datatype Event = Event(kind: string, version: string)

  datatype RangeError = Incomparable(boundary: string) | UnsupportedEvent(kind: string)

  /** How the version at hand compares to a boundary; None when the boundary does not parse. */
  type Compare = string -> Option<Ordering>

  predicate IsFix(e: Event) {
    e.kind == "fixed" || e.kind == "limit"
  }

  /**
   Events are taken in list order.  A boundary is compared only when its outcome
   can matter, so one that cannot be compared fails the evaluation only then.
   */
  function StepEvent(compare: Compare, affected: bool, e: Event): Result<bool, RangeError> {
    if e.kind == "introduced" then
      if e.version == "0" then Ok(true)
      else match compare(e.version)
        case None => Err(Incomparable(e.version))
        case Some(order) => Ok(affected || !order.Less?)
    else if IsFix(e) then
      if !affected then Ok(false)
      else match compare(e.version)
        case None => Err(Incomparable(e.version))
        case Some(order) => Ok(order.Less?)
    else if e.kind == "last_affected" then
      if !affected then Ok(false)
      else match compare(e.version)
        case None => Err(Incomparable(e.version))
        case Some(order) => Ok(!order.Greater?)
    else Err(UnsupportedEvent(e.kind))
  }

  function Evaluate(compare: Compare, events: seq<Event>): Result<bool, RangeError> {
    if events == [] then Ok(false)
    else match Evaluate(compare, events[..|events| - 1])
      case Err(error) => Err(error)
      case Ok(affected) => StepEvent(compare, affected, events[|events| - 1])
  }

  lemma {:induction false} FirstErrorStands(compare: Compare, events: seq<Event>, n: nat)
    requires n <= |events| && Evaluate(compare, events[..n]).Err?
    ensures Evaluate(compare, events) == Evaluate(compare, events[..n])
  {
    if n == |events| {
      assert events[..n] == events;
    } else {
      assert events[..|events| - 1][..n] == events[..n];
      FirstErrorStands(compare, events[..|events| - 1], n);
    }
  }

  method EvaluateRangeEvents(compare: Compare, events: seq<Event>) returns (r: Result<bool, RangeError>)
    ensures r == Evaluate(compare, events)
  {
    var affected := false;
    for i := 0 to |events|
      invariant Evaluate(compare, events[..i]) == Ok(affected)
    {
      var e := events[i];
      assert events[..i + 1][..i] == events[..i];
      if e.kind == "introduced" {
        if e.version == "0" {
          affected := true;
        } else {
          var order := compare(e.version);
          if order.None? {
            FirstErrorStands(compare, events, i + 1);
            return Err(Incomparable(e.version));
          }
          if order.value != Less {
            affected := true;
          }
        }
      } else if e.kind == "fixed" || e.kind == "limit" {
        if affected {
          var order := compare(e.version);
          if order.None? {
            FirstErrorStands(compare, events, i + 1);
            return Err(Incomparable(e.version));
          }
          if order.value != Less {
            affected := false;
          }
        }
      } else if e.kind == "last_affected" {
        if affected {
          var order := compare(e.version);
          if order.None? {
            FirstErrorStands(compare, events, i + 1);
            return Err(Incomparable(e.version));
          }
          affected := order.value != Greater;
        }
      } else {
        FirstErrorStands(compare, events, i + 1);
        return Err(UnsupportedEvent(e.kind));
      }
    }
    assert events[..|events|] == events;
    return Ok(affected);
  }

  // ---- What the pass decides ----

  /** The version has reached this introduction. */
  predicate Introduces(compare: Compare, e: Event) {
    e.kind == "introduced" && (e.version == "0" || (compare(e.version).Some? && compare(e.version).value != Less))
  }

  /** The version has reached this fix or limit, or passed this last affected version. */
  predicate Clears(compare: Compare, e: Event) {
    && compare(e.version).Some?
    && ((IsFix(e) && compare(e.version).value != Less)
        || (e.kind == "last_affected" && compare(e.version).value == Greater))
  }

  /** Some introduction is reached and nothing listed after it is. */
  ghost predicate Live(compare: Compare, events: seq<Event>) {
    exists i :: 0 <= i < |events| && Introduces(compare, events[i])
      && forall j :: i < j < |events| ==> !Clears(compare, events[j])
  }

  predicate Known(e: Event) {
    e.kind == "introduced" || IsFix(e) || e.kind == "last_affected"
  }

  /** The event at this position cannot be evaluated once the pass gets there. */
  ghost predicate Stuck(compare: Compare, events: seq<Event>, k: nat)
    requires k < |events|
  {
    var e := events[k];
    || !Known(e)
    || (e.kind == "introduced" && e.version != "0" && compare(e.version).None?)
    || (e.kind != "introduced" && compare(e.version).None? && Live(compare, events[..k]))
  }

  lemma {:induction false} LiveSnoc(compare: Compare, events: seq<Event>)
    requires events != []
    ensures var front, last := events[..|events| - 1], events[|events| - 1];
      Live(compare, events) <==> Introduces(compare, last) || (Live(compare, front) && !Clears(compare, last))
  {
    var n := |events| - 1;
    var front := events[..n];
    if Live(compare, events) {
      var i :| 0 <= i < |events| && Introduces(compare, events[i])
        && forall j :: i < j < |events| ==> !Clears(compare, events[j]);
      if i < n {
        assert front[i] == events[i];
      }
    }
    if Live(compare, front) && !Clears(compare, events[n]) {
      var i :| 0 <= i < |front| && Introduces(compare, front[i])
        && forall j :: i < j < |front| ==> !Clears(compare, front[j]);
      assert Introduces(compare, events[i]);
      forall j | i < j < |events|
        ensures !Clears(compare, events[j])
      {
        if j < n {
          assert front[j] == events[j];
        }
      }
    }
    if Introduces(compare, events[n]) {
      assert 0 <= n < |events|;
    }
  }

  /**
   The evaluation fails exactly when the pass gets stuck somewhere; otherwise it
   answers affected exactly when some introduction at or below the version is
   followed by no fix or limit at or below it and no last affected version below it.
   */
  lemma {:induction false} EvaluationDecides(compare: Compare, events: seq<Event>)
    ensures Evaluate(compare, events).Err? <==> exists k :: 0 <= k < |events| && Stuck(compare, events, k)
    ensures Evaluate(compare, events).Ok? ==> (Evaluate(compare, events).value <==> Live(compare, events))
  {
    if events != [] {
      var n := |events| - 1;
      var front := events[..n];
      EvaluationDecides(compare, front);
      LiveSnoc(compare, events);
      forall k | 0 <= k < n
        ensures Stuck(compare, front, k) <==> Stuck(compare, events, k)
      {
        assert front[..k] == events[..k];
      }
      if Evaluate(compare, front).Err? {
        var k :| 0 <= k < n && Stuck(compare, front, k);
        assert Stuck(compare, events, k);
      } else {
        assert Evaluate(compare, events).Err? <==> Stuck(compare, events, n);
      }
    }
  }

  // ---- Orders ----

  /** A strict order whose incomparability is an equivalence. */
  ghost predicate StrictWeakOrder(lt: (string, string) -> bool) {
    && (forall x :: !lt(x, x))
    && (forall x, y, z :: lt(x, y) && lt(y, z) ==> lt(x, z))
    && (forall x, y, z :: !lt(x, y) && !lt(y, z) ==> !lt(x, z))
  }

  function CompareBy(lt: (string, string) -> bool, version: string): Compare {
    boundary => Some(if lt(version, boundary) then Less else if lt(boundary, version) then Greater else Equal)
  }

  /** This introduction lies before every version, and its boundary is never compared. */
  predicate FromStart(e: Event) {
    e.kind == "introduced" && e.version == "0"
  }

  /** The comparator orders the version against every boundary it is asked for as `lt` does. */
  predicate Follows(compare: Compare, lt: (string, string) -> bool, version: string, events: seq<Event>) {
    forall e :: e in events ==> FromStart(e) || compare(e.version) == CompareBy(lt, version)(e.version)
  }

  /** Every boundary is a version, and on versions the comparator follows the order. */
  ghost predicate Serves(
    comparator: string -> Compare, valid: string -> bool, lt: (string, string) -> bool, events: seq<Event>)
  {
    && (forall e :: e in events ==> FromStart(e) || valid(e.version))
    && (forall v :: valid(v) ==> Follows(comparator(v), lt, v, events))
  }

  predicate AllKnown(events: seq<Event>) {
    forall e :: e in events ==> Known(e)
  }

  predicate Opens(lt: (string, string) -> bool, version: string, e: Event) {
    e.kind == "introduced" && (e.version == "0" || !lt(version, e.version))
  }

  /** What the schema lets end an interval: a fix that is reached, or a last affected version that is passed. */
  predicate Shuts(lt: (string, string) -> bool, version: string, e: Event) {
    || (e.kind == "fixed" && !lt(version, e.version))
    || (e.kind == "last_affected" && lt(e.version, version))
  }

  predicate Limits(lt: (string, string) -> bool, version: string, e: Event) {
    e.kind == "limit" && !lt(version, e.version)
  }

  /** This introduction is reached and nothing behind it shuts the interval. */
  ghost predicate OpenFrom(lt: (string, string) -> bool, version: string, events: seq<Event>, i: nat) {
    && i < |events| && Opens(lt, version, events[i])
    && forall j :: i < j < |events| ==> !Shuts(lt, version, events[j])
  }

  /** Some introduction is reached and nothing behind it shuts the interval. */
  ghost predicate OpenUnder(lt: (string, string) -> bool, version: string, events: seq<Event>) {
    exists i: nat :: OpenFrom(lt, version, events, i)
  }

  /** Nor does a limit behind it. */
  ghost predicate LiveFrom(lt: (string, string) -> bool, version: string, events: seq<Event>, i: nat) {
    OpenFrom(lt, version, events, i) && forall j :: i < j < |events| ==> !Limits(lt, version, events[j])
  }

  ghost predicate LiveUnder(lt: (string, string) -> bool, version: string, events: seq<Event>) {
    exists i: nat :: LiveFrom(lt, version, events, i)
  }

  lemma {:induction false} EventsUnder(compare: Compare, lt: (string, string) -> bool, version: string, e: Event)
    requires StrictWeakOrder(lt)
    requires Known(e) && (FromStart(e) || compare(e.version) == CompareBy(lt, version)(e.version))
    ensures Introduces(compare, e) <==> Opens(lt, version, e)
    ensures !Introduces(compare, e) ==>
      (Clears(compare, e) <==> Shuts(lt, version, e) || Limits(lt, version, e))
    ensures e.kind != "introduced" ==>
      (Clears(compare, e) <==> Shuts(lt, version, e) || Limits(lt, version, e))
  {
  }

  /** Under a comparator that follows an order the pass never fails, and decides by that order. */
  lemma {:induction false} PassUnder(compare: Compare, lt: (string, string) -> bool, version: string, events: seq<Event>)
    requires StrictWeakOrder(lt) && AllKnown(events) && Follows(compare, lt, version, events)
    ensures Evaluate(compare, events) == Ok(LiveUnder(lt, version, events))
  {
    EvaluationDecides(compare, events);
    forall i | 0 <= i < |events|
      ensures Introduces(compare, events[i]) <==> Opens(lt, version, events[i])
      ensures Clears(compare, events[i]) <==> Shuts(lt, version, events[i]) || Limits(lt, version, events[i])
      ensures !Stuck(compare, events, i)
    {
      assert events[i] in events;
      EventsUnder(compare, lt, version, events[i]);
    }
    if Live(compare, events) {
      var i :| 0 <= i < |events| && Introduces(compare, events[i])
        && forall j :: i < j < |events| ==> !Clears(compare, events[j]);
      assert LiveFrom(lt, version, events, i);
    }
    if i: nat :| LiveFrom(lt, version, events, i) {
      assert Introduces(compare, events[i]);
    }
  }

  // ---- Interval lists ----

  /** The events of half-open intervals, one introduction and one fix each. */
  function IntervalEvents(intervals: seq<(string, string)>): (events: seq<Event>)
    ensures |events| == 2 * |intervals|
    ensures forall m :: 0 <= m < |intervals| ==>
      events[2 * m] == Event("introduced", intervals[m].0) && events[2 * m + 1] == Event("fixed", intervals[m].1)
  {
    if intervals == [] then []
    else
      var n := |intervals| - 1;
      IntervalEvents(intervals[..n]) + [Event("introduced", intervals[n].0), Event("fixed", intervals[n].1)]
  }

  /** An event of the list is the introduction or the fix of one of its intervals. */
  lemma {:induction false} IntervalOf(intervals: seq<(string, string)>, i: nat) returns (m: nat)
    requires i < 2 * |intervals|
    ensures m < |intervals| && (i == 2 * m || i == 2 * m + 1)
    ensures IntervalEvents(intervals)[i] ==
      if i == 2 * m then Event("introduced", intervals[m].0) else Event("fixed", intervals[m].1)
  {
    m := i / 2;
    assert i == 2 * m || i == 2 * m + 1;
    assert IntervalEvents(intervals)[2 * m] == Event("introduced", intervals[m].0);
  }

  /** The fixes are listed in ascending order. */
  ghost predicate Ascending(lt: (string, string) -> bool, intervals: seq<(string, string)>) {
    forall m, k :: 0 <= m < k < |intervals| ==> !lt(intervals[k].1, intervals[m].1)
  }

  predicate Within(lt: (string, string) -> bool, version: string, interval: (string, string)) {
    (interval.0 == "0" || !lt(version, interval.0)) && lt(version, interval.1)
  }

  /** Inside an interval, its introduction is reached and no later fix is. */
  lemma {:induction false} WithinIsLive(lt: (string, string) -> bool, intervals: seq<(string, string)>, version: string, m: nat)
    requires StrictWeakOrder(lt) && Ascending(lt, intervals)
    requires m < |intervals| && Within(lt, version, intervals[m])
    ensures LiveUnder(lt, version, IntervalEvents(intervals))
  {
    var events := IntervalEvents(intervals);
    assert Opens(lt, version, events[2 * m]);
    forall j | 2 * m < j < |events|
      ensures !Shuts(lt, version, events[j]) && !Limits(lt, version, events[j])
    {
      var k := IntervalOf(intervals, j);
      if j == 2 * k + 1 && k > m {
        assert lt(version, intervals[m].1) && !lt(intervals[k].1, intervals[m].1);
      }
    }
    assert LiveFrom(lt, version, events, 2 * m);
  }

  lemma {:induction false} LiveIsWithin(lt: (string, string) -> bool, intervals: seq<(string, string)>, version: string) returns (m: nat)
    requires LiveUnder(lt, version, IntervalEvents(intervals))
    ensures m < |intervals| && Within(lt, version, intervals[m])
  {
    var events := IntervalEvents(intervals);
    var i: nat :| LiveFrom(lt, version, events, i);
    m := IntervalOf(intervals, i);
    assert i == 2 * m && !Shuts(lt, version, events[2 * m + 1]);
  }

  /** Under any comparator that follows an order, an ascending alternating list is the union of its half-open intervals. */
  lemma {:induction false} IntervalsAreUnions(
    compare: Compare, lt: (string, string) -> bool, intervals: seq<(string, string)>, version: string)
    requires StrictWeakOrder(lt) && Ascending(lt, intervals)
    requires Follows(compare, lt, version, IntervalEvents(intervals))
    ensures Evaluate(compare, IntervalEvents(intervals))
         == Ok(exists m :: 0 <= m < |intervals| && Within(lt, version, intervals[m]))
  {
    var events := IntervalEvents(intervals);
    forall e | e in events
      ensures Known(e)
    {
      var i :| 0 <= i < |events| && events[i] == e;
      var m := IntervalOf(intervals, i);
    }
    PassUnder(compare, lt, version, events);
    if LiveUnder(lt, version, events) {
      var m := LiveIsWithin(lt, intervals, version);
    }
    if m :| 0 <= m < |intervals| && Within(lt, version, intervals[m]) {
      WithinIsLive(lt, intervals, version, m);
    }
  }
}
