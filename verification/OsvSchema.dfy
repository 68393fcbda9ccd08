/** The OSV Schema's evaluation of a range, and when the pass gives the same answer. */
module OsvSchema {
  import opened Prelude
  import opened Text
  import opened RangeEvents

  // The "Evaluation" section of the schema sorts a range's events before it passes
  // over them and keeps limits apart; the program takes events as they are listed
  // and treats a limit like a fix.

  // ---- The schema's algorithm ----

  /** The order the schema sorts events in: "introduced" at "0" comes first. */
  predicate Before(lt: (string, string) -> bool, a: Event, b: Event) {
    !FromStart(b) && (FromStart(a) || lt(a.version, b.version))
  }

  /** Put an event behind every one that it does not come before. */
  function InsertEvent(lt: (string, string) -> bool, sorted: seq<Event>, e: Event): seq<Event> {
    if sorted == [] || !Before(lt, e, sorted[|sorted| - 1]) then sorted + [e]
    else InsertEvent(lt, sorted[..|sorted| - 1], e) + [sorted[|sorted| - 1]]
  }

  function SortEvents(lt: (string, string) -> bool, events: seq<Event>): seq<Event> {
    if events == [] then [] else InsertEvent(lt, SortEvents(lt, events[..|events| - 1]), events[|events| - 1])
  }

  /** No event is listed behind one that it comes before. */
  ghost predicate InOrder(lt: (string, string) -> bool, events: seq<Event>) {
    forall i, j :: 0 <= i < j < |events| ==> !Before(lt, events[j], events[i])
  }

  /** The schema's flag after a pass over these events in their order; limits take no part in it. */
  predicate Flag(lt: (string, string) -> bool, version: string, events: seq<Event>) {
    events != [] &&
    var front, e := events[..|events| - 1], events[|events| - 1];
    if Opens(lt, version, e) then true
    else if Shuts(lt, version, e) then false
    else Flag(lt, version, front)
  }

  /** With limits, the schema asks that the version lie before one of them. */
  predicate BeforeLimits(lt: (string, string) -> bool, version: string, events: seq<Event>) {
    (exists e :: e in events && e.kind == "limit") ==>
      exists e :: e in events && e.kind == "limit" && lt(version, e.version)
  }

  /** The schema's answer for one range: the flag after the sorted events, for a version before some limit. */
  predicate SchemaAffected(lt: (string, string) -> bool, version: string, events: seq<Event>) {
    BeforeLimits(lt, version, events) && Flag(lt, version, SortEvents(lt, events))
  }

  lemma {:induction false} BeforeOrders(lt: (string, string) -> bool, a: Event, b: Event, c: Event)
    requires StrictWeakOrder(lt)
    ensures !Before(lt, a, a)
    ensures !Before(lt, a, b) && !Before(lt, b, c) ==> !Before(lt, a, c)
    ensures Before(lt, a, b) ==> !Before(lt, b, a)
  {
  }

  lemma {:induction false} InsertKeepsEvents(lt: (string, string) -> bool, sorted: seq<Event>, e: Event)
    ensures multiset(InsertEvent(lt, sorted, e)) == multiset(sorted + [e])
    ensures forall x :: x in InsertEvent(lt, sorted, e) ==> x == e || x in sorted
  {
    if sorted != [] {
      var n := |sorted| - 1;
      assert sorted == sorted[..n] + [sorted[n]];
      InsertKeepsEvents(lt, sorted[..n], e);
    }
  }

  lemma {:induction false} InsertKeepsOrder(lt: (string, string) -> bool, sorted: seq<Event>, e: Event)
    requires StrictWeakOrder(lt) && InOrder(lt, sorted)
    ensures InOrder(lt, InsertEvent(lt, sorted, e))
  {
    if sorted != [] {
      var n := |sorted| - 1;
      var front, last := sorted[..n], sorted[n];
      if Before(lt, e, last) {
        InsertKeepsOrder(lt, front, e);
        InsertKeepsEvents(lt, front, e);
        BeforeOrders(lt, e, last, last);
        assert forall x :: x in InsertEvent(lt, front, e) ==> !Before(lt, last, x);
      } else {
        forall i | 0 <= i < |sorted|
          ensures !Before(lt, e, sorted[i])
        {
          BeforeOrders(lt, e, last, sorted[i]);
        }
      }
    }
  }

  /** Sorting puts the same events in order. */
  lemma {:induction false} SortIsOrdered(lt: (string, string) -> bool, events: seq<Event>)
    requires StrictWeakOrder(lt)
    ensures InOrder(lt, SortEvents(lt, events))
    ensures multiset(SortEvents(lt, events)) == multiset(events)
  {
    if events != [] {
      var n := |events| - 1;
      SortIsOrdered(lt, events[..n]);
      InsertKeepsOrder(lt, SortEvents(lt, events[..n]), events[n]);
      InsertKeepsEvents(lt, SortEvents(lt, events[..n]), events[n]);
      assert events == events[..n] + [events[n]];
    }
  }

  /** A list in order is sorted already. */
  lemma {:induction false} SortKeepsOrdered(lt: (string, string) -> bool, events: seq<Event>)
    requires InOrder(lt, events)
    ensures SortEvents(lt, events) == events
  {
    if events != [] {
      var n := |events| - 1;
      SortKeepsOrdered(lt, events[..n]);
      assert events == events[..n] + [events[n]];
    }
  }

  // ---- Lists in any order ----

  /** The last event listed that opens or shuts an interval or limits it. */
  function LastWord(lt: (string, string) -> bool, version: string, events: seq<Event>): Option<Event> {
    if events == [] then None
    else
      var e := events[|events| - 1];
      if Opens(lt, version, e) || Shuts(lt, version, e) || Limits(lt, version, e) then Some(e)
      else LastWord(lt, version, events[..|events| - 1])
  }

  /** Among the events that open or shut an interval the highest, the last listed one of several. */
  function HighestWord(lt: (string, string) -> bool, version: string, events: seq<Event>): Option<Event> {
    if events == [] then None
    else
      var e, highest := events[|events| - 1], HighestWord(lt, version, events[..|events| - 1]);
      if !Opens(lt, version, e) && !Shuts(lt, version, e) then highest
      else if highest.None? || !Before(lt, e, highest.value) then Some(e)
      else highest
  }

  predicate Opening(word: Option<Event>) {
    word.Some? && word.value.kind == "introduced"
  }

  lemma {:induction false} PassIsLastWord(compare: Compare, lt: (string, string) -> bool, version: string, events: seq<Event>)
    requires StrictWeakOrder(lt) && AllKnown(events) && Follows(compare, lt, version, events)
    ensures Evaluate(compare, events) == Ok(Opening(LastWord(lt, version, events)))
  {
    if events != [] {
      var front, last := events[..|events| - 1], events[|events| - 1];
      assert last in events;
      PassIsLastWord(compare, lt, version, front);
    }
  }

  lemma {:induction false} HighestIsListed(lt: (string, string) -> bool, version: string, events: seq<Event>)
    ensures HighestWord(lt, version, events).Some? ==> HighestWord(lt, version, events).value in events
  {
    if events != [] {
      HighestIsListed(lt, version, events[..|events| - 1]);
    }
  }

  lemma {:induction false} HighestSnoc(lt: (string, string) -> bool, version: string, events: seq<Event>, e: Event)
    ensures HighestWord(lt, version, events + [e]) ==
      var highest := HighestWord(lt, version, events);
      if !Opens(lt, version, e) && !Shuts(lt, version, e) then highest
      else if highest.None? || !Before(lt, e, highest.value) then Some(e)
      else highest
  {
    assert (events + [e])[..|events|] == events;
  }

  /** An event that no event of a list comes behind is its highest word once it is added, if it is one. */
  lemma {:induction false} HighestOfLast(lt: (string, string) -> bool, version: string, events: seq<Event>, last: Event)
    requires forall x :: x in events ==> !Before(lt, last, x)
    ensures HighestWord(lt, version, events + [last]) ==
      if Opens(lt, version, last) || Shuts(lt, version, last) then Some(last) else HighestWord(lt, version, events)
  {
    HighestSnoc(lt, version, events, last);
    HighestIsListed(lt, version, events);
  }

  /** In a sorted list the highest word is the last one of those that open or shut. */
  lemma {:induction false} SortedHighest(lt: (string, string) -> bool, version: string, events: seq<Event>)
    requires StrictWeakOrder(lt) && InOrder(lt, events)
    ensures Flag(lt, version, events) <==> Opening(HighestWord(lt, version, events))
  {
    if events != [] {
      var front, last := events[..|events| - 1], events[|events| - 1];
      assert events == front + [last];
      SortedHighest(lt, version, front);
      HighestOfLast(lt, version, front, last);
    }
  }

  /** Inserting in order finds the same highest word as listing last. */
  lemma {:induction false} InsertHighest(lt: (string, string) -> bool, version: string, sorted: seq<Event>, e: Event)
    requires StrictWeakOrder(lt) && InOrder(lt, sorted)
    ensures HighestWord(lt, version, InsertEvent(lt, sorted, e)) == HighestWord(lt, version, sorted + [e])
  {
    if sorted != [] && Before(lt, e, sorted[|sorted| - 1]) {
      var n := |sorted| - 1;
      var front, last := sorted[..n], sorted[n];
      assert sorted == front + [last];
      InsertHighest(lt, version, front, e);
      InsertKeepsEvents(lt, front, e);
      BeforeOrders(lt, e, last, last);
      assert forall x :: x in front ==> !Before(lt, last, x);
      HighestOfLast(lt, version, InsertEvent(lt, front, e), last);
      HighestOfLast(lt, version, front, last);
      HighestSnoc(lt, version, front, e);
      HighestSnoc(lt, version, sorted, e);
    }
  }

  lemma {:induction false} SortHighest(lt: (string, string) -> bool, version: string, events: seq<Event>)
    requires StrictWeakOrder(lt)
    ensures HighestWord(lt, version, SortEvents(lt, events)) == HighestWord(lt, version, events)
  {
    if events != [] {
      var n := |events| - 1;
      var sorted := SortEvents(lt, events[..n]);
      SortHighest(lt, version, events[..n]);
      SortIsOrdered(lt, events[..n]);
      InsertHighest(lt, version, sorted, events[n]);
      assert (sorted + [events[n]])[..|sorted|] == sorted;
    }
  }

  /**
   For any list, in order or not: the pass answers by the last word listed, the
   schema by the highest word of a version before some limit, and the two agree if
   and only if both of these are an introduction or neither is.
   */
  lemma {:induction false} MatchesSchemaExactly(
    compare: Compare, lt: (string, string) -> bool, version: string, events: seq<Event>)
    requires StrictWeakOrder(lt) && AllKnown(events) && Follows(compare, lt, version, events)
    ensures Evaluate(compare, events) == Ok(SchemaAffected(lt, version, events)) <==>
      (Opening(LastWord(lt, version, events)) <==>
       Opening(HighestWord(lt, version, events)) && BeforeLimits(lt, version, events))
  {
    PassIsLastWord(compare, lt, version, events);
    SortIsOrdered(lt, events);
    SortedHighest(lt, version, SortEvents(lt, events));
    SortHighest(lt, version, events);
  }

  // ---- Which lists do not depend on their order ----

  /** An event that opens or shuts an interval for this version. */
  predicate Speaks(lt: (string, string) -> bool, version: string, e: Event) {
    Opens(lt, version, e) || Shuts(lt, version, e)
  }

  /** An event that the pass heeds for this version. */
  predicate Counts(lt: (string, string) -> bool, version: string, e: Event) {
    Speaks(lt, version, e) || Limits(lt, version, e)
  }

  /** A place among versions: at the boundary of an event, or past it but before any higher boundary of the list. */
  datatype Cut = Cut(at: Event, past: bool)

  /** For versions at this place the event opens, shuts or limits an interval. */
  predicate Decides(lt: (string, string) -> bool, cut: Cut, e: Event) {
    if e.kind == "last_affected" && !cut.past then Before(lt, e, cut.at) else !Before(lt, cut.at, e)
  }

  /** Of the events other than limits that decide at this place the highest, the last listed one of several. */
  ghost predicate IsTop(lt: (string, string) -> bool, events: seq<Event>, cut: Cut, h: nat)
    requires h < |events|
  {
    && Decides(lt, cut, events[h]) && events[h].kind != "limit"
    && (forall k :: 0 <= k < |events| && Decides(lt, cut, events[k]) && events[k].kind != "limit" ==>
          !Before(lt, events[h], events[k]))
    && (forall k :: h < k < |events| && Decides(lt, cut, events[k]) && events[k].kind != "limit" ==>
          Before(lt, events[k], events[h]))
  }

  /** Of the events that decide at this place the last listed. */
  ghost predicate IsLast(lt: (string, string) -> bool, events: seq<Event>, cut: Cut, m: nat)
    requires m < |events|
  {
    Decides(lt, cut, events[m]) && forall k :: m < k < |events| ==> !Decides(lt, cut, events[k])
  }

  /** At this place the last listed event is an introduction. */
  ghost predicate ListOpens(lt: (string, string) -> bool, events: seq<Event>, cut: Cut) {
    exists m :: 0 <= m < |events| && IsLast(lt, events, cut, m) && events[m].kind == "introduced"
  }

  /** At this place the highest event is an introduction. */
  ghost predicate OrderOpens(lt: (string, string) -> bool, events: seq<Event>, cut: Cut) {
    exists h :: 0 <= h < |events| && IsTop(lt, events, cut, h) && events[h].kind == "introduced"
  }

  /** If the list has limits, one of them is above this place. */
  ghost predicate Unlimited(lt: (string, string) -> bool, events: seq<Event>, cut: Cut) {
    (exists e :: e in events && e.kind == "limit") ==>
      exists e :: e in events && e.kind == "limit" && !Decides(lt, cut, e)
  }

  ghost predicate AgreeAt(lt: (string, string) -> bool, events: seq<Event>, cut: Cut) {
    ListOpens(lt, events, cut) <==> OrderOpens(lt, events, cut) && Unlimited(lt, events, cut)
  }

  /**
   At every place that the list's boundaries make, the last listed event is an
   introduction if and only if the highest is and some limit, if there are any, is
   still above.
   */
  ghost predicate OrderDoesNotMatter(lt: (string, string) -> bool, events: seq<Event>) {
    forall i, past :: 0 <= i < |events| ==> AgreeAt(lt, events, Cut(events[i], past))
  }

  ghost predicate IsHighest(lt: (string, string) -> bool, version: string, events: seq<Event>, h: nat)
    requires h < |events|
  {
    && Speaks(lt, version, events[h])
    && (forall k :: 0 <= k < |events| && Speaks(lt, version, events[k]) ==> !Before(lt, events[h], events[k]))
    && (forall k :: h < k < |events| && Speaks(lt, version, events[k]) ==> Before(lt, events[k], events[h]))
  }

  lemma {:induction false} HighestStep(lt: (string, string) -> bool, version: string, events: seq<Event>, h: nat)
    requires StrictWeakOrder(lt) && h < |events| - 1 && IsHighest(lt, version, events[..|events| - 1], h)
    ensures var n := |events| - 1;
      var taken := Speaks(lt, version, events[n]) && !Before(lt, events[n], events[h]);
      IsHighest(lt, version, events, if taken then n else h)
  {
    var n := |events| - 1;
    var front, last := events[..n], events[n];
    assert forall k :: 0 <= k < n ==> events[k] == front[k];
    BeforeOrders(lt, last, events[h], last);
    if Speaks(lt, version, last) && !Before(lt, last, events[h]) {
      forall k | 0 <= k < n && Speaks(lt, version, events[k])
        ensures !Before(lt, last, events[k])
      {
        BeforeOrders(lt, last, events[h], events[k]);
      }
    }
  }

  lemma {:induction false} HighestAt(lt: (string, string) -> bool, version: string, events: seq<Event>) returns (h: nat)
    requires StrictWeakOrder(lt) && exists k :: 0 <= k < |events| && Speaks(lt, version, events[k])
    ensures h < |events| && IsHighest(lt, version, events, h)
    ensures HighestWord(lt, version, events) == Some(events[h])
  {
    var n := |events| - 1;
    var front, last := events[..n], events[n];
    assert forall k :: 0 <= k < n ==> events[k] == front[k];
    if k :| 0 <= k < n && Speaks(lt, version, front[k]) {
      h := HighestAt(lt, version, front);
      HighestStep(lt, version, events, h);
      if Speaks(lt, version, last) && !Before(lt, last, events[h]) {
        h := n;
      }
    } else {
      NoHighest(lt, version, front);
      BeforeOrders(lt, last, last, last);
      h := n;
    }
  }

  lemma {:induction false} NoHighest(lt: (string, string) -> bool, version: string, events: seq<Event>)
    requires forall k :: 0 <= k < |events| ==> !Speaks(lt, version, events[k])
    ensures HighestWord(lt, version, events) == None
  {
    if events != [] {
      NoHighest(lt, version, events[..|events| - 1]);
    }
  }

  lemma {:induction false} LastAt(lt: (string, string) -> bool, version: string, events: seq<Event>) returns (m: nat)
    requires exists k :: 0 <= k < |events| && Counts(lt, version, events[k])
    ensures m < |events| && Counts(lt, version, events[m])
    ensures forall k :: m < k < |events| ==> !Counts(lt, version, events[k])
    ensures LastWord(lt, version, events) == Some(events[m])
  {
    var n := |events| - 1;
    var front, last := events[..n], events[n];
    if Counts(lt, version, last) {
      m := n;
    } else {
      var k :| 0 <= k < |events| && Counts(lt, version, events[k]);
      assert front[k] == events[k];
      m := LastAt(lt, version, front);
    }
  }

  lemma {:induction false} NoLast(lt: (string, string) -> bool, version: string, events: seq<Event>)
    requires forall k :: 0 <= k < |events| ==> !Counts(lt, version, events[k])
    ensures LastWord(lt, version, events) == None
  {
    if events != [] {
      assert !Counts(lt, version, events[|events| - 1]);
      NoLast(lt, version, events[..|events| - 1]);
    }
  }

  /** The version is where the place is, as far as the events of this list can tell. */
  ghost predicate StandsAt(lt: (string, string) -> bool, version: string, events: seq<Event>, cut: Cut) {
    forall k :: 0 <= k < |events| ==> (Counts(lt, version, events[k]) <==> Decides(lt, cut, events[k]))
  }

  predicate AtOrBelow(lt: (string, string) -> bool, version: string, e: Event) {
    FromStart(e) || !lt(version, e.version)
  }

  /** Of the events at or below a version one that no other is above. */
  lemma {:induction false} HighestBelow(lt: (string, string) -> bool, version: string, events: seq<Event>) returns (i: nat)
    requires StrictWeakOrder(lt) && exists k :: 0 <= k < |events| && AtOrBelow(lt, version, events[k])
    ensures i < |events| && AtOrBelow(lt, version, events[i])
    ensures forall k :: 0 <= k < |events| && AtOrBelow(lt, version, events[k]) ==> !Before(lt, events[i], events[k])
  {
    var n := |events| - 1;
    var front, last := events[..n], events[n];
    assert forall k :: 0 <= k < n ==> events[k] == front[k];
    BeforeOrders(lt, last, last, last);
    if k :| 0 <= k < n && AtOrBelow(lt, version, front[k]) {
      i := HighestBelow(lt, version, front);
      BeforeOrders(lt, events[i], last, last);
      if AtOrBelow(lt, version, last) && Before(lt, events[i], last) {
        forall k | 0 <= k < n && AtOrBelow(lt, version, events[k])
          ensures !Before(lt, last, events[k])
        {
          BeforeOrders(lt, last, events[i], events[k]);
        }
        i := n;
      }
    } else {
      i := n;
    }
  }

  /** Every version for which some event counts stands at a place that the list's boundaries make. */
  lemma {:induction false} PlaceOf(lt: (string, string) -> bool, version: string, events: seq<Event>)
    returns (i: nat, past: bool)
    requires StrictWeakOrder(lt) && AllKnown(events)
    requires exists k :: 0 <= k < |events| && Counts(lt, version, events[k])
    ensures i < |events| && StandsAt(lt, version, events, Cut(events[i], past))
  {
    var k :| 0 <= k < |events| && Counts(lt, version, events[k]);
    assert AtOrBelow(lt, version, events[k]);
    i := HighestBelow(lt, version, events);
    past := lt(events[i].version, version);
    forall k | 0 <= k < |events|
      ensures Counts(lt, version, events[k]) <==> Decides(lt, Cut(events[i], past), events[k])
    {
      assert events[k] in events && events[i] in events;
    }
  }

  /** A version past this boundary and before every higher one of the list. */
  ghost predicate JustAbove(lt: (string, string) -> bool, version: string, events: seq<Event>, e: Event) {
    lt(e.version, version) && forall x :: x in events && Before(lt, e, x) ==> lt(version, x.version)
  }

  /** Past every last affected version there is room for a version before the next boundary. */
  ghost predicate Roomy(lt: (string, string) -> bool, valid: string -> bool, events: seq<Event>) {
    forall e :: e in events && e.kind == "last_affected" ==> exists v :: valid(v) && JustAbove(lt, v, events, e)
  }

  lemma {:induction false} AtItsBoundary(lt: (string, string) -> bool, events: seq<Event>, i: nat)
    requires StrictWeakOrder(lt) && AllKnown(events) && i < |events| && !FromStart(events[i])
    ensures StandsAt(lt, events[i].version, events, Cut(events[i], false))
  {
    forall k | 0 <= k < |events|
      ensures Counts(lt, events[i].version, events[k]) <==> Decides(lt, Cut(events[i], false), events[k])
    {
      assert events[k] in events;
    }
  }

  lemma {:induction false} PastABoundary(lt: (string, string) -> bool, version: string, events: seq<Event>, i: nat, e: Event)
    requires StrictWeakOrder(lt) && AllKnown(events) && i < |events| && !FromStart(events[i])
    requires !FromStart(e) && !Before(lt, e, events[i]) && !Before(lt, events[i], e) && JustAbove(lt, version, events, e)
    ensures StandsAt(lt, version, events, Cut(events[i], true))
  {
    forall k | 0 <= k < |events|
      ensures Counts(lt, version, events[k]) <==> Decides(lt, Cut(events[i], true), events[k])
    {
      var x := events[k];
      assert x in events;
      BeforeOrders(lt, events[i], e, x);
      BeforeOrders(lt, e, events[i], x);
    }
  }

  /** A last affected event at the boundary of another event. */
  ghost predicate TiedLastAffected(lt: (string, string) -> bool, e: Event, at: Event) {
    e.kind == "last_affected" && !Before(lt, e, at) && !Before(lt, at, e)
  }

  /** Every place but the start is that of some version. */
  lemma {:induction false} VersionAt(
    lt: (string, string) -> bool, valid: string -> bool, events: seq<Event>, i: nat, past: bool) returns (v: string)
    requires StrictWeakOrder(lt) && AllKnown(events) && Roomy(lt, valid, events)
    requires i < |events| && !FromStart(events[i]) && valid(events[i].version)
    ensures valid(v) && StandsAt(lt, v, events, Cut(events[i], past))
  {
    v := events[i].version;
    AtItsBoundary(lt, events, i);
    if past {
      if j: nat :| j < |events| && TiedLastAffected(lt, events[j], events[i]) {
        assert events[j] in events;
        v :| valid(v) && JustAbove(lt, v, events, events[j]);
        PastABoundary(lt, v, events, i, events[j]);
      } else {
        forall k | 0 <= k < |events|
          ensures Decides(lt, Cut(events[i], true), events[k]) <==> Decides(lt, Cut(events[i], false), events[k])
        {
          BeforeOrders(lt, events[k], events[i], events[k]);
        }
      }
    }
  }

  /** The last word of a version at a place. */
  lemma {:induction false} LastSays(lt: (string, string) -> bool, version: string, events: seq<Event>, cut: Cut)
    requires AllKnown(events) && StandsAt(lt, version, events, cut)
    ensures Opening(LastWord(lt, version, events)) <==> ListOpens(lt, events, cut)
  {
    if k :| 0 <= k < |events| && Counts(lt, version, events[k]) {
      var m := LastAt(lt, version, events);
      assert IsLast(lt, events, cut, m);
      assert forall n :: 0 <= n < |events| && IsLast(lt, events, cut, n) ==> n == m;
    } else {
      NoLast(lt, version, events);
    }
  }

  /** Its highest word. */
  lemma {:induction false} HighestSays(lt: (string, string) -> bool, version: string, events: seq<Event>, cut: Cut)
    requires StrictWeakOrder(lt) && AllKnown(events) && StandsAt(lt, version, events, cut)
    ensures Opening(HighestWord(lt, version, events)) <==> OrderOpens(lt, events, cut)
  {
    forall k | 0 <= k < |events|
      ensures Speaks(lt, version, events[k]) <==> Decides(lt, cut, events[k]) && events[k].kind != "limit"
    {
      assert Counts(lt, version, events[k]) <==> Decides(lt, cut, events[k]);
    }
    if k :| 0 <= k < |events| && Speaks(lt, version, events[k]) {
      var h := HighestAt(lt, version, events);
      assert IsTop(lt, events, cut, h);
      assert forall g :: 0 <= g < |events| && IsTop(lt, events, cut, g) ==> g == h;
    } else {
      NoHighest(lt, version, events);
    }
  }

  /** Its limits. */
  lemma {:induction false} LimitsSay(lt: (string, string) -> bool, version: string, events: seq<Event>, cut: Cut)
    requires StandsAt(lt, version, events, cut)
    ensures BeforeLimits(lt, version, events) <==> Unlimited(lt, events, cut)
  {
    forall e | e in events && e.kind == "limit"
      ensures lt(version, e.version) <==> !Decides(lt, cut, e)
    {
      var k :| 0 <= k < |events| && events[k] == e;
      assert Counts(lt, version, events[k]) <==> Decides(lt, cut, events[k]);
    }
  }

  /** Pass and schema give a version the same answer. */
  predicate Agrees(lt: (string, string) -> bool, version: string, events: seq<Event>) {
    Opening(LastWord(lt, version, events)) <==>
    Opening(HighestWord(lt, version, events)) && BeforeLimits(lt, version, events)
  }

  lemma {:induction false} AgreesAtItsPlace(lt: (string, string) -> bool, version: string, events: seq<Event>, cut: Cut)
    requires StrictWeakOrder(lt) && AllKnown(events) && StandsAt(lt, version, events, cut)
    ensures Agrees(lt, version, events) <==> AgreeAt(lt, events, cut)
  {
    LastSays(lt, version, events, cut);
    HighestSays(lt, version, events, cut);
    LimitsSay(lt, version, events, cut);
  }

  /** Where order does not matter, they do so for every version. */
  lemma {:induction false} OrderedOrNot(lt: (string, string) -> bool, version: string, events: seq<Event>)
    requires StrictWeakOrder(lt) && AllKnown(events) && OrderDoesNotMatter(lt, events)
    ensures Agrees(lt, version, events)
  {
    if k :| 0 <= k < |events| && Counts(lt, version, events[k]) {
      var i, past := PlaceOf(lt, version, events);
      AgreesAtItsPlace(lt, version, events, Cut(events[i], past));
    } else {
      NoHighest(lt, version, events);
      NoLast(lt, version, events);
    }
  }

  /** At the start only introductions decide. */
  lemma {:induction false} AgreeAtStart(lt: (string, string) -> bool, events: seq<Event>, i: nat, past: bool)
    requires i < |events| && FromStart(events[i])
    ensures AgreeAt(lt, events, Cut(events[i], past))
  {
    var cut := Cut(events[i], past);
    assert forall e :: Decides(lt, cut, e) <==> FromStart(e);
    var m := LastFromStart(events, i);
    assert IsLast(lt, events, cut, m) && IsTop(lt, events, cut, m);
  }

  lemma {:induction false} LastFromStart(events: seq<Event>, i: nat) returns (m: nat)
    requires i < |events| && FromStart(events[i])
    ensures m < |events| && FromStart(events[m]) && forall k :: m < k < |events| ==> !FromStart(events[k])
    decreases |events| - i
  {
    if k :| i < k < |events| && FromStart(events[k]) {
      m := LastFromStart(events, k);
    } else {
      m := i;
    }
  }

  /** Where it does matter, they differ for some version. */
  lemma {:induction false} ClashIsHeard(
    lt: (string, string) -> bool, valid: string -> bool, events: seq<Event>, i: nat, past: bool)
    returns (v: string)
    requires StrictWeakOrder(lt) && AllKnown(events) && Roomy(lt, valid, events)
    requires forall e :: e in events ==> FromStart(e) || valid(e.version)
    requires i < |events| && !AgreeAt(lt, events, Cut(events[i], past))
    ensures valid(v) && !Agrees(lt, v, events)
  {
    if FromStart(events[i]) {
      AgreeAtStart(lt, events, i, past);
    } else {
      assert events[i] in events;
      v := VersionAt(lt, valid, events, i, past);
      AgreesAtItsPlace(lt, v, events, Cut(events[i], past));
    }
  }

  /**
   A list gets the schema's answer for every version, in whatever order it lists its
   events, if pass and schema agree at every place that its boundaries make; and only
   if, where there is room for a version past each last affected one.
   */
  lemma {:induction false} AnyOrderMatchesSchema(
    comparator: string -> Compare, valid: string -> bool, lt: (string, string) -> bool, events: seq<Event>)
    requires StrictWeakOrder(lt) && AllKnown(events) && Serves(comparator, valid, lt, events)
    ensures OrderDoesNotMatter(lt, events) ==>
      forall v :: valid(v) ==> Evaluate(comparator(v), events) == Ok(SchemaAffected(lt, v, events))
    ensures Roomy(lt, valid, events) ==>
      ((forall v :: valid(v) ==> Evaluate(comparator(v), events) == Ok(SchemaAffected(lt, v, events))) ==>
       OrderDoesNotMatter(lt, events))
  {
    forall v | valid(v)
      ensures Evaluate(comparator(v), events) == Ok(SchemaAffected(lt, v, events)) <==> Agrees(lt, v, events)
      ensures OrderDoesNotMatter(lt, events) ==> Agrees(lt, v, events)
    {
      MatchesSchemaExactly(comparator(v), lt, v, events);
      if OrderDoesNotMatter(lt, events) {
        OrderedOrNot(lt, v, events);
      }
    }
    if Roomy(lt, valid, events) && !OrderDoesNotMatter(lt, events) {
      var i, past :| 0 <= i < |events| && !AgreeAt(lt, events, Cut(events[i], past));
      var v := ClashIsHeard(lt, valid, events, i, past);
    }
  }

  /** A reached fix listed before the introduction below it: the pass says affected, the schema does not. */
  lemma {:induction false} FixListedFirst(
    compare: Compare, lt: (string, string) -> bool, version: string, introduced: string, fixed: string)
    requires StrictWeakOrder(lt) && introduced != "0" && lt(introduced, fixed) && !lt(version, fixed)
    requires Follows(compare, lt, version, [Event("fixed", fixed), Event("introduced", introduced)])
    ensures var events := [Event("fixed", fixed), Event("introduced", introduced)];
      Evaluate(compare, events) == Ok(true) && !SchemaAffected(lt, version, events)
  {
    var fix, intro := Event("fixed", fixed), Event("introduced", introduced);
    var events := [fix, intro];
    assert !lt(version, introduced);
    PassIsLastWord(compare, lt, version, events);
    assert events[..1] == [fix] && [fix][..0] == [];
    assert HighestWord(lt, version, [fix]) == Some(fix);
    assert HighestWord(lt, version, events) == Some(fix);
    SortIsOrdered(lt, events);
    SortedHighest(lt, version, SortEvents(lt, events));
    SortHighest(lt, version, events);
  }

  function TextOrder(): (string, string) -> bool {
    (a, b) => TextLess(a, b)
  }

  lemma {:induction false} TextOrderIsWeak()
    ensures StrictWeakOrder(TextOrder())
  {
    forall x, y, z
      ensures !TextLess(x, x)
      ensures TextLess(x, y) && TextLess(y, z) ==> TextLess(x, z)
      ensures !TextLess(x, y) && !TextLess(y, z) ==> !TextLess(x, z)
    {
      TextLessOrders(x, y, z);
      TextLessOrders(z, y, x);
      TextLessOrders(y, z, x);
      TextLessOrders(x, z, y);
    }
  }

  /** For instance, with a fix at 2 listed before an introduction at 1, on version 3. */
  lemma UnsortedListsDiffer()
    ensures var events := [Event("fixed", "2"), Event("introduced", "1")];
      && Evaluate(CompareBy(TextOrder(), "3"), events) == Ok(true)
      && !SchemaAffected(TextOrder(), "3", events)
  {
    TextOrderIsWeak();
    assert TextLess("1", "2") && !TextLess("3", "2");
    FixListedFirst(CompareBy(TextOrder(), "3"), TextOrder(), "3", "1", "2");
  }
}
