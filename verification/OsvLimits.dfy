/** Limits in ordered lists: where the pass and the OSV Schema's evaluation part. */
module OsvLimits {
  import opened Prelude
  import opened Text
  import opened RangeEvents
  import opened OsvSchema

  // ---- Lists in order ----

  lemma {:induction false} OpenFromSnoc(lt: (string, string) -> bool, version: string, events: seq<Event>, i: nat)
    requires i < |events| - 1
    ensures OpenFrom(lt, version, events, i) <==>
      OpenFrom(lt, version, events[..|events| - 1], i) && !Shuts(lt, version, events[|events| - 1])
  {
    var n := |events| - 1;
    assert forall j :: 0 <= j < n ==> events[..n][j] == events[j];
  }

  lemma {:induction false} FlagIsOpen(lt: (string, string) -> bool, version: string, events: seq<Event>)
    ensures Flag(lt, version, events) <==> OpenUnder(lt, version, events)
  {
    if events != [] {
      var n := |events| - 1;
      FlagIsOpen(lt, version, events[..n]);
      forall i: nat | i < n
        ensures OpenFrom(lt, version, events, i) <==>
          OpenFrom(lt, version, events[..n], i) && !Shuts(lt, version, events[n])
      {
        OpenFromSnoc(lt, version, events, i);
      }
      assert OpenFrom(lt, version, events, n) <==> Opens(lt, version, events[n]);
    }
  }

  /** A limit with a higher one in the list. */
  ghost predicate Surpassed(lt: (string, string) -> bool, events: seq<Event>, j: nat)
    requires j < |events|
  {
    events[j].kind == "limit" &&
    exists k :: 0 <= k < |events| && events[k].kind == "limit" && lt(events[j].version, events[k].version)
  }

  /** From this introduction an interval is still open at the boundary of a later event, and none opens anew there. */
  ghost predicate StillOpen(lt: (string, string) -> bool, events: seq<Event>, i: nat, j: nat)
    requires i < j < |events|
  {
    && events[i].kind == "introduced"
    && forall k :: i < k < |events| ==>
         && (events[k].kind == "fixed" ==> lt(events[j].version, events[k].version))
         && (events[k].kind == "last_affected" ==> !lt(events[k].version, events[j].version))
         && (events[k].kind == "introduced" && j < k ==> lt(events[j].version, events[k].version))
  }

  /** An introduction behind all limits, of which there are some, that is not undone at its own boundary. */
  ghost predicate Escapes(lt: (string, string) -> bool, events: seq<Event>, i: nat)
    requires i < |events|
  {
    && events[i].kind == "introduced"
    && (exists j :: 0 <= j < i && events[j].kind == "limit")
    && forall k :: i < k < |events| ==>
         events[k].kind != "limit" && (events[k].kind == "fixed" ==> lt(events[i].version, events[k].version))
  }

  /** No interval is open at a limit that has a higher one, and none starts behind all limits. */
  ghost predicate LimitsFit(lt: (string, string) -> bool, events: seq<Event>) {
    && (forall i, j :: 0 <= i < j < |events| && Surpassed(lt, events, j) ==> !StillOpen(lt, events, i, j))
    && (forall i :: 0 <= i < |events| ==> !Escapes(lt, events, i))
  }

  /** At the boundary of a limit at which an interval is open, the flag is up. */
  lemma {:induction false} OpenAtLimit(lt: (string, string) -> bool, events: seq<Event>, i: nat, j: nat)
    requires StrictWeakOrder(lt) && InOrder(lt, events)
    requires i < j < |events| && events[j].kind == "limit" && StillOpen(lt, events, i, j)
    ensures OpenUnder(lt, events[j].version, events)
  {
    assert !Before(lt, events[j], events[i]);
    assert OpenFrom(lt, events[j].version, events, i);
  }

  /** But nothing behind the limit opens there, so that the pass is left with the limit. */
  lemma {:induction false} LimitedThere(lt: (string, string) -> bool, events: seq<Event>, i: nat, j: nat, a: nat)
    requires StrictWeakOrder(lt) && InOrder(lt, events)
    requires i < j < |events| && events[j].kind == "limit" && StillOpen(lt, events, i, j)
    requires a < |events| && Opens(lt, events[j].version, events[a])
    ensures a < j && Limits(lt, events[j].version, events[j])
  {
    assert !Before(lt, events[a], events[j]) || a < j;
  }

  /** An interval open at a surpassed limit: at that boundary the schema says affected, the pass does not. */
  lemma {:induction false} OpenAtLimitDiffers(lt: (string, string) -> bool, events: seq<Event>, i: nat, j: nat)
    requires StrictWeakOrder(lt) && InOrder(lt, events)
    requires i < j < |events| && Surpassed(lt, events, j) && StillOpen(lt, events, i, j)
    ensures SchemaAffected(lt, events[j].version, events) && !LiveUnder(lt, events[j].version, events)
  {
    var v := events[j].version;
    SortKeepsOrdered(lt, events);
    FlagIsOpen(lt, v, events);
    OpenAtLimit(lt, events, i, j);
    assert BeforeLimits(lt, v, events) by {
      var k :| 0 <= k < |events| && events[k].kind == "limit" && lt(v, events[k].version);
      assert events[k] in events;
    }
    forall a: nat | a < |events| && Opens(lt, v, events[a])
      ensures a < j && Limits(lt, v, events[j])
    {
      LimitedThere(lt, events, i, j, a);
    }
  }

  /** An introduction behind all limits: at its boundary the pass says affected, the schema does not. */
  lemma {:induction false} EscapeDiffers(lt: (string, string) -> bool, events: seq<Event>, i: nat)
    requires StrictWeakOrder(lt) && InOrder(lt, events) && i < |events| && Escapes(lt, events, i)
    ensures !FromStart(events[i])
    ensures !SchemaAffected(lt, events[i].version, events) && LiveUnder(lt, events[i].version, events)
  {
    var v := events[i].version;
    var j :| 0 <= j < i && events[j].kind == "limit";
    assert !Before(lt, events[i], events[j]);
    assert Opens(lt, v, events[i]);
    forall k | i < k < |events|
      ensures !Shuts(lt, v, events[k]) && !Limits(lt, v, events[k])
    {
      assert !Before(lt, events[k], events[i]);
    }
    assert LiveFrom(lt, v, events, i);
    assert events[j] in events;
    forall e | e in events && e.kind == "limit"
      ensures !lt(v, e.version)
    {
      var k :| 0 <= k < |events| && events[k] == e;
      assert k < i && !Before(lt, events[i], events[k]);
    }
  }

  lemma {:induction false} LastOpening(lt: (string, string) -> bool, version: string, events: seq<Event>) returns (i: nat)
    requires exists k :: 0 <= k < |events| && Opens(lt, version, events[k])
    ensures i < |events| && Opens(lt, version, events[i])
    ensures forall k :: i < k < |events| ==> !Opens(lt, version, events[k])
  {
    i := |events| - 1;
    while !Opens(lt, version, events[i])
      invariant i < |events| && forall k :: i < k < |events| ==> !Opens(lt, version, events[k])
      invariant exists k :: 0 <= k <= i && Opens(lt, version, events[k])
      decreases i
    {
      i := i - 1;
    }
  }

  /** Where the limits fit, a version before some limit that the flag finds affected is found affected by the pass. */
  lemma {:induction false} FittingLimitsDoNotClear(lt: (string, string) -> bool, version: string, events: seq<Event>)
    requires StrictWeakOrder(lt) && InOrder(lt, events) && LimitsFit(lt, events)
    requires BeforeLimits(lt, version, events) && OpenUnder(lt, version, events)
    ensures LiveUnder(lt, version, events)
  {
    var opening: nat :| OpenFrom(lt, version, events, opening);
    var i := LastOpening(lt, version, events);
    assert forall k :: i < k < |events| ==> !Shuts(lt, version, events[k]);
    forall j | i < j < |events|
      ensures !Limits(lt, version, events[j])
    {
      if Limits(lt, version, events[j]) {
        assert events[j] in events;
        var e :| e in events && e.kind == "limit" && lt(version, e.version);
        var k :| 0 <= k < |events| && events[k] == e;
        assert lt(events[j].version, events[k].version);
        assert Surpassed(lt, events, j) && !StillOpen(lt, events, i, j);
        forall k | i < k < |events|
          ensures events[k].kind == "fixed" ==> lt(events[j].version, events[k].version)
          ensures events[k].kind == "last_affected" ==> !lt(events[k].version, events[j].version)
          ensures events[k].kind == "introduced" && j < k ==> lt(events[j].version, events[k].version)
        {
          assert !Shuts(lt, version, events[k]) && !Opens(lt, version, events[k]);
        }
      }
    }
    assert LiveFrom(lt, version, events, i);
  }

  /** Where the limits fit, a version past all limits is found affected by neither. */
  lemma {:induction false} NothingPastFittingLimits(lt: (string, string) -> bool, version: string, events: seq<Event>)
    requires StrictWeakOrder(lt) && InOrder(lt, events) && LimitsFit(lt, events)
    requires !BeforeLimits(lt, version, events)
    ensures !LiveUnder(lt, version, events)
  {
    if LiveUnder(lt, version, events) {
      var i: nat :| LiveFrom(lt, version, events, i);
      var e :| e in events && e.kind == "limit";
      var j :| 0 <= j < |events| && events[j] == e;
      forall k | i < k < |events|
        ensures events[k].kind != "limit"
        ensures events[k].kind == "fixed" ==> lt(events[i].version, events[k].version)
      {
        assert events[k] in events;
        assert !Before(lt, events[i], events[j]);
      }
      assert j < i && Escapes(lt, events, i);
    }
  }

  lemma {:induction false} FittingLimitsMatch(lt: (string, string) -> bool, version: string, events: seq<Event>)
    requires StrictWeakOrder(lt) && InOrder(lt, events) && LimitsFit(lt, events)
    ensures LiveUnder(lt, version, events) <==> SchemaAffected(lt, version, events)
  {
    SortKeepsOrdered(lt, events);
    FlagIsOpen(lt, version, events);
    if !BeforeLimits(lt, version, events) {
      NothingPastFittingLimits(lt, version, events);
    } else if OpenUnder(lt, version, events) {
      FittingLimitsDoNotClear(lt, version, events);
    } else {
      assert forall i: nat :: !OpenFrom(lt, version, events, i);
    }
  }

  /** Where the limits do not fit, pass and schema differ at a boundary of the list. */
  lemma {:induction false} MisfitDiffers(lt: (string, string) -> bool, events: seq<Event>) returns (e: Event)
    requires StrictWeakOrder(lt) && InOrder(lt, events) && !LimitsFit(lt, events)
    ensures e in events && !FromStart(e)
    ensures !(LiveUnder(lt, e.version, events) <==> SchemaAffected(lt, e.version, events))
  {
    if i, j :| 0 <= i < j < |events| && Surpassed(lt, events, j) && StillOpen(lt, events, i, j) {
      OpenAtLimitDiffers(lt, events, i, j);
      e := events[j];
    } else {
      var i :| 0 <= i < |events| && Escapes(lt, events, i);
      EscapeDiffers(lt, events, i);
      e := events[i];
    }
  }

  /**
   On a list in order the pass gives the schema's answer for every version if and
   only if no interval is open at a limit that has a higher one and none starts
   behind all limits.
   */
  lemma {:induction false} SortedListsMatchSchema(
    comparator: string -> Compare, valid: string -> bool, lt: (string, string) -> bool, events: seq<Event>)
    requires StrictWeakOrder(lt) && AllKnown(events) && InOrder(lt, events) && Serves(comparator, valid, lt, events)
    ensures (forall v :: valid(v) ==> Evaluate(comparator(v), events) == Ok(SchemaAffected(lt, v, events)))
       <==> LimitsFit(lt, events)
  {
    forall v | valid(v)
      ensures Evaluate(comparator(v), events) == Ok(LiveUnder(lt, v, events))
    {
      PassUnder(comparator(v), lt, v, events);
    }
    if LimitsFit(lt, events) {
      forall v | valid(v)
        ensures LiveUnder(lt, v, events) <==> SchemaAffected(lt, v, events)
      {
        FittingLimitsMatch(lt, v, events);
      }
    } else {
      var e := MisfitDiffers(lt, events);
      assert valid(e.version);
    }
  }

  /** Without limits a list in order always gets the schema's answer. */
  lemma {:induction false} WithoutLimitsTheyFit(lt: (string, string) -> bool, events: seq<Event>)
    requires forall e :: e in events ==> e.kind != "limit"
    ensures LimitsFit(lt, events)
  {
    assert forall i :: 0 <= i < |events| ==> events[i] in events;
  }

  /** No limit that the version has reached stands behind the last boundary that introduces it. */
  predicate ReintroducedAfterLimits(lt: (string, string) -> bool, version: string, events: seq<Event>) {
    events != [] &&
    var front, e := events[..|events| - 1], events[|events| - 1];
    if Opens(lt, version, e) then true
    else if Limits(lt, version, e) then false
    else ReintroducedAfterLimits(lt, version, front)
  }

  /** In list order the pass is the schema's flag, but for reached limits that no boundary follows. */
  lemma {:induction false} PassIsFlagAfterLimits(
    compare: Compare, lt: (string, string) -> bool, version: string, events: seq<Event>)
    requires StrictWeakOrder(lt) && AllKnown(events) && Follows(compare, lt, version, events)
    ensures Evaluate(compare, events) == Ok(Flag(lt, version, events) && ReintroducedAfterLimits(lt, version, events))
  {
    if events != [] {
      var front, last := events[..|events| - 1], events[|events| - 1];
      assert last in events;
      EventsUnder(compare, lt, version, last);
      PassIsFlagAfterLimits(compare, lt, version, front);
    }
  }

  /** On a list in order the two agree on every version below all limits. */
  lemma {:induction false} MatchesSchemaBelowLimits(
    compare: Compare, lt: (string, string) -> bool, version: string, events: seq<Event>)
    requires StrictWeakOrder(lt) && AllKnown(events) && InOrder(lt, events) && Follows(compare, lt, version, events)
    requires forall e :: e in events && e.kind == "limit" ==> lt(version, e.version)
    ensures Evaluate(compare, events) == Ok(SchemaAffected(lt, version, events))
  {
    PassUnder(compare, lt, version, events);
    SortKeepsOrdered(lt, events);
    FlagIsOpen(lt, version, events);
    forall i: nat
      ensures LiveFrom(lt, version, events, i) <==> OpenFrom(lt, version, events, i)
    {
      assert forall j :: 0 <= j < |events| ==> events[j] in events;
    }
  }

  /** A version between two limits of an open interval: the schema says affected, the pass does not. */
  lemma {:induction false} BetweenLimits(
    compare: Compare, lt: (string, string) -> bool, version: string, lower: string, upper: string)
    requires StrictWeakOrder(lt) && !lt(version, lower) && lt(version, upper)
    requires Follows(compare, lt, version, [Event("introduced", "0"), Event("limit", lower), Event("limit", upper)])
    ensures var events := [Event("introduced", "0"), Event("limit", lower), Event("limit", upper)];
      Evaluate(compare, events) == Ok(false) && SchemaAffected(lt, version, events)
  {
    var start, first, second := Event("introduced", "0"), Event("limit", lower), Event("limit", upper);
    var events := [start, first, second];
    PassIsLastWord(compare, lt, version, events);
    assert events[..2] == [start, first];
    assert LastWord(lt, version, [start, first]) == Some(first);
    assert lt(lower, upper);
    SortKeepsOrdered(lt, events);
    FlagIsOpen(lt, version, events);
    assert OpenFrom(lt, version, events, 0);
    assert second in events;
  }

  /** For instance version 2 between limits at 1 and 3. */
  lemma TwoLimitsDiffer()
    ensures var events := [Event("introduced", "0"), Event("limit", "1"), Event("limit", "3")];
      && Evaluate(CompareBy(TextOrder(), "2"), events) == Ok(false)
      && SchemaAffected(TextOrder(), "2", events)
  {
    TextOrderIsWeak();
    assert !TextLess("2", "1") && TextLess("2", "3");
    BetweenLimits(CompareBy(TextOrder(), "2"), TextOrder(), "2", "1", "3");
  }
}
