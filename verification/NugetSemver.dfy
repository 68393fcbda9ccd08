/** Where the NuGet comparator follows Semantic Versioning. */
module NugetSemver {
  import opened Prelude
  import opened Text
  import opened TextParts
  import opened Digits
  import opened NugetVersion

  // Identifiers are compared as section 11.4 of Semantic Versioning 2.0.0 says, but for
  // digits beyond 64 bits, which the comparator takes for text.

  predicate IsNumeric(identifier: string) {
    identifier != "" && AllDigits(identifier)
  }

  /** Precedence of two identifiers by section 11.4 of Semantic Versioning 2.0.0. */
  function SemverIdentifiers(a: string, b: string): Ordering {
    if IsNumeric(a) && IsNumeric(b) then CompareNat(Value(a), Value(b))
    else if IsNumeric(a) then Less
    else if IsNumeric(b) then Greater
    else CompareText(a, b)
  }

  /** The first identifiers that differ decide, then their number. */
  function SemverLists(a: seq<string>, b: seq<string>): Ordering {
    if a == [] || b == [] then CompareNat(|a|, |b|)
    else SemverIdentifiers(a[0], b[0]).Then(SemverLists(a[1..], b[1..]))
  }

  ghost predicate FirstDifference(a: seq<string>, b: seq<string>, i: nat) {
    i < |a| && i < |b| && SemverIdentifiers(a[i], b[i]) != Equal
    && forall j :: 0 <= j < i ==> SemverIdentifiers(a[j], b[j]) == Equal
  }

  /** The first difference decides, and without one the longer list is higher. */
  lemma {:induction false} SemverListsExactly(a: seq<string>, b: seq<string>)
    ensures forall i: nat :: FirstDifference(a, b, i) ==> SemverLists(a, b) == SemverIdentifiers(a[i], b[i])
    ensures (forall i :: 0 <= i < |a| && i < |b| ==> SemverIdentifiers(a[i], b[i]) == Equal) ==>
      SemverLists(a, b) == CompareNat(|a|, |b|)
  {
    if a != [] && b != [] {
      var s, t := a[1..], b[1..];
      SemverListsExactly(s, t);
      forall i: nat | FirstDifference(a, b, i)
        ensures SemverLists(a, b) == SemverIdentifiers(a[i], b[i])
      {
        if i > 0 {
          assert FirstDifference(s, t, i - 1);
        }
      }
      if forall i :: 0 <= i < |a| && i < |b| ==> SemverIdentifiers(a[i], b[i]) == Equal {
        forall i | 0 <= i < |s| && i < |t|
          ensures SemverIdentifiers(s[i], t[i]) == Equal
        {
          assert s[i] == a[i + 1] && t[i] == b[i + 1];
        }
      }
    }
  }

  predicate FitsU64(identifier: string) {
    IsNumeric(identifier) ==> Value(identifier) <= U64_MAX
  }

  /** The two orders compare these identifiers differently. */
  predicate Parts(a: string, b: string) {
    CompareIdentifiers(a, b) != SemverIdentifiers(a, b)
  }

  /** Identifiers that the comparator finds equal are equal for the standard too. */
  lemma EqualIsEqual(a: string, b: string)
    ensures CompareIdentifiers(a, b) == Equal ==> SemverIdentifiers(a, b) == Equal
    ensures FitsU64(a) && FitsU64(b) ==> !Parts(a, b)
  {
    CompareTextEqual(a, b);
  }

  /**
   One identifier beyond 64 bits is compared as text: against text the two orders
   part unless the text is above it, and against another one unless their texts are
   ordered like their numbers.
   */
  lemma BeyondU64(a: string, b: string)
    requires !FitsU64(a)
    ensures !Parts(a, b) <==>
      (if !IsNumeric(b) then CompareText(a, b) == Less
       else if FitsU64(b) then true
       else CompareText(a, b) == CompareDigits(StripZeros(a), StripZeros(b)))
  {
    if IsNumeric(b) {
      StripZerosKeepsValue(a);
      StripZerosKeepsValue(b);
      StrippedComparesAsValue(StripZeros(a), StripZeros(b));
    }
  }

  /** The first position at which the two orders part, before either has decided. */
  ghost predicate FirstParting(a: seq<string>, b: seq<string>, i: nat) {
    i < |a| && i < |b| && Parts(a[i], b[i])
    && forall j :: 0 <= j < i ==> CompareIdentifiers(a[j], b[j]) == Equal && SemverIdentifiers(a[j], b[j]) == Equal
  }

  /** One number written twice: the standard goes on, and later identifiers happen to say what the texts say. */
  predicate MakesGood(a: seq<string>, b: seq<string>, i: nat)
    requires i < |a| && i < |b|
  {
    SemverIdentifiers(a[i], b[i]) == Equal && SemverLists(a[i + 1..], b[i + 1..]) == CompareIdentifiers(a[i], b[i])
  }

  lemma {:induction false} FirstPartingBehind(a: seq<string>, b: seq<string>, i: nat)
    requires a != [] && b != [] && CompareIdentifiers(a[0], b[0]) == Equal && SemverIdentifiers(a[0], b[0]) == Equal
    ensures FirstParting(a[1..], b[1..], i) <==> FirstParting(a, b, i + 1)
    ensures i + 1 < |a| && i + 1 < |b| ==> (MakesGood(a[1..], b[1..], i) <==> MakesGood(a, b, i + 1))
  {
    var s, t := a[1..], b[1..];
    if i + 1 < |a| && i + 1 < |b| {
      assert s[i] == a[i + 1] && t[i] == b[i + 1];
      assert s[i + 1..] == a[i + 2..] && t[i + 1..] == b[i + 2..];
    }
    if FirstParting(s, t, i) {
      forall j | 0 <= j < i + 1
        ensures CompareIdentifiers(a[j], b[j]) == Equal && SemverIdentifiers(a[j], b[j]) == Equal
      {
        assert j > 0 ==> s[j - 1] == a[j] && t[j - 1] == b[j];
      }
    }
    if FirstParting(a, b, i + 1) {
      forall j | 0 <= j < i
        ensures CompareIdentifiers(s[j], t[j]) == Equal && SemverIdentifiers(s[j], t[j]) == Equal
      {
        assert s[j] == a[j + 1] && t[j] == b[j + 1];
      }
    }
  }

  /** The comparator's order of two prereleases is the standard's. */
  predicate ListsAgree(a: seq<string>, b: seq<string>) {
    CompareIdentifierLists(a, b) == SemverLists(a, b)
  }

  /**
   Two prereleases compare as the standard says if and only if at the first position,
   if any, at which the orders of identifiers part, both identifiers write one number
   and the later ones happen to decide like their texts.
   */
  lemma {:induction false} PrereleaseFollowsSemver(a: seq<string>, b: seq<string>)
    ensures ListsAgree(a, b) <==> forall i: nat :: FirstParting(a, b, i) ==> MakesGood(a, b, i)
  {
    if a != [] && b != [] {
      EqualIsEqual(a[0], b[0]);
      if Parts(a[0], b[0]) {
        assert FirstParting(a, b, 0);
        assert forall i: nat :: FirstParting(a, b, i) ==> i == 0;
      } else if CompareIdentifiers(a[0], b[0]) == Equal {
        PrereleaseFollowsSemver(a[1..], b[1..]);
        forall i: nat
          ensures FirstParting(a[1..], b[1..], i) <==> FirstParting(a, b, i + 1)
          ensures i + 1 < |a| && i + 1 < |b| ==> (MakesGood(a[1..], b[1..], i) <==> MakesGood(a, b, i + 1))
        {
          FirstPartingBehind(a, b, i);
        }
        forall i: nat | FirstParting(a, b, i)
          ensures i > 0 && FirstParting(a[1..], b[1..], i - 1) && (MakesGood(a[1..], b[1..], i - 1) <==> MakesGood(a, b, i))
        {
          FirstPartingBehind(a, b, i - 1);
        }
      }
    }
  }

  /** In particular they do as long as numeric identifiers fit 64 bits. */
  lemma {:induction false} FittingPrereleasesFollowSemver(a: seq<string>, b: seq<string>)
    requires forall x :: x in a || x in b ==> FitsU64(x)
    ensures ListsAgree(a, b)
  {
    PrereleaseFollowsSemver(a, b);
    forall i: nat | i < |a| && i < |b|
      ensures !Parts(a[i], b[i])
    {
      assert a[i] in a && b[i] in b;
      EqualIsEqual(a[i], b[i]);
    }
  }

  /** A component, a missing one counting as zero. */
  function Component(v: Version, i: nat): nat {
    if i < |v.parts| then v.parts[i] else 0
  }

  /** The first component in which the versions differ. */
  ghost predicate FirstDifferent(a: Version, b: Version, i: nat) {
    Component(a, i) != Component(b, i) && forall j: nat :: j < i ==> Component(a, j) == Component(b, j)
  }

  /** The prereleases by the standard; a version without one is above a version with one. */
  function PrereleasePrecedence(a: Option<string>, b: Option<string>): Ordering {
    match (a, b)
    case (None, None) => Equal
    case (None, Some(_)) => Greater
    case (Some(_), None) => Less
    case (Some(x), Some(y)) => SemverLists(Split(x, '.'), Split(y, '.'))
  }

  /**
   Section 11 of the standard ranks the versions this way: the first component in
   which they differ decides, the smaller number being lower, and without one the
   prereleases decide.
   */
  ghost predicate Ranked(a: Version, b: Version, order: Ordering) {
    && (forall i: nat :: FirstDifferent(a, b, i) ==> order == if Component(a, i) < Component(b, i) then Less else Greater)
    && ((forall i: nat :: Component(a, i) == Component(b, i)) ==> order == PrereleasePrecedence(a.prerelease, b.prerelease))
  }

  lemma {:induction false} FirstDifferenceExists(a: Version, b: Version, n: nat) returns (i: nat)
    requires Component(a, n) != Component(b, n)
    ensures i <= n && FirstDifferent(a, b, i)
  {
    if j: nat :| j < n && Component(a, j) != Component(b, j) {
      i := FirstDifferenceExists(a, b, j);
    } else {
      i := n;
    }
  }

  /** Two versions are ranked one way. */
  lemma RankedOneWay(a: Version, b: Version, x: Ordering, y: Ordering)
    requires Ranked(a, b, x) && Ranked(a, b, y)
    ensures x == y
  {
    if n: nat :| Component(a, n) != Component(b, n) {
      var i := FirstDifferenceExists(a, b, n);
    }
  }

  /** The comparator's numbers: the first different component decides, also where one list is longer. */
  lemma {:induction false} PartsRank(a: seq<nat>, b: seq<nat>, i: nat)
    requires PartAt(a, i) != PartAt(b, i) && forall j: nat :: j < i ==> PartAt(a, j) == PartAt(b, j)
    requires (i < |a| && i < |b|) || (i == |a| < |b|) || (i == |b| < |a|)
    ensures CompareParts(a, b) == if PartAt(a, i) < PartAt(b, i) then Less else Greater
  {
    if a != [] && b != [] && i > 0 {
      assert PartAt(a, 0) == PartAt(b, 0);
      forall j: nat | j < i
        ensures PartAt(a[1..], j) == PartAt(b[1..], j) || j == i - 1
      {
        assert PartAt(a, j + 1) == PartAt(a[1..], j) && PartAt(b, j + 1) == PartAt(b[1..], j);
      }
      PartsRank(a[1..], b[1..], i - 1);
    }
  }

  lemma SameComponents(a: Version, b: Version)
    requires Proper(a) && Proper(b)
    ensures (forall i: nat :: Component(a, i) == Component(b, i)) <==> a.parts == b.parts
  {
    if forall i: nat :: Component(a, i) == Component(b, i) {
      assert Component(a, 3) == Component(b, 3);
      forall i | 0 <= i < |a.parts| && i < |b.parts|
        ensures a.parts[i] == b.parts[i]
      {
        assert Component(a, i) == Component(b, i);
      }
    }
  }

  lemma DifferentIsWithin(a: Version, b: Version, i: nat)
    requires Proper(a) && Proper(b) && FirstDifferent(a, b, i)
    ensures CompareParts(a.parts, b.parts) == if Component(a, i) < Component(b, i) then Less else Greater
  {
    forall j: nat
      ensures Component(a, j) == PartAt(a.parts, j) && Component(b, j) == PartAt(b.parts, j)
    {
    }
    PartsRank(a.parts, b.parts, i);
  }

  /** As the comparator ranks two versions as read, so does the standard, if it agrees on their prereleases. */
  lemma PrecedenceRanks(a: Version, b: Version)
    requires Proper(a) && Proper(b)
    ensures Ranked(a, b, Precedence(a, b)) <==>
      (a.parts == b.parts ==>
       PrereleasePrecedence(a.prerelease, b.prerelease) == Precedence(a, b))
  {
    SameComponents(a, b);
    PartsAreOrdered(a.parts, b.parts, []);
    forall i: nat | FirstDifferent(a, b, i)
      ensures Precedence(a, b) == if Component(a, i) < Component(b, i) then Less else Greater
    {
      DifferentIsWithin(a, b, i);
    }
  }

  /** Two accepted versions compare as the standard says unless only their prereleases can decide and do not agree. */
  lemma ComparatorFollowsSemver(x: string, y: string)
    requires Read(x).Some? && Read(y).Some?
    ensures CompareNuget(x, y).Some?
    ensures var a, b := Read(x).value, Read(y).value;
      Ranked(a, b, CompareNuget(x, y).value) <==>
        (a.parts == b.parts && a.prerelease.Some? && b.prerelease.Some? ==>
           ListsAgree(Split(a.prerelease.value, '.'), Split(b.prerelease.value, '.')))
  {
    ComparesAsRead(x, y);
    ReadIsProper(x);
    ReadIsProper(y);
    PrecedenceRanks(Read(x).value, Read(y).value);
    PartsAreOrdered(Read(x).value.parts, Read(y).value.parts, []);
  }

  // ---- Where they part ----

  /** Version 1.0.0 with this identifier as its prerelease. */
  function WithPrerelease(identifier: string): Version {
    Version([1, 0, 0], Some(identifier))
  }

  predicate Single(identifier: string) {
    ValidPrerelease(identifier) && Lower(identifier) == identifier && '.' !in identifier
  }

  lemma {:induction false} SplitSingle(s: string)
    requires '.' !in s
    ensures Split(s, '.') == [s]
  {
  }

  /** Its text. */
  function TextWith(identifier: string): string {
    "1.0.0-" + identifier
  }

  lemma ReleaseText()
    ensures Join(Decimals([1, 0, 0]), '.') == "1.0.0"
  {
    assert ToDecimal(1) == "1" && ToDecimal(0) == "0";
    assert Decimals([1, 0, 0]) == ["1", "0", "0"];
    assert ["1", "0", "0"][1..] == ["0", "0"] && ["0", "0"][1..] == ["0"];
    assert Join(["0"], '.') == "0";
    assert Join(["0", "0"], '.') == "0.0";
  }

  lemma SingleIsRead(identifier: string)
    requires Single(identifier)
    ensures Read(TextWith(identifier)) == Some(WithPrerelease(identifier))
  {
    var v := WithPrerelease(identifier);
    assert Proper(v);
    ReadWrite(v);
    ReleaseText();
    assert Write(v) == "1.0.0" + ("-" + identifier) == TextWith(identifier);
  }

  /** Two such versions compare by their identifiers. */
  lemma SinglesCompare(a: string, b: string)
    requires Single(a) && Single(b)
    ensures CompareNuget(TextWith(a), TextWith(b)) == Some(CompareIdentifiers(a, b))
    ensures Ranked(WithPrerelease(a), WithPrerelease(b), SemverIdentifiers(a, b))
  {
    SingleIsRead(a);
    SingleIsRead(b);
    ComparesAsRead(TextWith(a), TextWith(b));
    PartsAreOrdered([1, 0, 0], [1, 0, 0], []);
    SplitSingle(a);
    SplitSingle(b);
    assert [a][1..] == [] && [b][1..] == [];
    assert CompareIdentifierLists([a], [b]) == CompareIdentifiers(a, b);
    assert SemverLists([a], [b]) == SemverIdentifiers(a, b);
  }

  lemma DecimalIsSingle(n: nat)
    ensures Single(ToDecimal(n)) && Single("0" + ToDecimal(n)) && Single("0a")
  {
    var s := ToDecimal(n);
    assert forall i :: 0 <= i < |s| ==> IsDigit(s[i]);
    assert Lower(s) == s && Lower("0" + s) == "0" + s && Lower("0a") == "0a";
  }

  lemma OneDigit(s: string)
    requires AllDigits(s)
    ensures |s| == 1 ==> Value(s) < 10
  {
    if |s| == 1 {
      assert s[..0] == [];
    }
  }

  lemma OversizedIdentifiers(n: nat)
    requires n > U64_MAX
    ensures CompareIdentifiers(ToDecimal(n), "0a") == Greater && SemverIdentifiers(ToDecimal(n), "0a") == Less
    ensures CompareIdentifiers("0" + ToDecimal(n), ToDecimal(n)) == Less
    ensures SemverIdentifiers("0" + ToDecimal(n), ToDecimal(n)) == Equal
  {
    var s := ToDecimal(n);
    OneDigit(s);
    assert IsDigit(s[0]) && s[0] > '0';
    assert "0a"[1] == 'a' && !AllDigits("0a");
    ValueDropsLeadingZero("0" + s);
    assert ("0" + s)[1..] == s;
  }

  /**
   Every number beyond 64 bits gives accepted versions on which comparator and
   standard disagree: against the identifier 0a, and against itself with a zero
   in front.
   */
  lemma OversizedNumbersDisagree(n: nat)
    requires n > U64_MAX
    ensures var x, y := ToDecimal(n), "0a";
      && Read(TextWith(x)) == Some(WithPrerelease(x)) && Read(TextWith(y)) == Some(WithPrerelease(y))
      && CompareNuget(TextWith(x), TextWith(y)) == Some(Greater)
      && Ranked(WithPrerelease(x), WithPrerelease(y), Less)
    ensures var x, y := "0" + ToDecimal(n), ToDecimal(n);
      && Read(TextWith(x)) == Some(WithPrerelease(x)) && Read(TextWith(y)) == Some(WithPrerelease(y))
      && CompareNuget(TextWith(x), TextWith(y)) == Some(Less)
      && Ranked(WithPrerelease(x), WithPrerelease(y), Equal)
  {
    var s := ToDecimal(n);
    DecimalIsSingle(n);
    OversizedIdentifiers(n);
    SingleIsRead(s);
    SingleIsRead("0" + s);
    SingleIsRead("0a");
    SinglesCompare(s, "0a");
    SinglesCompare("0" + s, s);
  }
}
