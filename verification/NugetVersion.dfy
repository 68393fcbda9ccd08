/**
 NuGet versions: the normal form used in identities, and the comparison of
 range boundaries, which normalises both sides first.
 */
module NugetVersion {
  import opened Prelude
  import opened Text
  import opened TextParts
  import opened Digits

  const U64_MAX: nat := 0xFFFF_FFFF_FFFF_FFFF

  /** Digits that fit an unsigned 64-bit number. */
  function ParseU64(s: string): Option<nat> {
    if s != "" && AllDigits(s) && Value(s) <= U64_MAX then Some(Value(s)) else None
  }

  function ParseParts(texts: seq<string>): (r: Option<seq<nat>>)
    ensures r.Some? ==> |r.value| == |texts| && forall i :: 0 <= i < |texts| ==> ParseU64(texts[i]) == Some(r.value[i])
    ensures r.None? ==> exists i :: 0 <= i < |texts| && ParseU64(texts[i]) == None
  {
    if texts == [] then Some([])
    else
      var n := |texts| - 1;
      var front, last := ParseParts(texts[..n]), ParseU64(texts[n]);
      if front.None? || last.None? then None else Some(front.value + [last.value])
  }

  /** A version as read: three numbers, or four when the last is not zero, and a lower-case prerelease. */
  datatype Version = Version(parts: seq<nat>, prerelease: Option<string>)

  predicate IsPrereleaseChar(c: char) {
    IsDigit(c) || IsAlpha(c) || c == '.' || c == '-'
  }

  predicate ValidPrerelease(s: string) {
    s != "" && forall i :: 0 <= i < |s| ==> IsPrereleaseChar(s[i])
  }

  /** Missing components are zero; a zero revision is as good as none. */
  function Fit(parts: seq<nat>): seq<nat> {
    if |parts| < 3 then parts + seq(3 - |parts|, _ => 0)
    else if |parts| == 4 && parts[3] == 0 then parts[..3]
    else parts
  }

  /** Build metadata is dropped; the prerelease starts at the first hyphen. */
  function Read(value: string): Option<Version> {
    var core := Before(value, '+');
    Assemble(ParseParts(Split(Before(core, '-'), '.')), After(core, '-'))
  }

  /** A version from its components, if they were all read, and its prerelease, if it has one. */
  function Assemble(parts: Option<seq<nat>>, prerelease: Option<string>): Option<Version> {
    if parts.None? || |parts.value| > 4 then None
    else if prerelease.None? then Some(Version(Fit(parts.value), None))
    else if !ValidPrerelease(prerelease.value) then None
    else Some(Version(Fit(parts.value), Some(Lower(prerelease.value))))
  }

  function Decimals(parts: seq<nat>): (r: seq<string>)
    ensures |r| == |parts| && forall i :: 0 <= i < |r| ==> r[i] == ToDecimal(parts[i])
  {
    seq(|parts|, i requires 0 <= i < |parts| => ToDecimal(parts[i]))
  }

  function Write(v: Version): string
    requires v.parts != []
  {
    Join(Decimals(v.parts), '.') + (if v.prerelease.Some? then "-" + v.prerelease.value else "")
  }

  ghost predicate Proper(v: Version) {
    && (|v.parts| == 3 || (|v.parts| == 4 && v.parts[3] != 0))
    && FitU64(v.parts)
    && (v.prerelease.Some? ==> ValidPrerelease(v.prerelease.value) && Lower(v.prerelease.value) == v.prerelease.value)
  }

  predicate FitU64(parts: seq<nat>) {
    forall i :: 0 <= i < |parts| ==> parts[i] <= U64_MAX
  }

  lemma {:induction false} ParsedPartsFit(texts: seq<string>)
    ensures ParseParts(texts).Some? ==> FitU64(ParseParts(texts).value)
  {
    if texts != [] {
      ParsedPartsFit(texts[..|texts| - 1]);
    }
  }

  lemma LoweredPrerelease(s: string)
    requires ValidPrerelease(s)
    ensures ValidPrerelease(Lower(s)) && Lower(Lower(s)) == Lower(s)
  {
    forall i | 0 <= i < |s|
      ensures IsPrereleaseChar(Lower(s)[i])
    {
      assert IsPrereleaseChar(s[i]);
    }
  }

  lemma FitIsProper(parts: seq<nat>)
    requires |parts| <= 4 && FitU64(parts)
    ensures FitU64(Fit(parts)) && (|Fit(parts)| == 3 || (|Fit(parts)| == 4 && Fit(parts)[3] != 0))
  {
    forall i | 0 <= i < |Fit(parts)|
      ensures Fit(parts)[i] <= U64_MAX
    {
      assert Fit(parts)[i] == if i < |parts| then parts[i] else 0;
    }
  }

  lemma ReadIsProper(value: string)
    ensures Read(value).Some? ==> Proper(Read(value).value)
  {
    var core := Before(value, '+');
    var parts, prerelease := ParseParts(Split(Before(core, '-'), '.')), After(core, '-');
    ParsedPartsFit(Split(Before(core, '-'), '.'));
    if Assemble(parts, prerelease).Some? {
      FitIsProper(parts.value);
      if prerelease.Some? {
        LoweredPrerelease(prerelease.value);
      }
    }
  }

  function Normalize(value: string): Option<string> {
    ReadIsProper(value);
    if Read(value).None? then None else Some(Write(Read(value).value))
  }

  function PartAt(parts: seq<nat>, i: nat): nat {
    if i < |parts| then parts[i] else 0
  }

  /** Fitting changes no component, a missing one counting as zero, so zeros at the end do not matter. */
  lemma FitKeepsComponents(parts: seq<nat>)
    requires |parts| <= 4
    ensures 3 <= |Fit(parts)| && forall i: nat :: PartAt(Fit(parts), i) == PartAt(parts, i)
    ensures |parts| < 4 ==> Fit(parts + [0]) == Fit(parts)
  {
    if |parts| < 3 {
      assert parts + [0] + seq(3 - |parts| - 1, _ => 0) == parts + seq(3 - |parts|, _ => 0);
    } else if |parts| == 3 {
      assert (parts + [0])[..3] == parts;
    }
  }

  // ---- The normaliser ----

  method PadAndTrim(input: seq<nat>) returns (parts: seq<nat>)
    requires |input| <= 4
    ensures parts == Fit(input)
  {
    parts := input;
    while |parts| < 3
      invariant |input| <= |parts| && (|parts| > |input| ==> |parts| <= 3)
      invariant parts == input + seq(|parts| - |input|, _ => 0)
    {
      parts := parts + [0];
    }
    if |parts| == 4 && parts[3] == 0 {
      parts := parts[..3];
    }
  }

  method NormalizeVersion(value: string) returns (r: Option<string>)
    ensures r == Normalize(value)
  {
    var core := Before(value, '+');
    var prerelease := After(core, '-');
    var parts := ParseParts(Split(Before(core, '-'), '.'));
    if parts.None? || |parts.value| > 4 {
      return None;
    }
    var fitted := PadAndTrim(parts.value);
    var normalized := Join(Decimals(fitted), '.');
    if prerelease.Some? {
      if !ValidPrerelease(prerelease.value) {
        return None;
      }
      normalized := normalized + ("-" + Lower(prerelease.value));
    } else {
      assert normalized + "" == normalized;
    }
    return Some(normalized);
  }

  // ---- Reading back ----

  lemma {:induction false} JoinedDecimals(parts: seq<nat>, i: nat)
    requires parts != [] && i < |Join(Decimals(parts), '.')|
    ensures IsDigit(Join(Decimals(parts), '.')[i]) || Join(Decimals(parts), '.')[i] == '.'
  {
    if |parts| > 1 {
      assert Decimals(parts)[1..] == Decimals(parts[1..]);
      if i > |ToDecimal(parts[0])| {
        JoinedDecimals(parts[1..], i - |ToDecimal(parts[0])| - 1);
      }
    }
  }

  lemma ParsePartsOf(texts: seq<string>, parts: seq<nat>)
    requires |texts| == |parts| && forall i :: 0 <= i < |texts| ==> ParseU64(texts[i]) == Some(parts[i])
    ensures ParseParts(texts) == Some(parts)
  {
    assert ParseParts(texts).Some?;
    var parsed := ParseParts(texts).value;
    forall i | 0 <= i < |parts|
      ensures parsed[i] == parts[i]
    {
      assert ParseU64(texts[i]) == Some(parsed[i]);
    }
    assert parsed == parts;
  }

  lemma PartsReadBack(parts: seq<nat>)
    requires parts != [] && forall i :: 0 <= i < |parts| ==> parts[i] <= U64_MAX
    ensures ParseParts(Split(Join(Decimals(parts), '.'), '.')) == Some(parts)
  {
    var texts := Decimals(parts);
    forall i | 0 <= i < |texts|
      ensures '.' !in texts[i] && ParseU64(texts[i]) == Some(parts[i])
    {
      assert AllDigits(ToDecimal(parts[i]));
    }
    SplitJoin(texts, '.');
    ParsePartsOf(texts, parts);
  }

  lemma {:induction false} Absent(s: string, stop: char)
    requires stop !in s
    ensures Before(s, stop) == s && After(s, stop) == None
  {
    if s != "" {
      Absent(s[1..], stop);
    }
  }

  /** Where the text of a version is cut. */
  lemma WriteIsCut(v: Version)
    requires Proper(v)
    ensures Before(Write(v), '+') == Write(v)
    ensures Before(Write(v), '-') == Join(Decimals(v.parts), '.')
    ensures After(Write(v), '-') == v.prerelease
  {
    var core := Join(Decimals(v.parts), '.');
    forall i | 0 <= i < |core|
      ensures core[i] != '-' && core[i] != '+'
    {
      JoinedDecimals(v.parts, i);
    }
    Absent(Write(v), '+');
    if v.prerelease.Some? {
      assert Write(v) == core + ['-'] + v.prerelease.value;
      CutAt(core, v.prerelease.value, '-');
    } else {
      Absent(core, '-');
      assert Write(v) == core;
    }
  }

  lemma AssembleProper(v: Version)
    requires Proper(v)
    ensures Assemble(Some(v.parts), v.prerelease) == Some(v)
  {
    assert Fit(v.parts) == v.parts;
  }

  /** A proper version is what its own text reads as. */
  lemma ReadWrite(v: Version)
    requires Proper(v)
    ensures Read(Write(v)) == Some(v)
  {
    WriteIsCut(v);
    PartsReadBack(v.parts);
    AssembleProper(v);
  }

  /** The normal form of a normal form is itself. */
  lemma NormalizeIsIdempotent(value: string)
    ensures Normalize(value).Some? ==>
      && Normalize(Normalize(value).value) == Normalize(value)
      && Read(Normalize(value).value) == Read(value)
  {
    ReadIsProper(value);
    if Read(value).Some? {
      ReadWrite(Read(value).value);
    }
  }

  // ---- Comparison ----

  function CompareParts(a: seq<nat>, b: seq<nat>): Ordering {
    if a == [] then (if b == [] then Equal else Less)
    else if b == [] then Greater
    else CompareNat(a[0], b[0]).Then(CompareParts(a[1..], b[1..]))
  }

  /** Numbers below text, numbers as numbers, text as text; digits beyond 64 bits count as text. */
  function CompareIdentifiers(a: string, b: string): Ordering {
    var x, y := ParseU64(a), ParseU64(b);
    if x.Some? && y.Some? then CompareNat(x.value, y.value)
    else if x.Some? then Less
    else if y.Some? then Greater
    else CompareText(a, b)
  }

  /** The first differing identifier decides, then their number. */
  function CompareIdentifierLists(a: seq<string>, b: seq<string>): Ordering {
    if a == [] || b == [] then CompareNat(|a|, |b|)
    else CompareIdentifiers(a[0], b[0]).Then(CompareIdentifierLists(a[1..], b[1..]))
  }

  function ComparePrerelease(a: string, b: string): Ordering {
    CompareIdentifierLists(Split(a, '.'), Split(b, '.'))
  }

  function NumberOrZero(s: string): nat {
    if ParseU64(s).Some? then ParseU64(s).value else 0
  }

  function NumbersOf(texts: seq<string>): seq<nat> {
    if texts == [] then [] else [NumberOrZero(texts[0])] + NumbersOf(texts[1..])
  }

  /** How the comparator takes a normalised version apart again. */
  function TakeApart(value: string): Version {
    Version(NumbersOf(Split(Before(value, '-'), '.')),
            if After(value, '-').Some? then Some(Lower(After(value, '-').value)) else None)
  }

  function Precedence(a: Version, b: Version): Ordering {
    CompareParts(a.parts, b.parts).Then(
      match (a.prerelease, b.prerelease)
      case (None, None) => Equal
      case (None, Some(_)) => Greater
      case (Some(_), None) => Less
      case (Some(x), Some(y)) => ComparePrerelease(x, y))
  }

  /** The comparator: none when either side is not a version. */
  function CompareNuget(version: string, boundary: string): Option<Ordering> {
    if Normalize(version).None? || Normalize(boundary).None? then None
    else Some(Precedence(TakeApart(Normalize(version).value), TakeApart(Normalize(boundary).value)))
  }

  lemma {:induction false} NumbersOfParsed(texts: seq<string>, parts: seq<nat>)
    requires |texts| == |parts| && forall i :: 0 <= i < |texts| ==> ParseU64(texts[i]) == Some(parts[i])
    ensures NumbersOf(texts) == parts
  {
    if texts != [] {
      NumbersOfParsed(texts[1..], parts[1..]);
      assert parts == [parts[0]] + parts[1..];
    }
  }

  lemma TakeApartWrite(v: Version)
    requires Proper(v)
    ensures TakeApart(Write(v)) == v
  {
    WriteIsCut(v);
    PartsReadBack(v.parts);
    NumbersOfParsed(Split(Before(Write(v), '-'), '.'), v.parts);
  }

  lemma NormalFormTakenApart(x: string)
    ensures Normalize(x).Some? <==> Read(x).Some?
    ensures Read(x).Some? ==> TakeApart(Normalize(x).value) == Read(x).value
  {
    ReadIsProper(x);
    if Read(x).Some? {
      TakeApartWrite(Read(x).value);
    }
  }

  /** The comparator orders versions as read. */
  lemma ComparesAsRead(x: string, y: string)
    ensures CompareNuget(x, y).Some? <==> Read(x).Some? && Read(y).Some?
    ensures CompareNuget(x, y).Some? ==> CompareNuget(x, y).value == Precedence(Read(x).value, Read(y).value)
  {
    NormalFormTakenApart(x);
    NormalFormTakenApart(y);
  }

  lemma {:induction false} PartsAreOrdered(a: seq<nat>, b: seq<nat>, c: seq<nat>)
    ensures CompareParts(a, b) == CompareParts(b, a).Reverse()
    ensures CompareParts(a, b) == Equal <==> a == b
    ensures CompareParts(a, b) != Greater && CompareParts(b, c) != Greater ==> CompareParts(a, c) != Greater
    ensures CompareParts(a, b) != Greater && CompareParts(b, c) != Greater && CompareParts(a, c) == Equal ==>
      CompareParts(a, b) == Equal && CompareParts(b, c) == Equal
  {
    if a != [] && b != [] {
      PartsAreOrdered(a[1..], b[1..], if c == [] then [] else c[1..]);
      assert a[0] == b[0] && a[1..] == b[1..] ==> a == [a[0]] + a[1..] && b == [b[0]] + b[1..];
    }
  }

  lemma IdentifiersReverse(a: string, b: string)
    ensures CompareIdentifiers(a, b) == CompareIdentifiers(b, a).Reverse()
  {
    CompareTextReverse(a, b);
  }

  lemma IdentifiersAreTransitive(a: string, b: string, c: string)
    requires CompareIdentifiers(a, b) != Greater && CompareIdentifiers(b, c) != Greater
    ensures CompareIdentifiers(a, c) != Greater
    ensures CompareIdentifiers(a, c) == Equal ==> CompareIdentifiers(a, b) == Equal && CompareIdentifiers(b, c) == Equal
  {
    if ParseU64(a).None? && ParseU64(b).None? && ParseU64(c).None? {
      CompareTextTransitive(a, b, c);
    }
  }

  lemma {:induction false} ListsReverse(a: seq<string>, b: seq<string>)
    ensures CompareIdentifierLists(a, b) == CompareIdentifierLists(b, a).Reverse()
  {
    if a != [] && b != [] {
      IdentifiersReverse(a[0], b[0]);
      ListsReverse(a[1..], b[1..]);
    }
  }

  lemma {:induction false} ListsAreTransitive(a: seq<string>, b: seq<string>, c: seq<string>)
    requires CompareIdentifierLists(a, b) != Greater && CompareIdentifierLists(b, c) != Greater
    ensures CompareIdentifierLists(a, c) != Greater
    ensures CompareIdentifierLists(a, c) == Equal ==>
      CompareIdentifierLists(a, b) == Equal && CompareIdentifierLists(b, c) == Equal
  {
    if a != [] && b != [] && c != [] {
      IdentifiersAreTransitive(a[0], b[0], c[0]);
      if CompareIdentifiers(a[0], b[0]) == Equal && CompareIdentifiers(b[0], c[0]) == Equal {
        ListsAreTransitive(a[1..], b[1..], c[1..]);
      }
    }
  }

  lemma PrecedenceReverse(a: Version, b: Version)
    ensures Precedence(a, b) == Precedence(b, a).Reverse()
  {
    PartsAreOrdered(a.parts, b.parts, []);
    if a.prerelease.Some? && b.prerelease.Some? {
      ListsReverse(Split(a.prerelease.value, '.'), Split(b.prerelease.value, '.'));
    }
  }

  lemma PrecedenceIsTransitive(a: Version, b: Version, c: Version)
    requires Precedence(a, b) != Greater && Precedence(b, c) != Greater
    ensures Precedence(a, c) != Greater
  {
    PartsAreOrdered(a.parts, b.parts, c.parts);
    PartsAreOrdered(b.parts, c.parts, a.parts);
    if a.prerelease.Some? && b.prerelease.Some? && c.prerelease.Some? && a.parts == b.parts == c.parts {
      ListsAreTransitive(
        Split(a.prerelease.value, '.'), Split(b.prerelease.value, '.'), Split(c.prerelease.value, '.'));
    }
  }

  /** The comparator's order of versions as read is a total preorder. */
  lemma PrecedenceIsATotalPreorder(a: Version, b: Version, c: Version)
    ensures Precedence(a, a) == Equal
    ensures Precedence(a, b) == Precedence(b, a).Reverse()
    ensures Precedence(a, b) != Greater && Precedence(b, c) != Greater ==> Precedence(a, c) != Greater
  {
    PrecedenceReverse(a, a);
    PrecedenceReverse(a, b);
    if Precedence(a, b) != Greater && Precedence(b, c) != Greater {
      PrecedenceIsTransitive(a, b, c);
    }
  }

  /** Normalising either side first changes nothing. */
  lemma ComparatorIgnoresNormalisation(x: string, y: string)
    ensures Normalize(x).Some? ==> CompareNuget(Normalize(x).value, y) == CompareNuget(x, y)
    ensures Normalize(y).Some? ==> CompareNuget(x, Normalize(y).value) == CompareNuget(x, y)
  {
    NormalizeIsIdempotent(x);
    NormalizeIsIdempotent(y);
  }
}
