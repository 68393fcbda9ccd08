/** RubyGems versions: scanning, canonical form and comparison. */
module RubyGemsVersion {
  // Comparison is lexicographic on segment sequences padded with zeros, which makes
  // it a total order whose equality is identity of canonical forms.

  import opened Prelude
  import opened Text
  import opened TextParts
  import opened Digits

  /** Numeric segments hold zero-stripped digits, so zero is the empty text. */
  datatype Segment = Numeric(digits: string) | Alpha(text: string)

  type Version = seq<Segment>

  const ZERO: Segment := Numeric("")

  // ---- Grammar ----

  predicate IsAlnum(c: char) {
    IsDigit(c) || IsAlpha(c)
  }

  /** Unicode white space. */
  predicate IsSpace(c: char) {
    var code := c as int;
    || 9 <= code <= 13 || code == 0x20 || code == 0x85 || code == 0xA0 || code == 0x1680 || 0x2000 <= code <= 0x200A
    || code == 0x2028 || code == 0x2029 || code == 0x202F || code == 0x205F || code == 0x3000
  }

  function TrimSpaceStart(s: string): string {
    if s != [] && IsSpace(s[0]) then TrimSpaceStart(s[1..]) else s
  }

  function TrimSpace(s: string): string {
    if s != [] && IsSpace(s[|s| - 1]) then TrimSpace(s[..|s| - 1]) else TrimSpaceStart(s)
  }

  predicate AllAlnum(s: string) {
    forall i :: 0 <= i < |s| ==> IsAlnum(s[i])
  }

  predicate ValidReleasePart(part: string) {
    part != "" && AllAlnum(part)
  }

  predicate ValidPrereleasePart(part: string) {
    part != "" && forall i :: 0 <= i < |part| ==> IsAlnum(part[i]) || part[i] == '-'
  }

  predicate ValidGrammar(value: string) {
    var release := Split(Before(value, '-'), '.');
    && release[0] != "" && AllDigits(release[0])
    && (forall i :: 1 <= i < |release| ==> ValidReleasePart(release[i]))
    && (After(value, '-').Some? ==>
          var parts := Split(After(value, '-').value, '.');
          forall i :: 0 <= i < |parts| ==> ValidPrereleasePart(parts[i]))
  }

  /** A hyphen starts a prerelease. */
  function Expand(s: string): string {
    if s == [] then "" else (if s[0] == '-' then ".pre." else [s[0]]) + Expand(s[1..])
  }

  // ---- Scanning ----

  /** How far characters of one class run. */
  function RunLength(s: string, numeric: bool): (n: nat)
    ensures n <= |s|
  {
    if s == [] || !IsAlnum(s[0]) || IsDigit(s[0]) != numeric then 0 else 1 + RunLength(s[1..], numeric)
  }

  function SegmentOf(part: string, numeric: bool): Segment {
    if numeric then Numeric(StripZeros(part)) else Alpha(Lower(part))
  }

  /** The maximal runs of digits and of letters. */
  function Scan(s: string): Version
    decreases |s|
  {
    if s == [] then []
    else if !IsAlnum(s[0]) then Scan(s[1..])
    else
      var n := RunLength(s, IsDigit(s[0]));
      [SegmentOf(s[..n], IsDigit(s[0]))] + Scan(s[n..])
  }

  /** The first position after a run that starts here. */
  method RunEnd(s: string, start: nat) returns (end: nat)
    requires start < |s| && IsAlnum(s[start])
    ensures end == start + RunLength(s[start..], IsDigit(s[start])) && start < end
  {
    var numeric := IsDigit(s[start]);
    end := start + 1;
    assert s[start..][1..] == s[end..];
    while end < |s| && IsAlnum(s[end]) && IsDigit(s[end]) == numeric
      invariant start < end <= |s|
      invariant end - start + RunLength(s[end..], numeric) == RunLength(s[start..], numeric)
    {
      assert s[end..][1..] == s[end + 1..];
      end := end + 1;
    }
  }

  method ScanSegments(expanded: string) returns (segments: Version)
    ensures segments == Scan(expanded)
  {
    segments := [];
    var start := 0;
    while start < |expanded|
      invariant 0 <= start <= |expanded|
      invariant segments + Scan(expanded[start..]) == Scan(expanded)
    {
      ghost var rest := expanded[start..];
      if !IsAlnum(expanded[start]) {
        assert rest[1..] == expanded[start + 1..];
        start := start + 1;
        continue;
      }
      var end := RunEnd(expanded, start);
      assert rest[..end - start] == expanded[start..end] && rest[end - start..] == expanded[end..];
      ghost var segment := SegmentOf(expanded[start..end], IsDigit(expanded[start]));
      assert segments + ([segment] + Scan(expanded[end..])) == segments + [segment] + Scan(expanded[end..]);
      segments := segments + [SegmentOf(expanded[start..end], IsDigit(expanded[start]))];
      start := end;
    }
  }

  lemma {:induction false} RunStopsAtDot(x: string, y: string, numeric: bool)
    ensures RunLength(x + "." + y, numeric) == RunLength(x, numeric)
  {
    if x != "" {
      assert (x + "." + y)[1..] == x[1..] + "." + y;
      RunStopsAtDot(x[1..], y, numeric);
    }
  }

  /** A dot separates whatever stands on its two sides. */
  lemma {:induction false} ScanDot(x: string, y: string)
    ensures Scan(x + "." + y) == Scan(x) + Scan(y)
    decreases |x|
  {
    var s := x + "." + y;
    if x == "" {
      assert s[1..] == y;
    } else if !IsAlnum(x[0]) {
      assert s[1..] == x[1..] + "." + y;
      ScanDot(x[1..], y);
    } else {
      var n := RunLength(x, IsDigit(x[0]));
      RunStopsAtDot(x, y, IsDigit(x[0]));
      assert s[..n] == x[..n] && s[n..] == x[n..] + "." + y;
      ScanDot(x[n..], y);
    }
  }

  lemma {:induction false} ExpandConcat(x: string, y: string)
    ensures Expand(x + y) == Expand(x) + Expand(y)
  {
    if x == "" {
      assert x + y == y;
    } else {
      assert (x + y)[1..] == x[1..] + y;
      ExpandConcat(x[1..], y);
    }
  }

  lemma ScanPre()
    ensures Scan("pre") == [Alpha("pre")]
  {
    assert "pre"[1..] == "re" && "re"[1..] == "e" && "e"[1..] == "";
    assert RunLength("e", false) == 1;
    assert RunLength("re", false) == 2;
    assert RunLength("pre", false) == 3;
    assert Lower("pre") == "pre" && "pre"[3..] == "" && "pre"[..3] == "pre";
  }

  lemma ScanAroundPre(left: string, right: string)
    ensures Scan(left + ".pre." + right) == Scan(left) + [Alpha("pre")] + Scan(right)
  {
    assert left + ".pre." + right == left + "." + ("pre" + "." + right);
    ScanDot(left, "pre" + "." + right);
    ScanDot("pre", right);
    ScanPre();
  }

  /** A hyphen reads like the segment `pre` between its two sides. */
  lemma HyphenIsPre(x: string, y: string)
    ensures Scan(Expand(x + "-" + y)) == Scan(Expand(x)) + [Alpha("pre")] + Scan(Expand(y))
  {
    assert "-"[1..] == "" && Expand("-") == ".pre.";
    ExpandConcat(x + "-", y);
    ExpandConcat(x, "-");
    ScanAroundPre(Expand(x), Expand(y));
  }

  // ---- Canonical form ----

  function DropTrailingZeros(s: Version): Version {
    if s != [] && s[|s| - 1] == ZERO then DropTrailingZeros(s[..|s| - 1]) else s
  }

  function FirstAlpha(s: Version): (k: nat)
    ensures k <= |s| && (forall i :: 0 <= i < k ==> s[i].Numeric?) && (k < |s| ==> s[k].Alpha?)
  {
    if s == [] || s[0].Alpha? then 0 else 1 + FirstAlpha(s[1..])
  }

  /** Drop the trailing zeros of the release and of the prerelease, which starts at the first letters. */
  function Canonical(s: Version): Version {
    var k := FirstAlpha(s);
    DropTrailingZeros(s[..k]) + DropTrailingZeros(s[k..])
  }

  lemma {:induction false} DropTrailingZerosPrefix(s: Version)
    ensures DropTrailingZeros(s) <= s
    ensures DropTrailingZeros(s) != [] ==> DropTrailingZeros(s)[|DropTrailingZeros(s)| - 1] != ZERO
  {
    if s != [] && s[|s| - 1] == ZERO {
      DropTrailingZerosPrefix(s[..|s| - 1]);
    }
  }

  /** A prerelease keeps its first letters, so dropping from the end never reaches the release. */
  lemma {:induction false} DropAfterAlpha(release: Version, rest: Version)
    requires rest != [] && rest[0].Alpha?
    ensures DropTrailingZeros(release + rest) == release + DropTrailingZeros(rest)
    ensures DropTrailingZeros(rest) != [] && DropTrailingZeros(rest)[0] == rest[0]
  {
    if rest[|rest| - 1] == ZERO {
      assert (release + rest)[..|release + rest| - 1] == release + rest[..|rest| - 1];
      DropAfterAlpha(release, rest[..|rest| - 1]);
    }
  }

  lemma {:induction false} FirstAlphaIs(s: Version, k: nat)
    requires k <= |s| && (forall i :: 0 <= i < k ==> s[i].Numeric?) && (k < |s| ==> s[k].Alpha?)
    ensures FirstAlpha(s) == k
  {
    if k > 0 {
      FirstAlphaIs(s[1..], k - 1);
    }
  }

  lemma {:induction false} DropNothing(s: Version)
    requires s == [] || s[|s| - 1] != ZERO
    ensures DropTrailingZeros(s) == s
  {
  }

  /** How the canonical form reads on a release and a prerelease. */
  lemma CanonicalOf(release: Version, rest: Version)
    requires (forall i :: 0 <= i < |release| ==> release[i].Numeric?) && (rest != [] ==> rest[0].Alpha?)
    ensures FirstAlpha(release + rest) == |release|
    ensures Canonical(release + rest) == DropTrailingZeros(release) + DropTrailingZeros(rest)
  {
    FirstAlphaIs(release + rest, |release|);
    assert (release + rest)[..|release|] == release && (release + rest)[|release|..] == rest;
  }

  method DropZerosAtEnd(input: Version) returns (segments: Version)
    ensures segments == DropTrailingZeros(input)
  {
    segments := input;
    while segments != [] && segments[|segments| - 1] == ZERO
      invariant DropTrailingZeros(segments) == DropTrailingZeros(input)
    {
      segments := segments[..|segments| - 1];
    }
  }

  method DropZerosBeforeAlpha(input: Version) returns (segments: Version)
    ensures var k := FirstAlpha(input);
      segments == if k < |input| then DropTrailingZeros(input[..k]) + input[k..] else input
  {
    segments := input;
    var index := FirstAlpha(segments);
    if index < |segments| {
      ghost var k := index;
      while index > 0 && segments[index - 1] == ZERO
        invariant 0 <= index <= |segments| && segments[index..] == input[k..]
        invariant DropTrailingZeros(segments[..index]) == DropTrailingZeros(input[..k])
      {
        assert segments[..index][..index - 1] == segments[..index - 1];
        assert RemoveAt(segments, index - 1)[index - 1..] == segments[index..];
        assert RemoveAt(segments, index - 1)[..index - 1] == segments[..index - 1];
        segments := RemoveAt(segments, index - 1);
        index := index - 1;
      }
      assert segments == segments[..index] + segments[index..];
      DropNothing(segments[..index]);
    }
  }

  /** First the zeros at the end, then those before the first letters. */
  method Canonicalize(input: Version) returns (segments: Version)
    ensures segments == Canonical(input)
  {
    segments := DropZerosAtEnd(input);
    ghost var k := FirstAlpha(input);
    assert input == input[..k] + input[k..];
    if k < |input| {
      DropAfterAlpha(input[..k], input[k..]);
      CanonicalOf(input[..k], DropTrailingZeros(input[k..]));
      assert segments[..k] == input[..k] && segments[k..] == DropTrailingZeros(input[k..]);
    } else {
      DropTrailingZerosPrefix(input);
      FirstAlphaIs(segments, |segments|);
      assert input[k..] == [] && input[..k] == input;
    }
    segments := DropZerosBeforeAlpha(segments);
  }

  ghost predicate IsCanonical(s: Version) {
    && (s != [] ==> s[|s| - 1] != ZERO)
    && (0 < FirstAlpha(s) ==> s[FirstAlpha(s) - 1] != ZERO)
  }

  lemma CanonicalShape(s: Version)
    ensures var release, rest := DropTrailingZeros(s[..FirstAlpha(s)]), DropTrailingZeros(s[FirstAlpha(s)..]);
      && release <= s[..FirstAlpha(s)] && rest <= s[FirstAlpha(s)..]
      && (release != [] ==> release[|release| - 1] != ZERO)
      && (rest != [] ==> rest[0].Alpha? && rest[|rest| - 1] != ZERO)
      && Canonical(s) == release + rest
      && FirstAlpha(release + rest) == |release|
  {
    var k := FirstAlpha(s);
    DropTrailingZerosPrefix(s[..k]);
    DropTrailingZerosPrefix(s[k..]);
    CanonicalOf(DropTrailingZeros(s[..k]), DropTrailingZeros(s[k..]));
  }

  lemma CanonicalIsFixed(s: Version)
    requires IsCanonical(s)
    ensures Canonical(s) == s
  {
    var k := FirstAlpha(s);
    DropNothing(s[..k]);
    DropNothing(s[k..]);
    assert s == s[..k] + s[k..];
  }

  /** The canonical form is canonical, and canonical versions are their own canonical form. */
  lemma CanonicalIsIdempotent(s: Version)
    ensures IsCanonical(Canonical(s))
    ensures Canonical(Canonical(s)) == Canonical(s)
    ensures IsCanonical(s) <==> Canonical(s) == s
  {
    CanonicalShape(s);
    CanonicalIsFixed(Canonical(s));
    if IsCanonical(s) {
      CanonicalIsFixed(s);
    }
  }

  lemma CanonicalKeepsSegments(s: Version, i: nat)
    requires i < |Canonical(s)|
    ensures Canonical(s)[i] in s
  {
    CanonicalShape(s);
    var k := FirstAlpha(s);
    var release := DropTrailingZeros(s[..k]);
    if i < |release| {
      assert Canonical(s)[i] == s[..k][i] == s[i];
    } else {
      assert Canonical(s)[i] == s[k..][i - |release|] == s[k + i - |release|];
    }
  }

  /** Zeros at the end of the release do not matter. */
  lemma ReleaseZerosVanish(release: Version, rest: Version)
    requires (forall i :: 0 <= i < |release| ==> release[i].Numeric?) && (rest != [] ==> rest[0].Alpha?)
    ensures Canonical(release + [ZERO] + rest) == Canonical(release + rest)
  {
    CanonicalOf(release, rest);
    CanonicalOf(release + [ZERO], rest);
    DropOneZero(release);
  }

  /** Zeros at the end do not matter. */
  lemma TrailingZerosVanish(s: Version)
    ensures Canonical(s + [ZERO]) == Canonical(s)
  {
    var k := FirstAlpha(s);
    var release, rest := s[..k], s[k..];
    assert s == release + rest;
    if rest == [] {
      ReleaseZerosVanish(release, []);
      assert release + [ZERO] + [] == s + [ZERO] && release + [] == s;
    } else {
      assert s + [ZERO] == release + (rest + [ZERO]);
      CanonicalOf(release, rest);
      CanonicalOf(release, rest + [ZERO]);
      DropOneZero(rest);
    }
  }

  lemma DropOneZero(s: Version)
    ensures DropTrailingZeros(s + [ZERO]) == DropTrailingZeros(s)
  {
    assert (s + [ZERO])[..|s|] == s;
  }

  // ---- Parsing ----

  function Parse(value: string): Option<Version> {
    var trimmed := TrimSpace(value);
    if trimmed == "" || !ValidGrammar(trimmed) then None else Some(Canonical(Scan(Expand(trimmed))))
  }

  method ParseVersion(value: string) returns (r: Option<Version>)
    ensures r == Parse(value)
  {
    var trimmed := TrimSpace(value);
    if trimmed == "" || !ValidGrammar(trimmed) {
      return None;
    }
    var segments := ScanSegments(Expand(trimmed));
    segments := Canonicalize(segments);
    return Some(segments);
  }

  predicate IsLowerAlpha(s: string) {
    forall i :: 0 <= i < |s| ==> 'a' <= s[i] <= 'z'
  }

  /** Digits without leading zeros, and letters in lower case. */
  predicate SegmentOk(s: Segment) {
    match s
    case Numeric(digits) => Stripped(digits)
    case Alpha(text) => text != "" && IsLowerAlpha(text)
  }

  lemma {:induction false} RunIsUniform(s: string, numeric: bool)
    ensures forall i :: 0 <= i < RunLength(s, numeric) ==> IsAlnum(s[i]) && IsDigit(s[i]) == numeric
  {
    if RunLength(s, numeric) > 0 {
      RunIsUniform(s[1..], numeric);
      forall i | 0 < i < RunLength(s, numeric)
        ensures IsAlnum(s[i]) && IsDigit(s[i]) == numeric
      {
        assert s[i] == s[1..][i - 1];
      }
    }
  }

  lemma {:induction false} ScannedSegmentsAreOk(s: string)
    ensures forall i :: 0 <= i < |Scan(s)| ==> SegmentOk(Scan(s)[i])
    decreases |s|
  {
    if s != [] && IsAlnum(s[0]) {
      var numeric := IsDigit(s[0]);
      var n := RunLength(s, numeric);
      RunIsUniform(s, numeric);
      assert SegmentOk(SegmentOf(s[..n], numeric));
      ScannedSegmentsAreOk(s[n..]);
    } else if s != [] {
      ScannedSegmentsAreOk(s[1..]);
    }
  }

  ghost predicate VersionOk(v: Version) {
    IsCanonical(v) && forall i :: 0 <= i < |v| ==> SegmentOk(v[i])
  }

  lemma ParsedVersionsAreOk(value: string)
    ensures Parse(value).Some? ==> VersionOk(Parse(value).value)
  {
    if Parse(value).Some? {
      var scanned := Scan(Expand(TrimSpace(value)));
      ScannedSegmentsAreOk(Expand(TrimSpace(value)));
      CanonicalIsIdempotent(scanned);
      forall i | 0 <= i < |Canonical(scanned)|
        ensures SegmentOk(Canonical(scanned)[i])
      {
        CanonicalKeepsSegments(scanned, i);
      }
    }
  }

  // ---- Comparison ----

  function CompareSegments(left: Segment, right: Segment): Ordering {
    match (left, right)
    case (Numeric(a), Numeric(b)) => CompareDigits(a, b)
    case (Alpha(a), Alpha(b)) => CompareText(a, b)
    case (Alpha(_), Numeric(_)) => Less
    case (Numeric(_), Alpha(_)) => Greater
  }

  /** What a missing side compares like: the first segment that is not zero decides. */
  function CompareMissing(right: Version): Ordering {
    if right == [] then Equal
    else match right[0]
      case Alpha(_) => Greater
      case Numeric(digits) => if digits != "" then Less else CompareMissing(right[1..])
  }

  function CompareRemaining(left: Version, right: Version): Ordering
    requires left == [] || right == []
    decreases |left|
  {
    if left == [] then CompareMissing(right) else CompareRemaining(right, left).Reverse()
  }

  method Compare(left: Version, right: Version) returns (order: Ordering)
    ensures order == PaddedOrder(left, right)
  {
    var limit := if |left| < |right| then |left| else |right|;
    for index := 0 to limit
      invariant PaddedOrder(left, right) == PaddedOrder(left[index..], right[index..])
    {
      assert Tail(left[index..]) == left[index + 1..] && Tail(right[index..]) == right[index + 1..];
      order := CompareSegments(left[index], right[index]);
      if order != Equal {
        return;
      }
    }
    RemainingIsPadded(left[limit..], right[limit..]);
    return CompareRemaining(left[limit..], right[limit..]);
  }

  /** A version as an infinite sequence that ends in zeros. */
  function At(v: Version, i: nat): Segment {
    if i < |v| then v[i] else ZERO
  }

  function Tail(v: Version): Version {
    if v == [] then [] else v[1..]
  }

  /** The first position where the padded sequences differ decides. */
  function PaddedOrder(a: Version, b: Version): Ordering
    decreases |a| + |b|
  {
    if a == [] && b == [] then Equal
    else CompareSegments(At(a, 0), At(b, 0)).Then(PaddedOrder(Tail(a), Tail(b)))
  }

  lemma {:induction false} MissingIsZero(right: Version)
    ensures CompareMissing(right) == PaddedOrder([], right)
  {
    if right != [] {
      MissingIsZero(right[1..]);
      match right[0]
      case Alpha(_) =>
      case Numeric(digits) => assert digits != "" ==> |digits| > 0;
    }
  }

  lemma RemainingIsPadded(left: Version, right: Version)
    requires left == [] || right == []
    ensures CompareRemaining(left, right) == PaddedOrder(left, right)
  {
    MissingIsZero(left);
    MissingIsZero(right);
    PaddedOrderReverse(left, right);
    assert left != [] ==> CompareRemaining(right, left) == CompareMissing(left);
  }

  lemma SegmentsAreOrdered(a: Segment, b: Segment, c: Segment)
    ensures CompareSegments(a, b) == CompareSegments(b, a).Reverse()
    ensures CompareSegments(a, b) == Equal <==> a == b
    ensures CompareSegments(a, b) == Less && CompareSegments(b, c) == Less ==> CompareSegments(a, c) == Less
  {
    if a.Numeric? && b.Numeric? {
      CompareDigitsOrders(a.digits, b.digits, if c.Numeric? then c.digits else "");
    } else if a.Alpha? && b.Alpha? {
      CompareTextReverse(a.text, b.text);
      CompareTextEqual(a.text, b.text);
      if c.Alpha? && CompareSegments(a, b) == Less && CompareSegments(b, c) == Less {
        CompareTextTransitive(a.text, b.text, c.text);
      }
    }
  }

  lemma {:induction false} PaddedOrderReverse(a: Version, b: Version)
    ensures PaddedOrder(a, b) == PaddedOrder(b, a).Reverse()
    decreases |a| + |b|
  {
    if a != [] || b != [] {
      SegmentsAreOrdered(At(a, 0), At(b, 0), ZERO);
      PaddedOrderReverse(Tail(a), Tail(b));
    }
  }

  lemma {:induction false} PaddedOrderTransitive(a: Version, b: Version, c: Version)
    requires PaddedOrder(a, b) != Greater && PaddedOrder(b, c) != Greater
    ensures PaddedOrder(a, c) != Greater
    ensures PaddedOrder(a, c) == Equal ==> PaddedOrder(a, b) == Equal && PaddedOrder(b, c) == Equal
    decreases |a| + |b| + |c|
  {
    if a != [] || b != [] || c != [] {
      var x, y, z := At(a, 0), At(b, 0), At(c, 0);
      SegmentsAreOrdered(x, y, z);
      SegmentsAreOrdered(y, z, x);
      SegmentsAreOrdered(x, z, y);
      PaddedOrderUnfolds(a, b);
      PaddedOrderUnfolds(b, c);
      PaddedOrderUnfolds(a, c);
      if x == y == z {
        PaddedOrderTransitive(Tail(a), Tail(b), Tail(c));
      }
    }
  }

  lemma PaddedOrderUnfolds(a: Version, b: Version)
    ensures PaddedOrder(a, b) == CompareSegments(At(a, 0), At(b, 0)).Then(PaddedOrder(Tail(a), Tail(b)))
  {
    SegmentsAreOrdered(ZERO, ZERO, ZERO);
  }

  /** The padded sequences agree before this position and are ordered this way at it. */
  ghost predicate DecidedAt(a: Version, b: Version, i: nat, order: Ordering) {
    CompareSegments(At(a, i), At(b, i)) == order && forall j: nat :: j < i ==> At(a, j) == At(b, j)
  }

  lemma AtTail(v: Version, i: nat)
    ensures At(v, i + 1) == At(Tail(v), i)
  {
  }

  /** Whatever position decides, decides the comparison. */
  lemma {:induction false} DecidedOrders(a: Version, b: Version, i: nat, order: Ordering)
    requires DecidedAt(a, b, i, order) && order != Equal
    ensures PaddedOrder(a, b) == order
    decreases i
  {
    PaddedOrderUnfolds(a, b);
    SegmentsAreOrdered(At(a, 0), At(b, 0), ZERO);
    if i > 0 {
      AtTail(a, i - 1);
      AtTail(b, i - 1);
      forall j: nat | j < i - 1
        ensures At(Tail(a), j) == At(Tail(b), j)
      {
        AtTail(a, j);
        AtTail(b, j);
        assert At(a, j + 1) == At(b, j + 1);
      }
      DecidedOrders(Tail(a), Tail(b), i - 1, order);
    }
  }

  /** If no position decides, the sequences agree everywhere. */
  lemma {:induction false} EqualEverywhere(a: Version, b: Version, i: nat)
    requires PaddedOrder(a, b) == Equal
    ensures At(a, i) == At(b, i)
    decreases i
  {
    PaddedOrderUnfolds(a, b);
    SegmentsAreOrdered(At(a, 0), At(b, 0), ZERO);
    if i > 0 {
      EqualEverywhere(Tail(a), Tail(b), i - 1);
      AtTail(a, i - 1);
      AtTail(b, i - 1);
    }
  }

  /** If they do not compare equal, some first position decides. */
  lemma {:induction false} SomePositionDecides(a: Version, b: Version) returns (i: nat)
    requires PaddedOrder(a, b) != Equal
    ensures DecidedAt(a, b, i, PaddedOrder(a, b))
    decreases |a| + |b|
  {
    SegmentsAreOrdered(At(a, 0), At(b, 0), ZERO);
    if At(a, 0) != At(b, 0) {
      i := 0;
    } else {
      var k := SomePositionDecides(Tail(a), Tail(b));
      i := k + 1;
      AtTail(a, k);
      AtTail(b, k);
      forall j: nat | j < i
        ensures At(a, j) == At(b, j)
      {
        if j > 0 {
          AtTail(a, j - 1);
          AtTail(b, j - 1);
        }
      }
    }
  }

  /** Comparison is lexicographic order of infinite sequences. */
  lemma {:induction false} PaddedOrderIsLexicographic(a: Version, b: Version)
    ensures PaddedOrder(a, b) == Equal <==> forall i: nat :: At(a, i) == At(b, i)
    ensures PaddedOrder(a, b) != Equal ==> exists i: nat :: DecidedAt(a, b, i, PaddedOrder(a, b))
    ensures forall i: nat, order {:trigger DecidedAt(a, b, i, order)} ::
      DecidedAt(a, b, i, order) && order != Equal ==> PaddedOrder(a, b) == order
  {
    if PaddedOrder(a, b) == Equal {
      forall i: nat
        ensures At(a, i) == At(b, i)
      {
        EqualEverywhere(a, b, i);
      }
    } else {
      var i := SomePositionDecides(a, b);
      SegmentsAreOrdered(At(a, i), At(b, i), ZERO);
    }
    forall i: nat, order | DecidedAt(a, b, i, order) && order != Equal
      ensures PaddedOrder(a, b) == order
    {
      DecidedOrders(a, b, i, order);
    }
  }

  /** Canonical versions that agree as padded sequences are the same version. */
  lemma EqualExactlyWhenIdentical(a: Version, b: Version)
    requires IsCanonical(a) && IsCanonical(b)
    ensures PaddedOrder(a, b) == Equal <==> a == b
  {
    PaddedOrderIsLexicographic(a, b);
    if PaddedOrder(a, b) == Equal {
      assert a != [] ==> At(a, |a| - 1) == At(b, |a| - 1);
      assert b != [] ==> At(a, |b| - 1) == At(b, |b| - 1);
      forall i | 0 <= i < |a|
        ensures a[i] == b[i]
      {
        assert At(a, i) == At(b, i);
      }
    }
  }

  /** Comparison is a total order on canonical versions, which all parsed versions are. */
  lemma VersionsAreTotallyOrdered(a: Version, b: Version, c: Version)
    requires IsCanonical(a) && IsCanonical(b) && IsCanonical(c)
    ensures PaddedOrder(a, b) == PaddedOrder(b, a).Reverse()
    ensures PaddedOrder(a, b) == Equal <==> a == b
    ensures PaddedOrder(a, b) != Greater && PaddedOrder(b, c) != Greater ==> PaddedOrder(a, c) != Greater
  {
    PaddedOrderReverse(a, b);
    EqualExactlyWhenIdentical(a, b);
    if PaddedOrder(a, b) != Greater && PaddedOrder(b, c) != Greater {
      PaddedOrderTransitive(a, b, c);
    }
  }

  /** Between numeric segments the order is that of the numbers, however long. */
  lemma NumericSegmentsCompareAsNumbers(a: Segment, b: Segment)
    requires a.Numeric? && b.Numeric? && SegmentOk(a) && SegmentOk(b)
    ensures CompareSegments(a, b) == CompareNat(Value(a.digits), Value(b.digits))
  {
    StrippedComparesAsValue(a.digits, b.digits);
  }

  // ---- Printing a version back ----

  function SegmentText(s: Segment): string {
    match s
    case Numeric(digits) => if digits == "" then "0" else digits
    case Alpha(text) => text
  }

  function Texts(v: Version): (r: seq<string>)
    ensures |r| == |v| && forall i :: 0 <= i < |v| ==> r[i] == SegmentText(v[i])
  {
    seq(|v|, i requires 0 <= i < |v| => SegmentText(v[i]))
  }

  /** A version is written with a number first. */
  function WithRelease(v: Version): Version {
    if v == [] || v[0].Alpha? then [ZERO] + v else v
  }

  /** A version as text. */
  function Render(v: Version): string {
    Join(Texts(WithRelease(v)), '.')
  }

  lemma {:induction false} RunOf(part: string, rest: string, numeric: bool)
    requires forall i :: 0 <= i < |part| ==> IsAlnum(part[i]) && IsDigit(part[i]) == numeric
    requires rest == "" || rest[0] == '.'
    ensures RunLength(part + rest, numeric) == |part|
  {
    if part != [] {
      assert (part + rest)[1..] == part[1..] + rest;
      RunOf(part[1..], rest, numeric);
    } else {
      assert part + rest == rest;
    }
  }

  lemma ScanOne(s: Segment, rest: string)
    requires SegmentOk(s) && (rest == "" || rest[0] == '.')
    ensures Scan(SegmentText(s) + rest) == [s] + Scan(rest)
  {
    var part := SegmentText(s);
    var numeric := s.Numeric?;
    RunOf(part, rest, numeric);
    assert (part + rest)[..|part|] == part && (part + rest)[|part|..] == rest;
    assert IsDigit((part + rest)[0]) == numeric;
    if s.Alpha? {
      assert Lower(part) == part;
    } else if s.digits == "" {
      assert "0"[1..] == "";
    }
  }

  lemma {:induction false} ScanJoined(v: Version)
    requires v != [] && forall i :: 0 <= i < |v| ==> SegmentOk(v[i])
    ensures Scan(Join(Texts(v), '.')) == v
  {
    var parts := Texts(v);
    if |v| == 1 {
      ScanOne(v[0], "");
      assert SegmentText(v[0]) + "" == parts[0];
    } else {
      var rest := Join(parts[1..], '.');
      assert parts[1..] == Texts(v[1..]);
      ScanJoined(v[1..]);
      ScanOne(v[0], "." + rest);
      assert ("." + rest)[1..] == rest;
      assert parts[0] + ['.'] + rest == SegmentText(v[0]) + ("." + rest);
    }
  }

  lemma {:induction false} JoinedCharacters(parts: seq<string>, i: nat)
    requires parts != [] && forall k :: 0 <= k < |parts| ==> AllAlnum(parts[k])
    requires i < |Join(parts, '.')|
    ensures IsAlnum(Join(parts, '.')[i]) || Join(parts, '.')[i] == '.'
  {
    if |parts| > 1 && i > |parts[0]| {
      JoinedCharacters(parts[1..], i - |parts[0]| - 1);
    }
  }

  lemma {:induction false} NoHyphen(s: string)
    requires forall i :: 0 <= i < |s| ==> s[i] != '-'
    ensures Before(s, '-') == s && After(s, '-') == None && Expand(s) == s
  {
    if s != [] {
      NoHyphen(s[1..]);
    }
  }

  lemma TrimNothing(s: string)
    requires s != "" && !IsSpace(s[0]) && !IsSpace(s[|s| - 1])
    ensures TrimSpace(s) == s
  {
  }

  lemma JoinedEnds(parts: seq<string>)
    requires parts != [] && forall k :: 0 <= k < |parts| ==> AllAlnum(parts[k]) && parts[k] != ""
    ensures TrimSpace(Join(parts, '.')) == Join(parts, '.') != ""
  {
    var s := Join(parts, '.');
    assert |s| >= |parts[0]| > 0;
    JoinedCharacters(parts, 0);
    JoinedCharacters(parts, |s| - 1);
    TrimNothing(s);
  }

  lemma PartsAreValid(v: Version)
    requires v != [] && v[0].Numeric? && forall i :: 0 <= i < |v| ==> SegmentOk(v[i])
    ensures TrimSpace(Join(Texts(v), '.')) == Join(Texts(v), '.') != ""
    ensures ValidGrammar(Join(Texts(v), '.')) && Expand(Join(Texts(v), '.')) == Join(Texts(v), '.')
  {
    var parts := Texts(v);
    forall k | 0 <= k < |parts|
      ensures AllAlnum(parts[k]) && parts[k] != "" && '.' !in parts[k]
    {
      assert SegmentOk(v[k]);
    }
    JoinedEnds(parts);
    var s := Join(parts, '.');
    forall i | 0 <= i < |s|
      ensures s[i] != '-'
    {
      JoinedCharacters(parts, i);
    }
    NoHyphen(s);
    SplitJoin(parts, '.');
    assert SegmentOk(v[0]);
  }

  lemma ParseJoined(v: Version)
    requires v != [] && v[0].Numeric? && forall i :: 0 <= i < |v| ==> SegmentOk(v[i])
    ensures Parse(Join(Texts(v), '.')) == Some(Canonical(v))
  {
    PartsAreValid(v);
    ScanJoined(v);
  }

  lemma LeadingZeroVanishes(v: Version)
    requires v != [] ==> v[0].Alpha?
    ensures Canonical([ZERO] + v) == Canonical(v)
  {
    CanonicalOf([ZERO], v);
    CanonicalOf([], v);
    DropOneZero([]);
    assert [] + v == v && [] + [ZERO] == [ZERO];
  }

  lemma ReleaseIsImplied(v: Version)
    requires Canonical(v) == v
    ensures Canonical(WithRelease(v)) == v
  {
    if v == [] || v[0].Alpha? {
      LeadingZeroVanishes(v);
    }
  }

  /** Every version is what its own text parses to. */
  lemma ParseRender(v: Version)
    requires VersionOk(v)
    ensures Parse(Render(v)) == Some(v)
  {
    CanonicalIsFixed(v);
    ReleaseIsImplied(v);
    ParseJoined(WithRelease(v));
  }
}
