/** What comes first among RubyGems versions, said without the comparator's own functions. */
module RubyGemsOrder {
  import opened Prelude
  import opened Text
  import opened TextParts
  import opened Digits
  import opened RubyGemsVersion

  // A version is a sequence of numbers and letters that goes on with zeros.  Letters
  // are below every number, which makes 1.rc a prerelease of 1.

  function Padded(v: Version, i: nat): Segment {
    if i < |v| then v[i] else Numeric("")
  }

  /** Letters below numbers, numbers by value, letters as text. */
  ghost predicate Below(x: Segment, y: Segment) {
    match (x, y)
    case (Alpha(_), Numeric(_)) => true
    case (Numeric(_), Alpha(_)) => false
    case (Numeric(a), Numeric(b)) => AllDigits(a) && AllDigits(b) && Value(a) < Value(b)
    case (Alpha(a), Alpha(b)) => exists i: nat :: LowerFrom(a, b, i)
  }

  /** The versions agree before this position and the first one is below there. */
  ghost predicate BelowAt(a: Version, b: Version, i: nat) {
    Below(Padded(a, i), Padded(b, i)) && forall j: nat :: j < i ==> Padded(a, j) == Padded(b, j)
  }

  lemma SegmentsExactly(x: Segment, y: Segment)
    requires SegmentOk(x) && SegmentOk(y)
    ensures CompareSegments(x, y) == Less <==> Below(x, y)
    ensures CompareSegments(x, y) == Greater <==> Below(y, x)
  {
    if x.Numeric? && y.Numeric? {
      StrippedComparesAsValue(x.digits, y.digits);
      StrippedComparesAsValue(y.digits, x.digits);
    } else if x.Alpha? && y.Alpha? {
      TextLessExactly(x.text, y.text);
      TextLessExactly(y.text, x.text);
      CompareTextReverse(x.text, y.text);
    }
  }

  lemma PaddedIsOk(v: Version, i: nat)
    requires VersionOk(v)
    ensures SegmentOk(Padded(v, i)) && At(v, i) == Padded(v, i)
  {
  }

  lemma DecidedIsBelow(a: Version, b: Version, i: nat)
    requires VersionOk(a) && VersionOk(b)
    ensures DecidedAt(a, b, i, Less) <==> BelowAt(a, b, i)
  {
    PaddedIsOk(a, i);
    PaddedIsOk(b, i);
    SegmentsExactly(At(a, i), At(b, i));
    forall j: nat
      ensures At(a, j) == Padded(a, j) && At(b, j) == Padded(b, j)
    {
      PaddedIsOk(a, j);
      PaddedIsOk(b, j);
    }
  }

  /** A version comes first exactly when it is below the other at the first position at which they differ. */
  lemma ComesFirstExactly(a: Version, b: Version)
    requires VersionOk(a) && VersionOk(b)
    ensures PaddedOrder(a, b) == Less <==> exists i: nat :: BelowAt(a, b, i)
    ensures PaddedOrder(a, b) == Greater <==> exists i: nat :: BelowAt(b, a, i)
  {
    LessExactly(a, b);
    LessExactly(b, a);
    PaddedOrderReverse(a, b);
  }

  lemma LessExactly(a: Version, b: Version)
    requires VersionOk(a) && VersionOk(b)
    ensures PaddedOrder(a, b) == Less <==> exists i: nat :: BelowAt(a, b, i)
  {
    PaddedOrderIsLexicographic(a, b);
    forall i: nat
      ensures DecidedAt(a, b, i, Less) <==> BelowAt(a, b, i)
    {
      DecidedIsBelow(a, b, i);
    }
  }

  predicate Letters(text: string) {
    text != "" && IsLowerAlpha(text)
  }

  lemma LettersKeepOk(v: Version, text: string)
    requires VersionOk(v) && Letters(text)
    ensures VersionOk(v + [Alpha(text)])
  {
    var k := FirstAlpha(v);
    FirstAlphaIs(v + [Alpha(text)], k);
  }

  /** Letters behind a version make it a prerelease. */
  lemma LettersComeFirst(v: Version, text: string)
    requires VersionOk(v) && Letters(text)
    ensures PaddedOrder(v + [Alpha(text)], v) == Less
  {
    LettersKeepOk(v, text);
    assert BelowAt(v + [Alpha(text)], v, |v|);
    ComesFirstExactly(v + [Alpha(text)], v);
  }

  lemma {:induction false} JoinLast(parts: seq<string>, last: string, stop: char)
    requires parts != []
    ensures Join(parts + [last], stop) == Join(parts, stop) + [stop] + last
  {
    if |parts| == 1 {
      assert (parts + [last])[1..] == [last];
    } else {
      assert (parts + [last])[1..] == parts[1..] + [last];
      JoinLast(parts[1..], last, stop);
    }
  }

  lemma LettersAreWrittenLast(v: Version, text: string)
    ensures Texts(WithRelease(v + [Alpha(text)])) == Texts(WithRelease(v)) + [text]
  {
    var more := v + [Alpha(text)];
    assert WithRelease(more) == WithRelease(v) + [Alpha(text)];
  }

  lemma RenderedBehind(v: Version, text: string)
    ensures Render(v + [Alpha(text)]) == Render(v) + "." + text
  {
    LettersAreWrittenLast(v, text);
    JoinLast(Texts(WithRelease(v)), text, '.');
  }

  /** Written out: a dot and letters behind a version's text give a version below it. */
  lemma PrereleaseComesFirst(v: Version, text: string)
    requires VersionOk(v) && Letters(text)
    ensures Parse(Render(v)) == Some(v)
    ensures Parse(Render(v) + "." + text) == Some(v + [Alpha(text)])
    ensures PaddedOrder(v + [Alpha(text)], v) == Less
  {
    ParseRender(v);
    LettersKeepOk(v, text);
    LettersComeFirst(v, text);
    RenderedBehind(v, text);
    ParseRender(v + [Alpha(text)]);
  }
}
