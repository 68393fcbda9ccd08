/** Which texts are RubyGems versions, and how they are cut into segments. */
module RubyGemsGrammar {
  import opened Prelude
  import opened TextParts
  import opened Digits
  import opened RubyGemsVersion

  // ---- Grammar ----

  predicate IsFigure(c: char) {
    '0' <= c <= '9'
  }

  predicate IsLetter(c: char) {
    'a' <= c <= 'z' || 'A' <= c <= 'Z'
  }

  /** The code points of white space. */
  const WHITE: set<int> := {
    9, 10, 11, 12, 13, 0x20, 0x85, 0xA0, 0x1680, 0x2000, 0x2001, 0x2002, 0x2003, 0x2004, 0x2005, 0x2006, 0x2007,
    0x2008, 0x2009, 0x200A, 0x2028, 0x2029, 0x202F, 0x205F, 0x3000}

  predicate AllWhite(s: string) {
    forall i :: 0 <= i < |s| ==> s[i] as int in WHITE
  }

  predicate IsReleasePart(part: string) {
    part != "" && forall i :: 0 <= i < |part| ==> IsFigure(part[i]) || IsLetter(part[i])
  }

  predicate IsPrereleasePart(part: string) {
    part != "" && forall i :: 0 <= i < |part| ==> IsFigure(part[i]) || IsLetter(part[i]) || part[i] == '-'
  }

  function Core(release: seq<string>, prerelease: Option<seq<string>>): string
    requires release != [] && (prerelease.Some? ==> prerelease.value != [])
  {
    Join(release, '.') + if prerelease.Some? then "-" + Join(prerelease.value, '.') else ""
  }

  /** A number, further dotted parts, and behind the first hyphen dotted parts that may hold hyphens. */
  ghost predicate IsCore(release: seq<string>, prerelease: Option<seq<string>>) {
    && release != [] && release[0] != "" && (forall i :: 0 <= i < |release[0]| ==> IsFigure(release[0][i]))
    && (forall k :: 1 <= k < |release| ==> IsReleasePart(release[k]))
    && (prerelease.Some? ==>
          prerelease.value != [] && forall k :: 0 <= k < |prerelease.value| ==> IsPrereleasePart(prerelease.value[k]))
  }

  /** The text is such a version between white space. */
  ghost predicate Spells(value: string, left: string, release: seq<string>, prerelease: Option<seq<string>>, right: string) {
    && IsCore(release, prerelease) && AllWhite(left) && AllWhite(right)
    && value == left + Core(release, prerelease) + right
  }

  lemma WhiteIsSpace(c: char)
    ensures IsSpace(c) <==> c as int in WHITE
  {
  }

  lemma {:induction false} TrimStartCuts(s: string) returns (left: string)
    ensures AllWhite(left) && s == left + TrimSpaceStart(s)
    ensures TrimSpaceStart(s) != "" ==> !IsSpace(TrimSpaceStart(s)[0])
  {
    left := "";
    if s != "" && IsSpace(s[0]) {
      var rest := TrimStartCuts(s[1..]);
      WhiteIsSpace(s[0]);
      left := [s[0]] + rest;
      assert s == [s[0]] + s[1..];
    }
  }

  lemma {:induction false} TrimCuts(s: string) returns (left: string, right: string)
    ensures AllWhite(left) && AllWhite(right) && s == left + TrimSpace(s) + right
  {
    if s != "" && IsSpace(s[|s| - 1]) {
      var l, r := TrimCuts(s[..|s| - 1]);
      WhiteIsSpace(s[|s| - 1]);
      left, right := l, r + [s[|s| - 1]];
      assert s == s[..|s| - 1] + [s[|s| - 1]];
      assert left + TrimSpace(s) + right == left + TrimSpace(s) + r + [s[|s| - 1]];
    } else {
      left := TrimStartCuts(s);
      right := "";
      assert left + TrimSpace(s) + "" == left + TrimSpace(s);
    }
  }

  lemma {:induction false} TrimStartOf(left: string, core: string)
    requires AllWhite(left) && core != "" && !IsSpace(core[0])
    ensures TrimSpaceStart(left + core) == core
  {
    if left == "" {
      assert left + core == core;
    } else {
      WhiteIsSpace(left[0]);
      assert (left + core)[1..] == left[1..] + core;
      TrimStartOf(left[1..], core);
    }
  }

  lemma {:induction false} TrimOf(left: string, core: string, right: string)
    requires AllWhite(left) && AllWhite(right) && core != "" && !IsSpace(core[0]) && !IsSpace(core[|core| - 1])
    ensures TrimSpace(left + core + right) == core
  {
    var s := left + core + right;
    if right == "" {
      assert s == left + core && s[|s| - 1] == core[|core| - 1];
      TrimStartOf(left, core);
    } else {
      WhiteIsSpace(right[|right| - 1]);
      assert s[..|s| - 1] == left + core + right[..|right| - 1];
      TrimOf(left, core, right[..|right| - 1]);
    }
  }

  /** What a version may be written with. */
  predicate IsVersionChar(c: char) {
    IsFigure(c) || IsLetter(c) || c == '-' || c == '.'
  }

  lemma {:induction false} JoinedChars(parts: seq<string>, i: nat)
    requires parts != [] && forall k :: 0 <= k < |parts| ==> forall j :: 0 <= j < |parts[k]| ==> IsVersionChar(parts[k][j])
    requires i < |Join(parts, '.')|
    ensures IsVersionChar(Join(parts, '.')[i])
  {
    if |parts| > 1 && i > |parts[0]| {
      JoinedChars(parts[1..], i - |parts[0]| - 1);
    }
  }

  lemma {:induction false} NoHyphenJoined(parts: seq<string>)
    requires parts != [] && forall k :: 0 <= k < |parts| ==> '-' !in parts[k]
    ensures '-' !in Join(parts, '.')
  {
    if |parts| > 1 {
      NoHyphenJoined(parts[1..]);
    }
  }

  lemma VersionCharIsNoSpace(c: char)
    requires IsVersionChar(c)
    ensures !IsSpace(c)
  {
  }

  lemma CoreChars(release: seq<string>, prerelease: Option<seq<string>>, i: nat)
    requires IsCore(release, prerelease) && i < |Core(release, prerelease)|
    ensures IsVersionChar(Core(release, prerelease)[i])
  {
    var numbers := Join(release, '.');
    if i < |numbers| {
      JoinedChars(release, i);
    } else if i > |numbers| {
      JoinedChars(prerelease.value, i - |numbers| - 1);
    }
  }

  lemma {:induction false} JoinNotEmpty(parts: seq<string>)
    requires parts != [] && parts[0] != ""
    ensures Join(parts, '.') != ""
  {
  }

  lemma CoreIsCut(release: seq<string>, prerelease: Option<seq<string>>)
    requires IsCore(release, prerelease)
    ensures Before(Core(release, prerelease), '-') == Join(release, '.')
    ensures After(Core(release, prerelease), '-') ==
      if prerelease.Some? then Some(Join(prerelease.value, '.')) else None
  {
    forall k | 0 <= k < |release|
      ensures '-' !in release[k]
    {
      assert k == 0 || IsReleasePart(release[k]);
    }
    NoHyphenJoined(release);
    var numbers := Join(release, '.');
    if prerelease.Some? {
      var behind := Join(prerelease.value, '.');
      assert numbers + ("-" + behind) == numbers + ['-'] + behind;
      CutAt(numbers, behind, '-');
    } else {
      assert numbers + "" == numbers;
      CutAt(numbers, "", '-');
    }
  }

  lemma PartsExactly(part: string)
    ensures ValidReleasePart(part) <==> IsReleasePart(part)
    ensures ValidPrereleasePart(part) <==> IsPrereleasePart(part)
    ensures AllDigits(part) <==> forall i :: 0 <= i < |part| ==> IsFigure(part[i])
  {
    forall c: char
      ensures IsAlnum(c) <==> IsFigure(c) || IsLetter(c)
      ensures IsDigit(c) <==> IsFigure(c)
    {
    }
  }

  lemma AllPartsExactly(parts: seq<string>)
    ensures forall k :: 0 <= k < |parts| ==>
      && (ValidReleasePart(parts[k]) <==> IsReleasePart(parts[k]))
      && (ValidPrereleasePart(parts[k]) <==> IsPrereleasePart(parts[k]))
  {
    forall k | 0 <= k < |parts|
      ensures ValidReleasePart(parts[k]) <==> IsReleasePart(parts[k])
      ensures ValidPrereleasePart(parts[k]) <==> IsPrereleasePart(parts[k])
    {
      PartsExactly(parts[k]);
    }
  }

  lemma CoreIsValid(release: seq<string>, prerelease: Option<seq<string>>)
    requires IsCore(release, prerelease)
    ensures ValidGrammar(Core(release, prerelease))
  {
    CoreIsCut(release, prerelease);
    AllPartsExactly(release);
    PartsExactly(release[0]);
    forall k | 0 <= k < |release|
      ensures '.' !in release[k]
    {
      assert k == 0 || IsReleasePart(release[k]);
    }
    SplitJoin(release, '.');
    if prerelease.Some? {
      AllPartsExactly(prerelease.value);
      forall k | 0 <= k < |prerelease.value|
        ensures '.' !in prerelease.value[k]
      {
        assert IsPrereleasePart(prerelease.value[k]);
      }
      SplitJoin(prerelease.value, '.');
    }
  }

  lemma ValidIsCore(text: string) returns (release: seq<string>, prerelease: Option<seq<string>>)
    requires ValidGrammar(text)
    ensures IsCore(release, prerelease) && Core(release, prerelease) == text
  {
    release := Split(Before(text, '-'), '.');
    JoinSplit(Before(text, '-'), '.');
    AllPartsExactly(release);
    PartsExactly(release[0]);
    if After(text, '-').Some? {
      var behind := After(text, '-').value;
      prerelease := Some(Split(behind, '.'));
      JoinSplit(behind, '.');
      AllPartsExactly(prerelease.value);
      assert text == Before(text, '-') + ("-" + behind);
    } else {
      prerelease := None;
      assert text == Before(text, '-') + "";
    }
  }

  lemma SpelledIsParsed(value: string, left: string, release: seq<string>, prerelease: Option<seq<string>>, right: string)
    requires Spells(value, left, release, prerelease, right)
    ensures Parse(value) == Some(Canonical(Scan(Expand(Core(release, prerelease)))))
  {
    var core := Core(release, prerelease);
    JoinNotEmpty(release);
    CoreChars(release, prerelease, 0);
    CoreChars(release, prerelease, |core| - 1);
    VersionCharIsNoSpace(core[0]);
    VersionCharIsNoSpace(core[|core| - 1]);
    TrimOf(left, core, right);
    CoreIsValid(release, prerelease);
  }

  /** A text is a version exactly when it is spelled like one; it is then cut into the canonical segments of its core. */
  lemma ParseExactly(value: string)
    ensures Parse(value).Some? <==>
      exists left, release, prerelease, right :: Spells(value, left, release, prerelease, right)
    ensures forall left, release, prerelease, right :: Spells(value, left, release, prerelease, right) ==>
      Parse(value) == Some(Canonical(Scan(Expand(Core(release, prerelease)))))
  {
    if Parse(value).Some? {
      var left, right := TrimCuts(value);
      var release, prerelease := ValidIsCore(TrimSpace(value));
      assert Spells(value, left, release, prerelease, right);
    }
    forall left, release, prerelease, right | Spells(value, left, release, prerelease, right)
      ensures Parse(value) == Some(Canonical(Scan(Expand(Core(release, prerelease)))))
    {
      SpelledIsParsed(value, left, release, prerelease, right);
    }
  }

  // ---- Segments ----

  lemma {:induction false} RunOfClass(x: string, y: string, numeric: bool)
    requires forall i :: 0 <= i < |x| ==> IsAlnum(x[i]) && IsDigit(x[i]) == numeric
    requires y == "" || !IsAlnum(y[0]) || IsDigit(y[0]) != numeric
    ensures RunLength(x + y, numeric) == |x|
  {
    if x == "" {
      assert x + y == y;
    } else {
      assert (x + y)[1..] == x[1..] + y;
      RunOfClass(x[1..], y, numeric);
    }
  }

  /**
   A run of figures or of letters is one segment, the number without leading zeros or
   the letters made small, wherever something else follows it.
   */
  lemma RunIsOneSegment(x: string, y: string, numeric: bool)
    requires x != "" && forall i :: 0 <= i < |x| ==> if numeric then IsFigure(x[i]) else IsLetter(x[i])
    requires y == "" || if numeric then !IsFigure(y[0]) else !IsLetter(y[0])
    ensures Scan(x + y) != []
    ensures var segment := Scan(x + y)[0];
      && Scan(x + y) == [segment] + Scan(y)
      && (if numeric
          then segment.Numeric? && Stripped(segment.digits) && AllDigits(x) && Value(segment.digits) == Value(x)
          else segment.Alpha? && |segment.text| == |x| && forall i :: 0 <= i < |x| ==>
                 segment.text[i] as int == x[i] as int + if 'A' <= x[i] <= 'Z' then 32 else 0)
  {
    RunOfClass(x, y, numeric);
    assert (x + y)[..|x|] == x && (x + y)[|x|..] == y;
    if numeric {
      assert AllDigits(x);
      StripZerosKeepsValue(x);
    }
  }
}
