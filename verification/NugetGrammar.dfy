/** Which texts are NuGet versions, and what they are read as. */
module NugetGrammar {
  import opened Prelude
  import opened TextParts
  import opened Digits
  import opened NugetVersion

  /** A component is written in digits and fits 64 bits. */
  ghost predicate IsComponent(text: string) {
    && text != "" && (forall i :: 0 <= i < |text| ==> '0' <= text[i] <= '9')
    && AllDigits(text) && Value(text) < 0x1_0000_0000_0000_0000
  }

  function Written(text: string): nat {
    if AllDigits(text) then Value(text) else 0
  }

  ghost predicate IsSuffix(text: string) {
    text != "" && forall c :: c in text ==> '0' <= c <= '9' || 'a' <= c <= 'z' || 'A' <= c <= 'Z' || c == '.' || c == '-'
  }

  function Behind(mark: string, text: Option<string>): string {
    if text.Some? then mark + text.value else ""
  }

  /** One to four components, maybe a prerelease behind a hyphen, maybe build metadata behind a plus sign. */
  ghost predicate Spells(value: string, components: seq<string>, prerelease: Option<string>, build: Option<string>) {
    && 1 <= |components| <= 4
    && (forall i :: 0 <= i < |components| ==> IsComponent(components[i]))
    && (prerelease.Some? ==> IsSuffix(prerelease.value))
    && value == Join(components, '.') + Behind("-", prerelease) + Behind("+", build)
  }

  /** The text with capital letters made small. */
  ghost predicate IsLowered(text: string, lowered: string) {
    && |text| == |lowered|
    && forall i :: 0 <= i < |text| ==>
         lowered[i] as int == text[i] as int + if 'A' <= text[i] <= 'Z' then 32 else 0
  }

  /** The version has these components, zeros behind them, and this prerelease in small letters. */
  ghost predicate Means(v: Version, components: seq<string>, prerelease: Option<string>)
  {
    && (forall i: nat :: PartAt(v.parts, i) == if i < |components| then Written(components[i]) else 0)
    && (v.prerelease.Some? <==> prerelease.Some?)
    && (prerelease.Some? ==> IsLowered(prerelease.value, v.prerelease.value))
  }

  lemma {:induction false} JoinedWithout(parts: seq<string>, c: char)
    requires parts != [] && c != '.' && forall i :: 0 <= i < |parts| ==> c !in parts[i]
    ensures c !in Join(parts, '.')
  {
    if |parts| > 1 {
      JoinedWithout(parts[1..], c);
    }
  }

  lemma CutBehind(front: string, mark: char, back: Option<string>)
    requires mark !in front
    ensures var s := front + Behind([mark], back);
      Before(s, mark) == front && After(s, mark) == back
  {
    if back.Some? {
      assert front + ([mark] + back.value) == front + [mark] + back.value;
      CutAt(front, back.value, mark);
    } else {
      assert front + "" == front;
      CutAt(front, "", mark);
    }
  }

  /** Where a spelled version is cut. */
  lemma SpelledIsCut(value: string, components: seq<string>, prerelease: Option<string>, build: Option<string>)
    requires Spells(value, components, prerelease, build)
    ensures var core := Before(value, '+');
      && Before(core, '-') == Join(components, '.') && After(core, '-') == prerelease
  {
    var numbers := Join(components, '.');
    JoinedWithout(components, '-');
    JoinedWithout(components, '+');
    assert '+' !in Behind("-", prerelease);
    CutBehind(numbers + Behind("-", prerelease), '+', build);
    CutBehind(numbers, '-', prerelease);
  }

  lemma ComponentsAreParsed(components: seq<string>)
    requires components != [] && forall i :: 0 <= i < |components| ==> IsComponent(components[i])
    ensures Split(Join(components, '.'), '.') == components && ParseParts(components).Some?
    ensures var parts := ParseParts(components).value;
      |parts| == |components| && forall i :: 0 <= i < |parts| ==> parts[i] == Written(components[i])
  {
    forall i | 0 <= i < |components|
      ensures '.' !in components[i] && ParseU64(components[i]) == Some(Value(components[i]))
    {
      assert IsComponent(components[i]);
    }
    SplitJoin(components, '.');
  }

  lemma SuffixIsLowered(text: string)
    requires IsSuffix(text)
    ensures ValidPrerelease(text) && IsLowered(text, Lower(text))
  {
    forall i | 0 <= i < |text|
      ensures IsPrereleaseChar(text[i])
    {
      assert text[i] in text;
    }
  }

  lemma ValidIsSuffix(text: string)
    requires ValidPrerelease(text)
    ensures IsSuffix(text)
  {
    forall c | c in text
      ensures IsPrereleaseChar(c)
    {
      var i :| 0 <= i < |text| && text[i] == c;
    }
  }

  lemma AssembledMeans(components: seq<string>, prerelease: Option<string>)
    requires 1 <= |components| <= 4 && forall i :: 0 <= i < |components| ==> IsComponent(components[i])
    requires prerelease.Some? ==> IsSuffix(prerelease.value)
    ensures Assemble(ParseParts(components), prerelease).Some?
    ensures Means(Assemble(ParseParts(components), prerelease).value, components, prerelease)
  {
    ComponentsAreParsed(components);
    FitKeepsComponents(ParseParts(components).value);
    if prerelease.Some? {
      SuffixIsLowered(prerelease.value);
    }
  }

  lemma SpelledIsRead(value: string, components: seq<string>, prerelease: Option<string>, build: Option<string>)
    requires Spells(value, components, prerelease, build)
    ensures Read(value).Some? && Means(Read(value).value, components, prerelease)
  {
    SpelledIsCut(value, components, prerelease, build);
    ComponentsAreParsed(components);
    AssembledMeans(components, prerelease);
  }

  lemma ParsedAreComponents(texts: seq<string>)
    requires ParseParts(texts).Some?
    ensures forall i :: 0 <= i < |texts| ==> IsComponent(texts[i])
  {
    forall i | 0 <= i < |texts|
      ensures IsComponent(texts[i])
    {
      assert ParseU64(texts[i]) == Some(ParseParts(texts).value[i]);
    }
  }

  lemma Rejoined(s: string, front: string, mark: char, back: Option<string>)
    requires s == if back.Some? then front + [mark] + back.value else front
    ensures s == front + Behind([mark], back)
  {
    if back.Some? {
      assert front + [mark] + back.value == front + ([mark] + back.value);
    }
  }

  lemma CutIsRejoined(s: string, mark: char)
    ensures s == Before(s, mark) + Behind([mark], After(s, mark))
  {
    Rejoined(s, Before(s, mark), mark, After(s, mark));
  }

  lemma ReadIsSpelled(value: string)
    requires Read(value).Some?
    ensures var core := Before(value, '+');
      Spells(value, Split(Before(core, '-'), '.'), After(core, '-'), After(value, '+'))
  {
    var core := Before(value, '+');
    JoinSplit(Before(core, '-'), '.');
    ParsedAreComponents(Split(Before(core, '-'), '.'));
    if After(core, '-').Some? {
      ValidIsSuffix(After(core, '-').value);
    }
    CutIsRejoined(core, '-');
    CutIsRejoined(value, '+');
  }

  /** A text is accepted exactly when it is spelled like a version, and is read as what it spells. */
  lemma ReadExactly(value: string)
    ensures Read(value).Some? <==> exists components, prerelease, build :: Spells(value, components, prerelease, build)
    ensures forall components, prerelease, build :: Spells(value, components, prerelease, build) ==>
      Means(Read(value).value, components, prerelease)
  {
    if Read(value).Some? {
      ReadIsSpelled(value);
    }
    forall components, prerelease, build | Spells(value, components, prerelease, build)
      ensures Read(value).Some? && Means(Read(value).value, components, prerelease)
    {
      SpelledIsRead(value, components, prerelease, build);
    }
  }
}
