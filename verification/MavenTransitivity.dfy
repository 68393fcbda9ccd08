/** When comparing Maven versions is transitive. */
module MavenTransitivity {
  import opened Prelude
  import opened Text
  import opened Digits
  import opened MavenVersion

  // A version that is out of tokens is padded by a null token made to fit the other
  // side's.  Padding so stands at another place among dotted tokens than among
  // hyphenated ones, and only some pairs of tokens compare as they stand to it.

  lemma QualifiersAreTransitive(a: string, b: string, c: string)
    requires CompareQualifiers(a, b) != Greater && CompareQualifiers(b, c) != Greater
    ensures CompareQualifiers(a, c) != Greater
    ensures CompareQualifiers(a, c) == Equal ==> CompareQualifiers(a, b) == Equal && CompareQualifiers(b, c) == Equal
  {
    if Keyword(a) == Keyword(b) == Keyword(c) {
      CompareTextTransitive(a, b, c);
    }
  }

  lemma DigitsAreTransitive(a: string, b: string, c: string)
    requires CompareDigits(a, b) != Greater && CompareDigits(b, c) != Greater
    ensures CompareDigits(a, c) != Greater
    ensures CompareDigits(a, c) == Equal ==> CompareDigits(a, b) == Equal && CompareDigits(b, c) == Equal
  {
    if |a| == |b| == |c| {
      CompareTextTransitive(a, b, c);
    }
  }

  lemma RealTokensAreTransitive(a: Token, b: Token, c: Token)
    requires !a.isNull && !b.isNull && !c.isNull
    requires a.prefix == b.prefix == c.prefix || (IsSeparator(a.prefix) && IsSeparator(b.prefix) && IsSeparator(c.prefix))
    requires CompareTokens(a, b) != Greater && CompareTokens(b, c) != Greater
    ensures CompareTokens(a, c) != Greater
    ensures CompareTokens(a, c) == Equal ==> CompareTokens(a, b) == Equal && CompareTokens(b, c) == Equal
  {
    if a.prefix == b.prefix == c.prefix {
      if AllDigits(a.value) && AllDigits(b.value) && AllDigits(c.value) {
        DigitsAreTransitive(a.value, b.value, c.value);
      } else if !AllDigits(a.value) && !AllDigits(b.value) && !AllDigits(c.value) {
        QualifiersAreTransitive(a.value, b.value, c.value);
      }
    }
  }

  // ---- Padding ----

  /** How a token compares to the padding made for it. */
  function AgainstPadding(t: Token): Ordering {
    CompareTokens(t, NullToken(t))
  }

  predicate DottedNumber(t: Token) {
    t.prefix == '.' && AllDigits(t.value)
  }

  /**
   Two tokens that stand to padding other than they stand to each other: a dotted
   qualifier above it and a hyphenated one below it, or a dotted zero, which equals
   it, and a token above it that is not a dotted number.
   */
  predicate Clash(s: Token, t: Token) {
    || (s.prefix == '.' && !AllDigits(s.value) && AgainstPadding(s) == Greater
        && t.prefix == '-' && AgainstPadding(t) == Less)
    || (t == Token('.', "0", false) && AgainstPadding(s) == Greater && !DottedNumber(s))
  }

  /** A token as versions hold it after their first one. */
  predicate Proper(t: Token) {
    IsSeparator(t.prefix) && !t.isNull && t.value != ""
  }

  lemma DottedQualifiersAgainstPadding(s: Token, t: Token)
    requires Proper(s) && Proper(t) && s.prefix == '.' == t.prefix && !AllDigits(s.value) && !AllDigits(t.value)
    requires AgainstPadding(s) != Greater && AgainstPadding(t) != Less
    ensures CompareTokens(s, t) == Less
  {
    assert AllDigits("0");
    CompareTextReverse("0", t.value);
    QualifiersAreTransitive(s.value, "0", t.value);
    CompareTextEqual(s.value, "0");
    CompareTextEqual("0", t.value);
  }

  lemma HyphenQualifiersAgainstPadding(s: Token, t: Token)
    requires Proper(s) && Proper(t) && s.prefix == '-' == t.prefix && !AllDigits(s.value) && !AllDigits(t.value)
    requires AgainstPadding(s) != Greater && AgainstPadding(t) != Less
    ensures CompareTokens(s, t) == Less
  {
    CompareTextReverse("", t.value);
    QualifiersAreTransitive(s.value, "", t.value);
    CompareTextEqual(s.value, "");
    CompareTextEqual("", t.value);
  }

  lemma NumbersAgainstPadding(s: Token)
    requires Proper(s) && AllDigits(s.value)
    ensures s.prefix == '-' ==> AgainstPadding(s) == Greater
    ensures s.prefix == '.' ==> AgainstPadding(s) == if s.value == "0" then Equal else Greater
  {
    assert AllDigits("0") && AllDigits("");
    CompareDigitsOrders(s.value, "0", "");
    if |s.value| == 1 && s.value != "0" {
      assert s.value == [s.value[0]] && IsDigit(s.value[0]);
    }
  }

  lemma QualifiersAgainstPadding(s: Token)
    requires Proper(s) && !AllDigits(s.value)
    ensures AgainstPadding(s) != Equal
  {
    assert AllDigits("0") && AllDigits("");
    CompareTextEqual(s.value, "0");
    CompareTextEqual(s.value, "");
  }

  /** Tokens that do not clash compare as they stand to padding. */
  lemma SidesDecide(s: Token, t: Token)
    requires Proper(s) && Proper(t) && !Clash(s, t) && !Clash(t, s)
    requires AgainstPadding(s) != Greater && AgainstPadding(t) != Less
    ensures CompareTokens(s, t) == if AgainstPadding(s) == Equal && AgainstPadding(t) == Equal then Equal else Less
  {
    if AllDigits(s.value) {
      NumbersAgainstPadding(s);
    } else {
      QualifiersAgainstPadding(s);
    }
    if AllDigits(t.value) {
      NumbersAgainstPadding(t);
    } else {
      QualifiersAgainstPadding(t);
    }
    if !AllDigits(s.value) && !AllDigits(t.value) && s.prefix == t.prefix {
      if s.prefix == '.' {
        DottedQualifiersAgainstPadding(s, t);
      } else {
        HyphenQualifiersAgainstPadding(s, t);
      }
    } else if AllDigits(s.value) && AllDigits(t.value) {
      CompareDigitsOrders(s.value, t.value, "");
      assert s.value == "0" && DottedNumber(t);
      assert t.value == "0" || AgainstPadding(t) == Greater;
      CompareDigitsOrders(t.value, "0", "");
    }
  }

  // ---- Position by position ----

  /** How two versions compare at one position; beyond both there is nothing to compare. */
  function Cell(a: Version, b: Version, i: nat): Ordering {
    if i < |a| || i < |b| then CompareTokens(At(a, b, i), At(b, a, i)) else Equal
  }

  function PaddedFrom(a: Version, b: Version, i: nat, n: nat): Ordering
    requires i <= n
    decreases n - i
  {
    if i == n then Equal else Cell(a, b, i).Then(PaddedFrom(a, b, i + 1, n))
  }

  lemma {:induction false} PaddedIsOrder(a: Version, b: Version, i: nat, n: nat)
    requires i <= n && Max(|a|, |b|) <= n
    ensures PaddedFrom(a, b, i, n) == if i <= Max(|a|, |b|) then OrderFrom(a, b, i) else Equal
    decreases n - i
  {
    if i < n {
      PaddedIsOrder(a, b, i + 1, n);
    }
  }

  /** At every position that one of three versions lacks, the tokens of the others do not clash. */
  ghost predicate PaddingFits(a: Version, b: Version, c: Version) {
    && (forall i :: |c| <= i < |a| && i < |b| ==> !Clash(a[i], b[i]) && !Clash(b[i], a[i]))
    && (forall i :: |a| <= i < |b| && i < |c| ==> !Clash(b[i], c[i]) && !Clash(c[i], b[i]))
    && (forall i :: |b| <= i < |a| && i < |c| ==> !Clash(a[i], c[i]) && !Clash(c[i], a[i]))
  }

  lemma CellsArePadding(a: Version, b: Version, i: nat)
    requires |b| <= i < |a| && WellPrefixed(a) && i > 0
    ensures Proper(a[i]) && Cell(a, b, i) == AgainstPadding(a[i]) && Cell(b, a, i) == AgainstPadding(a[i]).Reverse()
  {
    CompareTokensReverse(a[i], NullToken(a[i]));
  }

  lemma CellIsTransitive(a: Version, b: Version, c: Version, i: nat)
    requires VersionOk(a) && VersionOk(b) && VersionOk(c) && PaddingFits(a, b, c)
    requires Cell(a, b, i) != Greater && Cell(b, c, i) != Greater
    ensures Cell(a, c, i) != Greater
    ensures Cell(a, c, i) == Equal ==> Cell(a, b, i) == Equal && Cell(b, c, i) == Equal
  {
    if i < |a| && i < |b| && i < |c| {
      RealTokensAreTransitive(a[i], b[i], c[i]);
    } else if i < |a| && i < |b| {
      CellsArePadding(a, c, i);
      CellsArePadding(b, c, i);
      CompareTokensReverse(a[i], b[i]);
      if AgainstPadding(a[i]) != Less {
        SidesDecide(b[i], a[i]);
      }
    } else if i < |b| && i < |c| {
      CellsArePadding(b, a, i);
      CellsArePadding(c, a, i);
      CompareTokensReverse(b[i], c[i]);
      if AgainstPadding(c[i]) != Greater {
        SidesDecide(c[i], b[i]);
      }
    } else if i < |a| && i < |c| {
      CellsArePadding(a, b, i);
      CellsArePadding(c, b, i);
      SidesDecide(a[i], c[i]);
    } else if i < |a| {
      CellsArePadding(a, b, i);
    } else if i < |b| {
      CellsArePadding(b, a, i);
    } else if i < |c| {
      CellsArePadding(c, a, i);
    }
  }

  lemma {:induction false} PaddedIsTransitive(a: Version, b: Version, c: Version, i: nat, n: nat)
    requires VersionOk(a) && VersionOk(b) && VersionOk(c) && PaddingFits(a, b, c) && i <= n
    requires PaddedFrom(a, b, i, n) != Greater && PaddedFrom(b, c, i, n) != Greater
    ensures PaddedFrom(a, c, i, n) != Greater
    decreases n - i
  {
    if i < n {
      CellIsTransitive(a, b, c, i);
      if Cell(a, c, i) == Equal {
        PaddedIsTransitive(a, b, c, i + 1, n);
      }
    }
  }

  /**
   Comparison is transitive among three versions unless, at a position that one of
   them lacks, the tokens of the other two clash: for versions with as many tokens,
   for dotted numbers of any length, for hyphenated qualifiers, and so on.
   */
  lemma TransitiveUnlessPaddingClashes(a: Version, b: Version, c: Version)
    requires VersionOk(a) && VersionOk(b) && VersionOk(c) && PaddingFits(a, b, c)
    requires Order(a, b) != Greater && Order(b, c) != Greater
    ensures Order(a, c) != Greater
  {
    var n := Max(Max(|a|, |b|), |c|);
    PaddedIsOrder(a, b, 0, n);
    PaddedIsOrder(b, c, 0, n);
    PaddedIsOrder(a, c, 0, n);
    PaddedIsTransitive(a, b, c, 0, n);
  }

  // ---- Clashes ----

  const ONE: Token := Token(FIRST, "1", false)
  const ZERO: Token := Token('.', "0", false)
  const ALPHA: Token := Token('.', "alpha", false)

  lemma AlphaIsBelowPadding()
    ensures AgainstPadding(ALPHA) == Less && !AllDigits("alpha")
    ensures AgainstPadding(ZERO) == Equal && AllDigits("0")
    ensures CompareTokens(ONE, ONE) == Equal
  {
    assert "alpha"[0] == 'a';
    CompareDigitsOrders("0", "0", "");
    CompareDigitsOrders("1", "1", "");
    assert AllDigits("1") && AllDigits("0");
  }

  /** Versions that share their first token are compared by their second ones, if those differ. */
  lemma SecondDecides(a: Version, b: Version, order: Ordering)
    requires |a| >= 1 && |b| >= 1 && Max(|a|, |b|) >= 2 && a[0] == b[0] == ONE
    requires CompareTokens(At(a, b, 1), At(b, a, 1)) == order != Equal
    ensures Order(a, b) == order
  {
    AlphaIsBelowPadding();
    assert OrderFrom(a, b, 1) == order;
  }

  lemma ZeroAlphaIsBelowOne()
    ensures VersionOk([ONE, ZERO, ALPHA]) && VersionOk([ONE])
    ensures Order([ONE, ZERO, ALPHA], [ONE]) == Less
  {
    AlphaIsBelowPadding();
    var c := [ONE, ZERO, ALPHA];
    assert OrderFrom(c, [ONE], 2) == Less;
    assert OrderFrom(c, [ONE], 1) == Less;
  }

  lemma ClashIsAbove(s: Token, t: Token)
    requires Proper(s) && Proper(t) && Clash(s, t)
    ensures VersionOk([ONE, s, ALPHA]) && Order([ONE], [ONE, s, ALPHA]) == Less
    ensures CompareTokens(s, t) == Less
  {
    AlphaIsBelowPadding();
    CompareTokensReverse(s, NullToken(s));
    SecondDecides([ONE], [ONE, s, ALPHA], Less);
  }

  /** Any two tokens that clash make a cycle of three versions, so the condition leaves nothing out. */
  lemma ClashesMakeCycles(s: Token, t: Token) returns (a: Version, b: Version, c: Version)
    requires Proper(s) && Proper(t) && Clash(s, t)
    ensures VersionOk(a) && VersionOk(b) && VersionOk(c)
    ensures Order(a, b) == Less && Order(b, c) == Less && Order(c, a) == Less
  {
    AlphaIsBelowPadding();
    ClashIsAbove(s, t);
    a, b := [ONE], [ONE, s, ALPHA];
    if t == ZERO {
      c := [ONE, ZERO, ALPHA];
      ZeroAlphaIsBelowOne();
    } else {
      c := [ONE, t];
      NumbersDoNotFallBelow(t);
      SecondDecides(c, a, Less);
    }
    SecondDecides(b, c, Less);
  }

  lemma NumbersDoNotFallBelow(t: Token)
    requires Proper(t) && AgainstPadding(t) == Less
    ensures !AllDigits(t.value) && !IsNullValue(t)
  {
    assert AllDigits("0");
    if AllDigits(t.value) {
      NumbersAgainstPadding(t);
    }
  }
}
