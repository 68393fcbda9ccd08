/** What Maven's qualifiers mean, said without the comparator's own functions. */
module MavenQualifiers {
  import opened Prelude
  import opened Text
  import opened TextParts
  import opened Digits
  import opened MavenVersion
  import opened MavenNumbers

  // ---- Tokens ----

  /** The words that have a place of their own; the empty one is the release. */
  const WORDS: seq<string> := ["alpha", "beta", "milestone", "rc", "snapshot", "", "sp"]

  /** Words in their order, any other text behind them all. */
  predicate HasPlace(word: string, k: nat) {
    if k < |WORDS| then WORDS[k] == word else k == |WORDS| && word !in WORDS
  }

  /** An earlier word, or other texts in their order. */
  ghost predicate WordBelow(x: string, y: string) {
    || (exists j, k :: HasPlace(x, j) && HasPlace(y, k) && j < k)
    || (x !in WORDS && y !in WORDS && exists i: nat :: LowerFrom(x, y, i))
  }

  predicate IsNumeric(t: Token) {
    forall c :: c in t.value ==> '0' <= c <= '9'
  }

  /** Behind different separators: dotted text, hyphened text, hyphened number, dotted number. */
  predicate KindBelow(x: Token, y: Token) {
    || (!IsNumeric(x) && !IsNumeric(y) && x.prefix == '.' && y.prefix == '-')
    || (!IsNumeric(x) && IsNumeric(y))
    || (IsNumeric(x) && IsNumeric(y) && x.prefix == '-' && y.prefix == '.')
  }

  /**
   Behind the same separator: numbers by value, a number above text, and text by its
   word.  What stands in for a missing token counts as a word against text, and the
   release that stands in behind a hyphen is below every number.
   */
  ghost predicate AlikeBelow(x: Token, y: Token) {
    if IsNumeric(x) && IsNumeric(y) then
      (x.value == "" && y.value == "0")
      || (AllDigits(x.value) && AllDigits(y.value) && Value(x.value) < Value(y.value))
    else if IsNumeric(x) && !x.isNull then false
    else if IsNumeric(y) && !y.isNull then true
    else WordBelow(x.value, y.value)
  }

  ghost predicate TokenBelow(x: Token, y: Token) {
    if x.prefix != y.prefix then KindBelow(x, y) else AlikeBelow(x, y)
  }

  /** A normalised token: numbers without leading zeros, behind a dot or a hyphen. */
  predicate Normal(t: Token) {
    IsSeparator(t.prefix) && (AllDigits(t.value) ==> t.value == "0" || t.value == "" || t.value[0] != '0')
  }

  lemma NumericExactly(t: Token)
    ensures IsNumeric(t) <==> AllDigits(t.value)
  {
    if IsNumeric(t) {
      forall i | 0 <= i < |t.value|
        ensures IsDigit(t.value[i])
      {
        assert t.value[i] in t.value;
      }
    }
  }

  lemma PlaceIsKeyword(word: string)
    ensures forall k: nat :: HasPlace(word, k) <==> k == Keyword(word)
    ensures Keyword(word) == |WORDS| <==> word !in WORDS
  {
    assert WORDS[0][0] == 'a' && WORDS[1][0] == 'b' && WORDS[2][0] == 'm' && WORDS[3][0] == 'r';
    assert WORDS[4][0] == 's' && WORDS[4][1] == 'n' && WORDS[6][0] == 's' && WORDS[6][1] == 'p';
  }

  lemma QualifiersExactly(x: string, y: string)
    ensures CompareQualifiers(x, y) == Less <==> WordBelow(x, y)
  {
    PlaceIsKeyword(x);
    PlaceIsKeyword(y);
    TextLessExactly(x, y);
    assert HasPlace(x, Keyword(x)) && HasPlace(y, Keyword(y));
    if Keyword(x) == Keyword(y) < |WORDS| {
      assert x == WORDS[Keyword(x)] == y;
      CompareTextEqual(x, y);
    }
  }

  lemma NumbersExactly(x: string, y: string)
    requires AllDigits(x) && AllDigits(y)
    requires (x == "0" || x == "" || x[0] != '0') && (y == "0" || y == "" || y[0] != '0')
    ensures CompareDigits(x, y) == Less <==> (x == "" && y == "0") || Value(x) < Value(y)
  {
    if x == "0" || y == "0" {
      if |x| == |y| {
        SameLengthComparesAsValue(x, y);
      } else {
        assert StripZeros("0") == "" by { assert "0"[1..] == ""; }
        StripZerosKeepsValue("0");
        if x == "0" && y != "" {
          ShorterIsSmaller("", y);
        } else if y == "0" && x != "" {
          ShorterIsSmaller("", x);
        }
      }
    } else {
      StrippedComparesAsValue(x, y);
    }
  }

  /** How two tokens compare. */
  lemma TokensExactly(x: Token, y: Token)
    requires Normal(x) && Normal(y)
    ensures CompareTokens(x, y) == Less <==> TokenBelow(x, y)
  {
    NumericExactly(x);
    NumericExactly(y);
    QualifiersExactly(x.value, y.value);
    if AllDigits(x.value) && AllDigits(y.value) {
      NumbersExactly(x.value, y.value);
    }
  }

  // ---- Versions ----

  lemma {:induction false} SameInFront(v: Version, a: Version, b: Version, i: nat)
    requires WellPrefixed(v) && v <= a && v <= b && i <= |v|
    ensures OrderFrom(a, b, i) == OrderFrom(a, b, |v|)
    decreases |v| - i
  {
    if i < |v| {
      SameInFront(v, a, b, i + 1);
      CompareTokensEqual(v[i], v[i]);
      assert a[i] == v[i] == b[i];
    }
  }

  /** One more token on either side decides. */
  lemma OneTokenDecides(v: Version, x: Token, y: Token)
    requires WellPrefixed(v)
    ensures Order(v + [x], v + [y]) == CompareTokens(x, y)
    ensures Order(v + [x], v) == CompareTokens(x, NullToken(x))
    ensures Order(v, v + [y]) == CompareTokens(NullToken(y), y)
  {
    SameInFront(v, v + [x], v + [y], 0);
    SameInFront(v, v + [x], v, 0);
    SameInFront(v, v, v + [y], 0);
    assert OrderFrom(v + [x], v + [y], |v| + 1) == Equal;
  }

  function Qualified(word: string): Token {
    Token('-', word, false)
  }

  /** The version with this qualifier; the release has none. */
  function WithWord(v: Version, word: string): Version {
    if word == "" then v else v + [Qualified(word)]
  }

  /** A word other than a number. */
  predicate IsText(word: string) {
    word == "" || !AllDigits(word)
  }

  lemma WordsDecide(x: string, y: string)
    requires IsText(x) && IsText(y)
    ensures x != "" && y != "" ==> CompareTokens(Qualified(x), Qualified(y)) == CompareQualifiers(x, y)
    ensures x != "" ==> CompareTokens(Qualified(x), NullToken(Qualified(x))) == CompareQualifiers(x, "")
    ensures y != "" ==> CompareTokens(NullToken(Qualified(y)), Qualified(y)) == CompareQualifiers("", y)
  {
  }

  lemma {:induction false} SameEqual(v: Version, i: nat)
    requires WellPrefixed(v) && i <= |v|
    ensures OrderFrom(v, v, i) == Equal
    decreases |v| - i
  {
    if i < |v| {
      SameEqual(v, i + 1);
      CompareTokensEqual(v[i], v[i]);
    }
  }

  /**
   Among versions that differ in their last qualifier the words decide: alpha, beta,
   milestone, rc, snapshot, the release itself, sp, and then any other text in its own
   order.
   */
  lemma QualifiersRank(v: Version, x: string, y: string)
    requires WellPrefixed(v) && IsText(x) && IsText(y)
    ensures Order(WithWord(v, x), WithWord(v, y)) == Less <==> WordBelow(x, y)
  {
    OneTokenDecides(v, Qualified(x), Qualified(y));
    WordsDecide(x, y);
    QualifiersExactly(x, y);
    SameEqual(v, 0);
    PlaceIsKeyword("");
  }

  /** In particular the seven words stand in their order, and other text behind them. */
  lemma WordsRank(v: Version, j: nat, k: nat, other: string)
    requires WellPrefixed(v) && j < |WORDS| && k < |WORDS|
    requires other !in WORDS && !AllDigits(other)
    ensures Order(WithWord(v, WORDS[j]), WithWord(v, WORDS[k])) == Less <==> j < k
    ensures Order(WithWord(v, WORDS[j]), WithWord(v, other)) == Less
  {
    WordsAreText(j);
    WordsAreText(k);
    QualifiersRank(v, WORDS[j], WORDS[k]);
    QualifiersRank(v, WORDS[j], other);
    PlaceIsKeyword(WORDS[j]);
    PlaceIsKeyword(WORDS[k]);
    assert HasPlace(WORDS[j], j) && HasPlace(WORDS[k], k) && HasPlace(other, |WORDS|);
  }

  lemma WordsAreText(j: nat)
    requires j < |WORDS|
    ensures IsText(WORDS[j])
  {
    assert WORDS[j] != "" ==> WORDS[j][0] > '9';
  }

  // ---- Written versions ----

  /** Words that mean another one wherever they stand. */
  const ALIASES: map<string, string> := map["cr" := "rc", "ga" := "", "final" := "", "release" := ""]

  /** Letters that mean a word before a digit. */
  const ABBREVIATIONS: map<string, string> := map["a" := "alpha", "b" := "beta", "m" := "milestone"]

  lemma AliasExactly(lower: string, followedByTransition: bool)
    ensures Alias(lower, followedByTransition) ==
      if lower in ALIASES then ALIASES[lower]
      else if followedByTransition && lower in ABBREVIATIONS then ABBREVIATIONS[lower]
      else lower
  {
  }

  /** Text that is not a version: none at all, or with white space or a slash in it. */
  lemma RejectedExactly(value: string)
    ensures Parse(value).None? <==> value == "" || exists c :: c in value && c in {' ', '\t', '\n', '\r', 12 as char, '/'}
  {
    if i :| 0 <= i < |value| && (IsAsciiSpace(value[i]) || value[i] == '/') {
      assert value[i] in value;
    }
  }

  /** Small letters only. */
  predicate IsWord(word: string) {
    word != "" && forall i :: 0 <= i < |word| ==> 'a' <= word[i] <= 'z'
  }

  lemma WordIsNormal(word: string)
    requires IsWord(word)
    ensures Uniform(word) && !AllDigits(word) && Lower(word) == word
    ensures NormalizeToken(word, false) == if Alias(word, false) == "" then "0" else Alias(word, false)
  {
    assert !IsDigit(word[0]);
    AliasExactly(word, false);
    if word !in ALIASES {
      assert Alias(word, false) == word;
    } else {
      assert "rc"[0] == 'r';
    }
  }

  /** What a word means. */
  function Meaning(word: string): string {
    if word in ALIASES then ALIASES[word] else word
  }

  /** A number alone is one token. */
  function Base(first: string): Version {
    [Token(FIRST, Stripped0(first), false)]
  }

  lemma TrimmedPair(x: Token, y: Token)
    ensures Trimmed([x, y]) == if IsNullValue(y) then [x] else [x, y]
  {
    var t := [x, y];
    assert Kept(t, 2) == [];
    assert Kept(t, 1) == if IsNullValue(y) then [] else [y];
  }

  lemma PairOfTokens(first: string, word: string)
    requires IsNumber(first) && IsWord(word)
    ensures Tokens([Run(FIRST, first, false), Run('-', word, false)]) ==
      Base(first) + [Qualified(NormalizeToken(word, false))]
  {
    var runs := [Run(FIRST, first, false), Run('-', word, false)];
    TokensAt(runs, 0);
    TokensAt(runs, 1);
    NumberIsStripped(first);
  }

  lemma WordIsNotRejected(first: string, word: string)
    requires IsNumber(first) && IsWord(word)
    ensures !Rejected(first + ['-'] + word)
  {
    var s := first + ['-'] + word;
    forall i | 0 <= i < |s|
      ensures !IsAsciiSpace(s[i]) && s[i] != '/'
    {
      assert i < |first| ==> IsDigit(s[i]);
      assert i > |first| ==> s[i] == word[i - |first| - 1];
    }
  }

  /** A number, a hyphen and a word are read as the number with the qualifier that the word means. */
  lemma WordIsWritten(first: string, word: string)
    requires IsNumber(first) && IsWord(word)
    ensures Parse(first + "-" + word) == Some(WithWord(Base(first), Meaning(word)))
  {
    assert first + "-" + word == first + ['-'] + word;
    WordIsNotRejected(first, word);
    WordIsNormal(word);
    TwoPieces(first, '-', word);
    TwoRuns(first, '-', word);
    PairOfTokens(first, word);
    AliasExactly(word, false);
    var x, y := Token(FIRST, Stripped0(first), false), Qualified(NormalizeToken(word, false));
    assert Base(first) + [y] == [x, y];
    TrimmedPair(x, y);
    assert "rc" != "0";
  }

  /** So written qualifiers rank by what they mean: 1-ga is 1, and 1-cr is 1-rc. */
  lemma WrittenWordsRank(first: string, x: string, y: string)
    requires IsNumber(first) && IsWord(x) && IsWord(y)
    ensures Parse(first + "-" + x).Some? && Parse(first + "-" + y).Some?
    ensures Order(Parse(first + "-" + x).value, Parse(first + "-" + y).value) == Less <==> WordBelow(Meaning(x), Meaning(y))
  {
    WordIsWritten(first, x);
    WordIsWritten(first, y);
    MeaningIsText(x);
    MeaningIsText(y);
    ZeroStrippedIsStable(first);
    QualifiersRank(Base(first), Meaning(x), Meaning(y));
  }

  lemma MeaningIsText(word: string)
    requires IsWord(word)
    ensures IsText(Meaning(word))
  {
    WordIsNormal(word);
    assert "rc"[0] == 'r';
  }
}
