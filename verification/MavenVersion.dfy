/** Maven versions: tokenising, trimming and comparison. */
module MavenVersion {
  import opened Prelude
  import opened Text
  import opened TextParts
  import opened Digits

  // Trimming has a moving index; comparison pads the shorter side with a token that
  // depends on the other.

  datatype Token = Token(prefix: char, value: string, isNull: bool)

  type Version = seq<Token>

  const FIRST: char := '\0'

  // ---- Tokens ----

  predicate IsAsciiSpace(c: char) {
    c == ' ' || c == '\t' || c == '\n' || c == '\r' || c as int == 12
  }

  predicate Rejected(value: string) {
    value == "" || exists i :: 0 <= i < |value| && (IsAsciiSpace(value[i]) || value[i] == '/')
  }

  predicate IsSeparator(c: char) {
    c == '.' || c == '-'
  }

  datatype Piece = Piece(prefix: char, text: string)

  /** The pieces from here on, inside the piece that starts at `start` after `prefix`. */
  function PiecesFrom(prefix: char, value: string, start: nat, index: nat): (r: seq<Piece>)
    requires start <= index <= |value|
    ensures r != []
    decreases |value| - index
  {
    if index == |value| then [Piece(prefix, value[start..])]
    else if IsSeparator(value[index]) then
      [Piece(prefix, value[start..index])] + PiecesFrom(value[index], value, index + 1, index + 1)
    else PiecesFrom(prefix, value, start, index + 1)
  }

  /** The pieces between separators, each with the separator before it. */
  function Pieces(value: string): seq<Piece> {
    PiecesFrom(FIRST, value, 0, 0)
  }

  function Stripped0(digits: string): string {
    if StripZeros(digits) == "" then "0" else StripZeros(digits)
  }

  /** Aliases, and abbreviations before a digit. */
  function Alias(lower: string, followedByTransition: bool): string {
    if lower == "cr" then "rc"
    else if lower == "ga" || lower == "final" || lower == "release" then ""
    else if lower == "a" && followedByTransition then "alpha"
    else if lower == "b" && followedByTransition then "beta"
    else if lower == "m" && followedByTransition then "milestone"
    else lower
  }

  function ZeroStripped(word: string): string {
    if AllDigits(word) then Stripped0(word) else word
  }

  /** Lower case, aliases replaced, numbers without leading zeros. */
  function NormalizeToken(value: string, followedByTransition: bool): string {
    ZeroStripped(Alias(Lower(if value == "" then "0" else value), followedByTransition))
  }

  lemma LowerIsStable(s: string)
    ensures Lower(Lower(s)) == Lower(s)
  {
  }

  lemma ZeroStrippedIsStable(word: string)
    ensures ZeroStripped(word) != ""
    ensures ZeroStripped(ZeroStripped(word)) == ZeroStripped(word)
    ensures AllDigits(ZeroStripped(word)) == AllDigits(word)
    ensures Lower(word) == word ==> Lower(ZeroStripped(word)) == ZeroStripped(word)
  {
    if AllDigits(word) {
      assert StripZeros(StripZeros(word)) == StripZeros(word);
      assert "0"[1..] == "" && StripZeros("0") == "";
    }
  }

  lemma AliasIsStable(lower: string, followed: bool)
    requires Lower(lower) == lower
    ensures Alias(Alias(lower, followed), false) == Alias(lower, followed)
    ensures Lower(Alias(lower, followed)) == Alias(lower, followed)
  {
    assert Lower("rc") == "rc" && Lower("") == "";
    assert Lower("alpha") == "alpha" && Lower("beta") == "beta" && Lower("milestone") == "milestone";
  }

  lemma DigitsHaveNoAlias(word: string, followed: bool)
    requires AllDigits(word) && word != ""
    ensures Alias(word, followed) == word
  {
    assert IsDigit(word[0]);
  }

  /** A normalised token is normal: no alias, no upper case, no leading zero is left. */
  lemma NormalFormIsStable(value: string, followed: bool)
    ensures NormalizeToken(value, followed) != ""
    ensures NormalizeToken(NormalizeToken(value, followed), false) == NormalizeToken(value, followed)
  {
    var lower := Lower(if value == "" then "0" else value);
    var word := Alias(lower, followed);
    LowerIsStable(if value == "" then "0" else value);
    AliasIsStable(lower, followed);
    ZeroStrippedIsStable(word);
    if AllDigits(word) {
      DigitsHaveNoAlias(ZeroStripped(word), false);
    }
  }

  /** A run before normalisation: its separator, its text, and whether its piece goes on after it. */
  datatype Run = Run(prefix: char, text: string, followed: bool)

  /** The runs from here on, inside the run that starts at `previous` after `prefix`. */
  function RunsFrom(prefix: char, s: string, previous: nat, index: nat): (r: seq<Run>)
    requires previous < index <= |s|
    ensures r != []
    decreases |s| - index
  {
    if index == |s| then [Run(prefix, s[previous..], false)]
    else if IsDigit(s[index - 1]) != IsDigit(s[index]) then
      [Run(prefix, s[previous..index], true)] + RunsFrom('-', s, index, index + 1)
    else RunsFrom(prefix, s, previous, index + 1)
  }

  /** The runs of one piece; a change between digits and other text acts like a hyphen. */
  function Runs(prefix: char, s: string): seq<Run> {
    if s == "" then [Run(prefix, "", false)] else RunsFrom(prefix, s, 0, 1)
  }

  function AllRuns(pieces: seq<Piece>): seq<Run> {
    if pieces == [] then []
    else AllRuns(pieces[..|pieces| - 1]) + Runs(pieces[|pieces| - 1].prefix, pieces[|pieces| - 1].text)
  }

  function TokenOf(run: Run): Token {
    Token(run.prefix, NormalizeToken(run.text, run.followed), false)
  }

  function Tokens(runs: seq<Run>): Version {
    if runs == [] then [] else Tokens(runs[..|runs| - 1]) + [TokenOf(runs[|runs| - 1])]
  }

  lemma TokensSnoc(runs: seq<Run>, i: nat)
    requires i < |runs|
    ensures Tokens(runs[..i + 1]) == Tokens(runs[..i]) + [TokenOf(runs[i])]
  {
    assert runs[..i + 1][..i] == runs[..i];
  }

  lemma {:induction false} TokensAt(runs: seq<Run>, i: nat)
    requires i < |runs|
    ensures |Tokens(runs)| == |runs| && Tokens(runs)[i] == TokenOf(runs[i])
  {
    if i < |runs| - 1 {
      TokensAt(runs[..|runs| - 1], i);
    } else if |runs| > 1 {
      TokensAt(runs[..|runs| - 1], 0);
    }
  }

  lemma Associates<T>(a: seq<T>, b: seq<T>, c: seq<T>)
    ensures a + (b + c) == a + b + c
  {
  }

  method SplitPieces(value: string) returns (pieces: seq<Piece>)
    ensures pieces == Pieces(value)
  {
    pieces := [];
    var start, prefix := 0, FIRST;
    for index := 0 to |value|
      invariant 0 <= start <= index
      invariant pieces + PiecesFrom(prefix, value, start, index) == Pieces(value)
    {
      if IsSeparator(value[index]) {
        Associates(pieces, [Piece(prefix, value[start..index])], PiecesFrom(value[index], value, index + 1, index + 1));
        pieces := pieces + [Piece(prefix, value[start..index])];
        prefix := value[index];
        start := index + 1;
      }
    }
    pieces := pieces + [Piece(prefix, value[start..])];
  }

  method SplitRuns(prefix: char, s: string) returns (runs: seq<Run>)
    ensures runs == Runs(prefix, s)
  {
    runs := [];
    if s == "" {
      return [Run(prefix, s, false)];
    }
    var previous, current := 0, prefix;
    for index := 1 to |s|
      invariant 0 <= previous < index
      invariant runs + RunsFrom(current, s, previous, index) == Runs(prefix, s)
    {
      if IsDigit(s[index - 1]) != IsDigit(s[index]) {
        Associates(runs, [Run(current, s[previous..index], true)], RunsFrom('-', s, index, index + 1));
        runs := runs + [Run(current, s[previous..index], true)];
        previous, current := index, '-';
      }
    }
    runs := runs + [Run(current, s[previous..], false)];
  }

  /** The text that pieces were cut from. */
  function Uncut(pieces: seq<Piece>): string
    requires pieces != []
  {
    if |pieces| == 1 then pieces[0].text else pieces[0].text + [pieces[1].prefix] + Uncut(pieces[1..])
  }

  lemma UncutCons(piece: Piece, rest: seq<Piece>)
    requires rest != []
    ensures Uncut([piece] + rest) == piece.text + [rest[0].prefix] + Uncut(rest)
  {
    assert ([piece] + rest)[1..] == rest;
  }

  /** Cutting loses nothing: joined by their separators the pieces are the text again. */
  lemma {:induction false} PiecesSpell(prefix: char, value: string, start: nat, index: nat)
    requires start <= index <= |value|
    ensures PiecesFrom(prefix, value, start, index)[0].prefix == prefix
    ensures Uncut(PiecesFrom(prefix, value, start, index)) == value[start..]
    decreases |value| - index
  {
    if index < |value| {
      if IsSeparator(value[index]) {
        PiecesSpell(value[index], value, index + 1, index + 1);
        UncutCons(Piece(prefix, value[start..index]), PiecesFrom(value[index], value, index + 1, index + 1));
        assert value[start..] == value[start..index] + [value[index]] + value[index + 1..];
      } else {
        PiecesSpell(prefix, value, start, index + 1);
      }
    }
  }

  predicate NoSeparator(s: string) {
    forall i :: 0 <= i < |s| ==> !IsSeparator(s[i])
  }

  /** No piece holds a separator, and every piece but the first stands behind one. */
  lemma {:induction false} PiecesAreClean(prefix: char, value: string, start: nat, index: nat)
    requires start <= index <= |value| && NoSeparator(value[start..index])
    ensures forall k :: 0 <= k < |PiecesFrom(prefix, value, start, index)| ==>
      NoSeparator(PiecesFrom(prefix, value, start, index)[k].text)
    ensures forall k :: 1 <= k < |PiecesFrom(prefix, value, start, index)| ==>
      IsSeparator(PiecesFrom(prefix, value, start, index)[k].prefix)
    decreases |value| - index
  {
    if index < |value| {
      if IsSeparator(value[index]) {
        PiecesSpell(value[index], value, index + 1, index + 1);
        PiecesAreClean(value[index], value, index + 1, index + 1);
      } else {
        assert value[start..index + 1] == value[start..index] + [value[index]];
        PiecesAreClean(prefix, value, start, index + 1);
      }
    } else {
      assert value[start..] == value[start..index];
    }
  }

  function Concatenated(runs: seq<Run>): string {
    if runs == [] then "" else runs[0].text + Concatenated(runs[1..])
  }

  /** All digits, or all other characters, and at least one. */
  predicate Uniform(s: string) {
    s != "" && forall i :: 0 <= i < |s| ==> IsDigit(s[i]) == IsDigit(s[0])
  }

  /** Every run is uniform, and from one to the next the class changes behind a hyphen. */
  predicate Alternating(runs: seq<Run>) {
    runs != [] ==>
      && Uniform(runs[0].text)
      && runs[0].followed == (|runs| > 1)
      && (|runs| > 1 ==>
            && runs[1].prefix == '-' && runs[1].text != "" && IsDigit(runs[1].text[0]) != IsDigit(runs[0].text[0])
            && Alternating(runs[1..]))
  }

  lemma ConcatenatedCons(run: Run, rest: seq<Run>)
    ensures Concatenated([run] + rest) == run.text + Concatenated(rest)
  {
    assert ([run] + rest)[1..] == rest;
  }

  lemma AlternatingCons(run: Run, rest: seq<Run>)
    requires Uniform(run.text) && run.followed && rest != [] && Alternating(rest)
    requires rest[0].prefix == '-' && rest[0].text != "" && IsDigit(rest[0].text[0]) != IsDigit(run.text[0])
    ensures Alternating([run] + rest)
  {
    assert ([run] + rest)[1..] == rest;
  }

  lemma UniformGrows(s: string, previous: nat, index: nat)
    requires previous < index < |s| && Uniform(s[previous..index]) && IsDigit(s[index - 1]) == IsDigit(s[index])
    ensures Uniform(s[previous..index + 1])
  {
    assert s[previous..index][index - 1 - previous] == s[index - 1];
    assert s[previous..index + 1] == s[previous..index] + [s[index]];
  }

  /** Cutting into runs loses nothing. */
  lemma {:induction false} RunsSpell(prefix: char, s: string, previous: nat, index: nat)
    requires previous < index <= |s|
    ensures Concatenated(RunsFrom(prefix, s, previous, index)) == s[previous..]
    decreases |s| - index
  {
    if index < |s| {
      if IsDigit(s[index - 1]) != IsDigit(s[index]) {
        RunsSpell('-', s, index, index + 1);
        ConcatenatedCons(Run(prefix, s[previous..index], true), RunsFrom('-', s, index, index + 1));
        assert s[previous..] == s[previous..index] + s[index..];
      } else {
        RunsSpell(prefix, s, previous, index + 1);
      }
    } else {
      assert [Run(prefix, s[previous..], false)][1..] == [];
    }
  }

  /** It cuts exactly where the class changes. */
  lemma {:induction false} RunsAreExact(prefix: char, s: string, previous: nat, index: nat)
    requires previous < index <= |s| && Uniform(s[previous..index])
    ensures var r := RunsFrom(prefix, s, previous, index);
      Alternating(r) && r[0].prefix == prefix && r[0].text != "" && r[0].text[0] == s[previous]
    decreases |s| - index
  {
    if index < |s| {
      if IsDigit(s[index - 1]) != IsDigit(s[index]) {
        assert s[previous..index][index - 1 - previous] == s[index - 1];
        RunsAreExact('-', s, index, index + 1);
        AlternatingCons(Run(prefix, s[previous..index], true), RunsFrom('-', s, index, index + 1));
      } else {
        UniformGrows(s, previous, index);
        RunsAreExact(prefix, s, previous, index + 1);
      }
    } else {
      assert s[previous..] == s[previous..index];
    }
  }

  lemma {:induction false} AlternatingPrefixes(runs: seq<Run>)
    requires Alternating(runs)
    ensures forall i :: 1 <= i < |runs| ==> runs[i].prefix == '-'
  {
    if |runs| > 1 {
      AlternatingPrefixes(runs[1..]);
      forall i | 1 <= i < |runs|
        ensures runs[i].prefix == '-'
      {
        assert i > 1 ==> runs[i] == runs[1..][i - 1];
      }
    }
  }

  method CollectRuns(value: string) returns (runs: seq<Run>)
    ensures runs == AllRuns(Pieces(value))
  {
    var pieces := SplitPieces(value);
    runs := [];
    for i := 0 to |pieces|
      invariant runs == AllRuns(pieces[..i])
    {
      assert pieces[..i + 1][..i] == pieces[..i];
      var more := SplitRuns(pieces[i].prefix, pieces[i].text);
      runs := runs + more;
    }
    assert pieces[..|pieces|] == pieces;
  }

  method NormalizeRuns(runs: seq<Run>) returns (tokens: Version)
    ensures tokens == Tokens(runs)
  {
    tokens := [];
    for i := 0 to |runs|
      invariant tokens == Tokens(runs[..i])
    {
      TokensSnoc(runs, i);
      tokens := tokens + [TokenOf(runs[i])];
    }
    assert runs[..|runs|] == runs;
  }

  // ---- Trimming ----

  predicate IsNullValue(t: Token) {
    t.value == "0" || t.value == ""
  }

  /** Null, and followed by nulls up to the end or up to a hyphen token. */
  predicate Doomed(t: Version, k: nat)
    requires k < |t|
    decreases |t| - k
  {
    IsNullValue(t[k]) && (k + 1 == |t| || t[k + 1].prefix == '-' || Doomed(t, k + 1))
  }

  /** What trimming leaves from a position on; the first token always stays. */
  function Kept(t: Version, k: nat): Version
    requires k <= |t|
    decreases |t| - k
  {
    if k == |t| then []
    else (if k > 0 && Doomed(t, k) then [] else [t[k]]) + Kept(t, k + 1)
  }

  function Trimmed(t: Version): Version {
    Kept(t, 0)
  }

  /** Nothing but the end, a hyphen or a doomed token follows. */
  predicate AtStop(t: Version, k: nat)
    requires k <= |t|
  {
    k == |t| || t[k].prefix == '-' || Doomed(t, k)
  }

  /** From a token that stays, the next place to look is before the nearest hyphen. */
  method SkipToHyphen(ghost t: Version, tokens: Version, from: nat) returns (index: int)
    requires 0 < from < |t| && !Doomed(t, from)
    requires tokens == t[..from + 1] + Kept(t, from + 1)
    ensures -2 <= index < from
    ensures index >= -1 ==> AtStop(t, index + 1) && tokens == t[..index + 1] + Kept(t, index + 1)
    ensures index < -1 ==> tokens == Kept(t, 0)
  {
    index := from;
    while index >= 0 && tokens[index].prefix != '-'
      invariant -1 <= index <= from
      invariant tokens == t[..index + 1] + Kept(t, index + 1)
      invariant index >= 0 ==> !Doomed(t, index)
      invariant index < from ==> t[index + 1].prefix != '-'
    {
      assert t[..index + 1] == t[..index] + [t[index]];
      assert t[..index] + ([t[index]] + Kept(t, index + 1)) == t[..index] + [t[index]] + Kept(t, index + 1);
      index := index - 1;
    }
    if index >= 0 {
      assert t[..index + 1] == t[..index] + [t[index]];
      assert t[..index] + ([t[index]] + Kept(t, index + 1)) == t[..index] + [t[index]] + Kept(t, index + 1);
    }
    index := index - 1;
  }

  method Trim(t: Version) returns (tokens: Version)
    ensures tokens == Trimmed(t)
  {
    tokens := t;
    var index := |t| - 1;
    while index > 0
      invariant -2 <= index < |t|
      invariant index >= -1 ==> AtStop(t, index + 1) && tokens == t[..index + 1] + Kept(t, index + 1)
      invariant index < -1 ==> tokens == Kept(t, 0)
    {
      if IsNullValue(tokens[index]) {
        assert RemoveAt(tokens, index) == t[..index] + Kept(t, index + 1);
        tokens := RemoveAt(tokens, index);
        index := index - 1;
      } else {
        index := SkipToHyphen(t, tokens, index);
      }
    }
    if index == 0 {
      assert t[..1] == [t[0]];
    }
  }

  /** A null token here is followed by a token, and not by a hyphen token. */
  predicate NullOk(t: Version, k: nat) {
    k < |t| && IsNullValue(t[k]) ==> k + 1 < |t| && t[k + 1].prefix != '-'
  }

  /** No null token at the end or before a hyphen token, except the first. */
  ghost predicate IsTrimmed(t: Version) {
    forall k: nat {:trigger NullOk(t, k)} :: 1 <= k < |t| ==> NullOk(t, k)
  }

  lemma NullOkBehind(x: Token, rest: Version, j: nat)
    requires NullOk(rest, j)
    ensures NullOk([x] + rest, j + 1)
  {
  }

  lemma {:induction false} KeptIsTrimmed(t: Version, k: nat, j: nat)
    requires 1 <= k <= |t|
    ensures NullOk(Kept(t, k), j)
    decreases |t| - k
  {
    if k < |t| {
      if Doomed(t, k) {
        KeptIsTrimmed(t, k + 1, j);
      } else if j > 0 {
        KeptIsTrimmed(t, k + 1, j - 1);
        NullOkBehind(t[k], Kept(t, k + 1), j - 1);
      } else if IsNullValue(t[k]) {
        assert Kept(t, k + 1)[0] == t[k + 1];
      }
    }
  }

  lemma TrimmedIsTrimmed(t: Version)
    ensures IsTrimmed(Trimmed(t))
  {
    if t != [] {
      var rest := Kept(t, 1);
      assert Trimmed(t) == [t[0]] + rest;
      forall k: nat | 1 <= k < |Trimmed(t)|
        ensures NullOk(Trimmed(t), k)
      {
        KeptIsTrimmed(t, 1, k - 1);
      }
    }
  }

  lemma {:induction false} NothingDoomed(t: Version, k: nat)
    requires IsTrimmed(t) && 1 <= k <= |t|
    ensures k < |t| ==> !Doomed(t, k)
    ensures Kept(t, k) == t[k..]
    decreases |t| - k
  {
    if k < |t| {
      assert NullOk(t, k);
      NothingDoomed(t, k + 1);
      assert t[k..] == [t[k]] + t[k + 1..];
    }
  }

  /** Trimmed lists are exactly those trimming leaves alone. */
  lemma TrimIsIdempotent(t: Version)
    ensures Trimmed(Trimmed(t)) == Trimmed(t)
    ensures IsTrimmed(t) <==> Trimmed(t) == t
  {
    TrimmedIsTrimmed(t);
    TrimFixes(Trimmed(t));
    if IsTrimmed(t) {
      TrimFixes(t);
    }
  }

  lemma TrimFixes(t: Version)
    requires IsTrimmed(t)
    ensures Trimmed(t) == t
  {
    if t != [] {
      NothingDoomed(t, 1);
      assert t == [t[0]] + t[1..];
    }
  }

  /** A token is doomed when only nulls separate it from the end or from a hyphen token. */
  lemma {:induction false} DoomedExactly(t: Version, k: nat)
    requires k < |t|
    ensures Doomed(t, k) <==> exists p :: k < p <= |t| && NullRun(t, k, p)
    decreases |t| - k
  {
    if k + 1 < |t| {
      DoomedExactly(t, k + 1);
      if Doomed(t, k + 1) && IsNullValue(t[k]) {
        var p :| k + 1 < p <= |t| && NullRun(t, k + 1, p);
        assert NullRun(t, k, p);
      }
      if p :| k < p <= |t| && NullRun(t, k, p) {
        assert p > k + 1 ==> NullRun(t, k + 1, p);
      }
    }
    if IsNullValue(t[k]) && (k + 1 == |t| || t[k + 1].prefix == '-') {
      assert NullRun(t, k, k + 1);
    }
  }

  ghost predicate NullRun(t: Version, k: nat, p: nat) {
    k < p <= |t| && (p == |t| || t[p].prefix == '-') && forall j :: k <= j < p ==> IsNullValue(t[j])
  }

  // ---- Parsing ----

  function Parse(value: string): Option<Version> {
    if Rejected(value) then None else Some(Trimmed(Tokens(AllRuns(Pieces(value)))))
  }

  method ParseVersion(value: string) returns (r: Option<Version>)
    ensures r == Parse(value)
  {
    if Rejected(value) {
      return None;
    }
    var runs := CollectRuns(value);
    var tokens := NormalizeRuns(runs);
    tokens := Trim(tokens);
    return Some(tokens);
  }

  /** The first token has no separator, every later one has, and all have text. */
  ghost predicate WellPrefixed(v: Version) {
    && (v != [] ==> v[0].prefix == FIRST)
    && (forall i :: 1 <= i < |v| ==> IsSeparator(v[i].prefix))
    && (forall i :: 0 <= i < |v| ==> !v[i].isNull && v[i].value != "")
  }

  predicate StartsAfter(runs: seq<Run>, prefix: char) {
    runs != [] && runs[0].prefix == prefix && forall i :: 1 <= i < |runs| ==> IsSeparator(runs[i].prefix)
  }

  lemma RunsAreSeparated(prefix: char, s: string)
    ensures StartsAfter(Runs(prefix, s), prefix)
  {
    if s != "" {
      RunsAreExact(prefix, s, 0, 1);
      AlternatingPrefixes(Runs(prefix, s));
    }
  }

  lemma {:induction false} AllRunsAreSeparated(pieces: seq<Piece>)
    requires pieces != [] && forall i :: 1 <= i < |pieces| ==> IsSeparator(pieces[i].prefix)
    ensures StartsAfter(AllRuns(pieces), pieces[0].prefix)
  {
    var n := |pieces| - 1;
    RunsAreSeparated(pieces[n].prefix, pieces[n].text);
    if n > 0 {
      AllRunsAreSeparated(pieces[..n]);
    } else {
      assert pieces[..0] == [];
    }
  }

  lemma TokensAreWellPrefixed(runs: seq<Run>)
    requires StartsAfter(runs, FIRST)
    ensures Tokens(runs) != [] && WellPrefixed(Tokens(runs))
  {
    TokensAt(runs, 0);
    forall i | 0 <= i < |runs|
      ensures Tokens(runs)[i] == TokenOf(runs[i])
    {
      TokensAt(runs, i);
    }
    forall i | 0 <= i < |runs|
      ensures Tokens(runs)[i].value != ""
    {
      NormalFormIsStable(runs[i].text, runs[i].followed);
    }
  }

  lemma {:induction false} KeptMembers(t: Version, k: nat)
    requires k <= |t|
    ensures forall x :: x in Kept(t, k) ==> x in t[k..]
    decreases |t| - k
  {
    if k < |t| {
      KeptMembers(t, k + 1);
      assert t[k..] == [t[k]] + t[k + 1..];
    }
  }

  lemma TrimmingKeepsPrefixes(t: Version)
    requires t != [] && WellPrefixed(t)
    ensures Trimmed(t) != [] && WellPrefixed(Trimmed(t))
  {
    KeptMembers(t, 1);
    var rest := Kept(t, 1);
    assert Trimmed(t) == [t[0]] + rest;
    forall i | 1 <= i < |Trimmed(t)|
      ensures IsSeparator(Trimmed(t)[i].prefix) && !Trimmed(t)[i].isNull && Trimmed(t)[i].value != ""
    {
      assert Trimmed(t)[i] == rest[i - 1] && rest[i - 1] in t[1..];
    }
  }

  /** What parsing guarantees of a version. */
  ghost predicate VersionOk(v: Version) {
    v != [] && WellPrefixed(v) && IsTrimmed(v)
  }

  lemma ParsedVersionsAreOk(value: string)
    ensures Parse(value).Some? ==> VersionOk(Parse(value).value)
  {
    var runs := AllRuns(Pieces(value));
    PiecesSpell(FIRST, value, 0, 0);
    PiecesAreClean(FIRST, value, 0, 0);
    AllRunsAreSeparated(Pieces(value));
    TokensAreWellPrefixed(runs);
    TrimmingKeepsPrefixes(Tokens(runs));
    TrimmedIsTrimmed(Tokens(runs));
  }

  // ---- Comparison ----

  function NullToken(other: Token): Token {
    Token(other.prefix, if other.prefix == '.' then "0" else "", true)
  }

  function QualifierOrder(t: Token): nat {
    if t.prefix == '.' then (if AllDigits(t.value) then 3 else 0)
    else if t.prefix == '-' then (if AllDigits(t.value) then 2 else 1)
    else 0
  }

  function Keyword(value: string): nat {
    if value == "alpha" then 0
    else if value == "beta" then 1
    else if value == "milestone" then 2
    else if value == "rc" then 3
    else if value == "snapshot" then 4
    else if value == "" then 5
    else if value == "sp" then 6
    else 7
  }

  function CompareQualifiers(left: string, right: string): Ordering {
    CompareNat(Keyword(left), Keyword(right)).Then(CompareText(left, right))
  }

  function CompareTokens(left: Token, right: Token): Ordering {
    if left.prefix != right.prefix then CompareNat(QualifierOrder(left), QualifierOrder(right))
    else if AllDigits(left.value) && AllDigits(right.value) then CompareDigits(left.value, right.value)
    else if AllDigits(left.value) && !AllDigits(right.value) && !left.isNull then Greater
    else if !AllDigits(left.value) && AllDigits(right.value) && !right.isNull then Less
    else CompareQualifiers(left.value, right.value)
  }

  /** The token at a position, or the null token that stands against the other side's. */
  function At(v: Version, other: Version, i: nat): Token
    requires i < |v| || i < |other|
  {
    if i < |v| then v[i] else NullToken(other[i])
  }

  function OrderFrom(a: Version, b: Version, i: nat): Ordering
    requires i <= Max(|a|, |b|)
    decreases Max(|a|, |b|) - i
  {
    if i == Max(|a|, |b|) then Equal else CompareTokens(At(a, b, i), At(b, a, i)).Then(OrderFrom(a, b, i + 1))
  }

  function Order(a: Version, b: Version): Ordering {
    OrderFrom(a, b, 0)
  }

  method CompareParsed(a: Version, b: Version) returns (order: Ordering)
    ensures order == Order(a, b)
  {
    for index := 0 to Max(|a|, |b|)
      invariant Order(a, b) == OrderFrom(a, b, index)
    {
      order := CompareTokens(At(a, b, index), At(b, a, index));
      if order != Equal {
        return;
      }
    }
    return Equal;
  }

  method CompareVersions(left: string, right: string) returns (r: Option<Ordering>)
    ensures r.Some? <==> Parse(left).Some? && Parse(right).Some?
    ensures r.Some? ==> r.value == Order(Parse(left).value, Parse(right).value)
  {
    var a := ParseVersion(left);
    if a.None? {
      return None;
    }
    var b := ParseVersion(right);
    if b.None? {
      return None;
    }
    var order := CompareParsed(a.value, b.value);
    return Some(order);
  }

  lemma CompareTokensReverse(a: Token, b: Token)
    ensures !(a.isNull && b.isNull) ==> CompareTokens(a, b) == CompareTokens(b, a).Reverse()
  {
    CompareDigitsOrders(a.value, b.value, "");
    CompareTextReverse(a.value, b.value);
  }

  lemma {:induction false} OrderFromReverse(a: Version, b: Version, i: nat)
    requires WellPrefixed(a) && WellPrefixed(b) && i <= Max(|a|, |b|)
    ensures OrderFrom(a, b, i) == OrderFrom(b, a, i).Reverse()
    decreases Max(|a|, |b|) - i
  {
    if i < Max(|a|, |b|) {
      CompareTokensReverse(At(a, b, i), At(b, a, i));
      OrderFromReverse(a, b, i + 1);
    }
  }

  lemma CompareTokensEqual(a: Token, b: Token)
    requires a.prefix == b.prefix || (IsSeparator(a.prefix) && IsSeparator(b.prefix))
    ensures CompareTokens(a, b) == Equal <==> a.prefix == b.prefix && a.value == b.value
  {
    CompareDigitsOrders(a.value, b.value, "");
    CompareTextEqual(a.value, b.value);
  }

  lemma {:induction false} OrderEqual(a: Version, b: Version, i: nat)
    requires a != [] && b != [] && WellPrefixed(a) && WellPrefixed(b) && i <= Max(|a|, |b|)
    ensures OrderFrom(a, b, i) == Equal <==>
      forall j :: i <= j < Max(|a|, |b|) ==> At(a, b, j).prefix == At(b, a, j).prefix && At(a, b, j).value == At(b, a, j).value
    decreases Max(|a|, |b|) - i
  {
    if i < Max(|a|, |b|) {
      CompareTokensEqual(At(a, b, i), At(b, a, i));
      OrderEqual(a, b, i + 1);
    }
  }

  lemma LongerDiffers(a: Version, b: Version)
    requires |a| > |b| > 0 && WellPrefixed(a) && WellPrefixed(b) && IsTrimmed(a)
    ensures Order(a, b) != Equal
  {
    var j := |a| - 1;
    OrderEqual(a, b, 0);
    assert NullOk(a, j);
    assert At(a, b, j) == a[j] && At(b, a, j) == NullToken(a[j]);
  }

  /** Comparing the other way round reverses the result, and only identical versions are equal. */
  lemma OrderIsAntisymmetric(a: Version, b: Version)
    requires VersionOk(a) && VersionOk(b)
    ensures Order(a, b) == Order(b, a).Reverse()
    ensures Order(a, b) == Equal <==> a == b
  {
    OrderFromReverse(a, b, 0);
    OrderEqual(a, b, 0);
    if |a| > |b| {
      LongerDiffers(a, b);
    } else if |b| > |a| {
      LongerDiffers(b, a);
    } else if Order(a, b) == Equal {
      forall i | 0 <= i < |a|
        ensures a[i] == b[i]
      {
        assert At(a, b, i) == a[i] && At(b, a, i) == b[i];
      }
    }
  }
}
