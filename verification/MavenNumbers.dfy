/**
 What Maven comparison means: on dotted numbers it is the order of the numbers,
 and in general it is not transitive.
 */
module MavenNumbers {
  import opened Prelude
  import opened Text
  import opened TextParts
  import opened Digits
  import opened MavenVersion

  predicate IsNumber(part: string) {
    part != "" && AllDigits(part)
  }

  predicate Numbers(parts: seq<string>) {
    parts != [] && forall i :: 0 <= i < |parts| ==> IsNumber(parts[i])
  }

  function PrefixAt(prefix: char, i: nat): char {
    if i == 0 then prefix else '.'
  }

  function NumberPieces(prefix: char, parts: seq<string>): (r: seq<Piece>)
    ensures |r| == |parts| && forall i :: 0 <= i < |r| ==> r[i] == Piece(PrefixAt(prefix, i), parts[i])
  {
    seq(|parts|, i requires 0 <= i < |parts| => Piece(PrefixAt(prefix, i), parts[i]))
  }

  function NumberRuns(prefix: char, parts: seq<string>): (r: seq<Run>)
    ensures |r| == |parts| && forall i :: 0 <= i < |r| ==> r[i] == Run(PrefixAt(prefix, i), parts[i], false)
  {
    seq(|parts|, i requires 0 <= i < |parts| => Run(PrefixAt(prefix, i), parts[i], false))
  }

  /** Up to the next separator the walk stays in one piece. */
  lemma {:induction false} WalkAlong(prefix: char, value: string, start: nat, index: nat, end: nat)
    requires start <= index <= end <= |value| && forall i :: index <= i < end ==> !IsSeparator(value[i])
    ensures PiecesFrom(prefix, value, start, index) == PiecesFrom(prefix, value, start, end)
    decreases end - index
  {
    if index < end {
      WalkAlong(prefix, value, start, index + 1, end);
    }
  }

  lemma {:induction false} PiecesOfNumbers(prefix: char, value: string, start: nat, parts: seq<string>)
    requires Numbers(parts) && start <= |value| && value[start..] == Join(parts, '.')
    ensures PiecesFrom(prefix, value, start, start) == NumberPieces(prefix, parts)
    decreases |parts|
  {
    var end := start + |parts[0]|;
    assert value[start..end] == parts[0];
    forall i | start <= i < end
      ensures !IsSeparator(value[i])
    {
      assert value[i] == parts[0][i - start];
    }
    WalkAlong(prefix, value, start, start, end);
    if |parts| == 1 {
      assert value[start..] == parts[0];
    } else {
      var rest := Join(parts[1..], '.');
      assert value[end] == value[start..][|parts[0]|] == '.';
      assert value[end + 1..] == value[start..][|parts[0]| + 1..] == rest;
      PiecesOfNumbers('.', value, end + 1, parts[1..]);
      assert NumberPieces(prefix, parts) == [Piece(prefix, parts[0])] + NumberPieces('.', parts[1..]);
    }
  }

  lemma {:induction false} OneRunFrom(prefix: char, s: string, index: nat)
    requires Uniform(s) && 0 < index <= |s|
    ensures RunsFrom(prefix, s, 0, index) == [Run(prefix, s, false)]
    decreases |s| - index
  {
    if index < |s| {
      OneRunFrom(prefix, s, index + 1);
    }
  }

  lemma OneRun(prefix: char, s: string)
    requires Uniform(s)
    ensures Runs(prefix, s) == [Run(prefix, s, false)]
  {
    OneRunFrom(prefix, s, 1);
  }

  lemma {:induction false} RunsOfNumbers(prefix: char, parts: seq<string>)
    requires forall i :: 0 <= i < |parts| ==> IsNumber(parts[i])
    ensures AllRuns(NumberPieces(prefix, parts)) == NumberRuns(prefix, parts)
  {
    if parts != [] {
      var n := |parts| - 1;
      RunsOfNumbers(prefix, parts[..n]);
      assert Uniform(parts[n]);
      OneRun(PrefixAt(prefix, n), parts[n]);
      assert NumberPieces(prefix, parts)[..n] == NumberPieces(prefix, parts[..n]);
      assert NumberRuns(prefix, parts) == NumberRuns(prefix, parts[..n]) + [Run(PrefixAt(prefix, n), parts[n], false)];
    }
  }

  lemma NumberIsStripped(part: string)
    requires IsNumber(part)
    ensures NormalizeToken(part, false) == Stripped0(part)
  {
    assert Lower(part) == part;
    assert IsDigit(part[0]);
  }

  /** The tokens of dotted numbers before trimming. */
  function NumberTokens(parts: seq<string>): (t: Version)
    ensures |t| == |parts|
    ensures forall i :: 0 <= i < |t| ==> t[i] == Token(PrefixAt(FIRST, i), Stripped0(parts[i]), false)
  {
    seq(|parts|, i requires 0 <= i < |parts| => Token(PrefixAt(FIRST, i), Stripped0(parts[i]), false))
  }

  lemma TokensOfNumbers(parts: seq<string>)
    requires Numbers(parts)
    ensures Tokens(NumberRuns(FIRST, parts)) == NumberTokens(parts)
  {
    var runs := NumberRuns(FIRST, parts);
    TokensAt(runs, 0);
    forall i | 0 <= i < |runs|
      ensures Tokens(runs)[i] == NumberTokens(parts)[i]
    {
      TokensAt(runs, i);
      NumberIsStripped(parts[i]);
    }
  }

  lemma {:induction false} JoinedNumbers(parts: seq<string>, i: nat)
    requires Numbers(parts) && i < |Join(parts, '.')|
    ensures IsDigit(Join(parts, '.')[i]) || Join(parts, '.')[i] == '.'
  {
    if |parts| > 1 && i > |parts[0]| {
      JoinedNumbers(parts[1..], i - |parts[0]| - 1);
    }
  }

  lemma NumbersParse(parts: seq<string>)
    requires Numbers(parts)
    ensures Parse(Join(parts, '.')) == Some(Trimmed(NumberTokens(parts)))
  {
    var s := Join(parts, '.');
    assert s != "";
    forall i | 0 <= i < |s|
      ensures !IsAsciiSpace(s[i]) && s[i] != '/'
    {
      JoinedNumbers(parts, i);
    }
    assert s[0..] == s;
    PiecesOfNumbers(FIRST, s, 0, parts);
    RunsOfNumbers(FIRST, parts);
    TokensOfNumbers(parts);
  }

  // ---- The numbers compared ----

  /** The number at a position; a missing one is zero. */
  function NumberAt(parts: seq<string>, i: nat): nat
    requires Numbers(parts)
  {
    if i < |parts| then assert IsNumber(parts[i]); Value(parts[i]) else 0
  }

  lemma Stripped0ComparesAsValue(a: string, b: string)
    requires AllDigits(a) && AllDigits(b)
    ensures CompareDigits(Stripped0(a), Stripped0(b)) == CompareNat(Value(a), Value(b))
  {
    var x, y := StripZeros(a), StripZeros(b);
    StripZerosKeepsValue(a);
    StripZerosKeepsValue(b);
    StrippedComparesAsValue(x, y);
    SameLengthComparesAsValue("0", "0");
    if x == "" && |y| == 1 {
      SameLengthComparesAsValue("0", y);
      assert Value("0") == 0;
    } else if y == "" && |x| == 1 {
      SameLengthComparesAsValue(x, "0");
      assert Value("0") == 0;
    }
  }

  lemma ZeroToken(parts: seq<string>, k: nat)
    requires Numbers(parts) && k < |parts| && IsNullValue(NumberTokens(parts)[k])
    ensures NumberAt(parts, k) == 0
  {
    assert IsNumber(parts[k]);
    StripZerosKeepsValue(parts[k]);
    assert StripZeros(parts[k]) != "0";
  }

  predicate NoHyphens(t: Version) {
    forall i :: 0 <= i < |t| ==> t[i].prefix != '-'
  }

  /** Without hyphens a doomed token is followed by nulls only. */
  lemma DoomedNext(t: Version, k: nat)
    requires NoHyphens(t) && k < |t| && Doomed(t, k)
    ensures IsNullValue(t[k]) && (k + 1 < |t| ==> Doomed(t, k + 1))
  {
    assert k + 1 < |t| ==> t[k + 1].prefix != '-';
  }

  lemma {:induction false} DoomedTail(t: Version, k: nat)
    requires NoHyphens(t) && 1 <= k <= |t| && (k < |t| ==> Doomed(t, k))
    ensures Kept(t, k) == []
    ensures forall j :: k <= j < |t| ==> IsNullValue(t[j])
    decreases |t| - k
  {
    if k < |t| {
      DoomedNext(t, k);
      DoomedTail(t, k + 1);
      assert Kept(t, k) == [] + Kept(t, k + 1);
    }
  }

  /** Without hyphens trimming drops nulls from the end only. */
  lemma {:induction false} KeptPrefix(t: Version, k: nat) returns (n: nat)
    requires NoHyphens(t) && 1 <= k <= |t|
    ensures k <= n <= |t| && Kept(t, k) == t[k..n]
    ensures forall j :: n <= j < |t| ==> IsNullValue(t[j])
    decreases |t| - k
  {
    n := k;
    if k < |t| {
      if Doomed(t, k) {
        DoomedTail(t, k);
      } else {
        n := KeptPrefix(t, k + 1);
        assert t[k..n] == [t[k]] + t[k + 1..n];
      }
    }
  }

  /** Trimming leaves a non-empty prefix and drops only zeros. */
  lemma TrimmedNumbers(parts: seq<string>) returns (n: nat)
    requires Numbers(parts)
    ensures 1 <= n <= |parts| && Trimmed(NumberTokens(parts)) == NumberTokens(parts[..n])
    ensures Numbers(parts[..n]) && forall j: nat :: NumberAt(parts[..n], j) == NumberAt(parts, j)
  {
    var t := NumberTokens(parts);
    n := KeptPrefix(t, 1);
    assert Trimmed(t) == [t[0]] + t[1..n] == NumberTokens(parts[..n]);
    forall j: nat
      ensures NumberAt(parts[..n], j) == NumberAt(parts, j)
    {
      if n <= j < |parts| {
        ZeroToken(parts, j);
      }
    }
  }

  ghost predicate SameFrom(p: seq<string>, q: seq<string>, i: nat)
    requires Numbers(p) && Numbers(q)
  {
    forall k: nat :: i <= k ==> NumberAt(p, k) == NumberAt(q, k)
  }

  /** The numbers agree before this position, from a start on, and are ordered this way at it. */
  ghost predicate DecidedAt(p: seq<string>, q: seq<string>, i: nat, k: nat, order: Ordering)
    requires Numbers(p) && Numbers(q)
  {
    i <= k && CompareNat(NumberAt(p, k), NumberAt(q, k)) == order && forall j :: i <= j < k ==> NumberAt(p, j) == NumberAt(q, j)
  }

  lemma TokensAreDigits(left: Token, right: Token, x: string, y: string)
    requires AllDigits(x) && AllDigits(y) && left.prefix == right.prefix
    requires left.value == Stripped0(x) && right.value == Stripped0(y)
    ensures CompareTokens(left, right) == CompareDigits(Stripped0(x), Stripped0(y))
  {
  }

  lemma TokensCompareAsNumbers(p: seq<string>, q: seq<string>, i: nat)
    requires Numbers(p) && Numbers(q) && i < Max(|p|, |q|)
    ensures var a, b := NumberTokens(p), NumberTokens(q);
      CompareTokens(At(a, b, i), At(b, a, i)) == CompareNat(NumberAt(p, i), NumberAt(q, i))
  {
    var x := if i < |p| then p[i] else "0";
    var y := if i < |q| then q[i] else "0";
    assert (i < |p| ==> IsNumber(p[i])) && (i < |q| ==> IsNumber(q[i]));
    assert Stripped0("0") == "0" && Value("0") == 0;
    Stripped0ComparesAsValue(x, y);
    TokensAreDigits(At(NumberTokens(p), NumberTokens(q), i), At(NumberTokens(q), NumberTokens(p), i), x, y);
  }

  lemma {:induction false} OrderOfNumbers(p: seq<string>, q: seq<string>, i: nat)
    requires Numbers(p) && Numbers(q) && i <= Max(|p|, |q|)
    ensures OrderFrom(NumberTokens(p), NumberTokens(q), i) == Equal <==> SameFrom(p, q, i)
    ensures forall k: nat, order :: DecidedAt(p, q, i, k, order) && order != Equal ==>
      OrderFrom(NumberTokens(p), NumberTokens(q), i) == order
    decreases Max(|p|, |q|) - i
  {
    if i < Max(|p|, |q|) {
      TokensCompareAsNumbers(p, q, i);
      OrderOfNumbers(p, q, i + 1);
      assert SameFrom(p, q, i) <==> SameFrom(p, q, i + 1) && NumberAt(p, i) == NumberAt(q, i);
      forall k: nat, order | DecidedAt(p, q, i, k, order) && order != Equal
        ensures OrderFrom(NumberTokens(p), NumberTokens(q), i) == order
      {
        if k > i {
          assert DecidedAt(p, q, i + 1, k, order);
        }
      }
    }
  }

  /**
   On dotted numbers comparison is lexicographic order of the zero-padded
   sequences of the numbers written, of any size.
   */
  lemma NumbersCompareAsNumbers(p: seq<string>, q: seq<string>)
    requires Numbers(p) && Numbers(q)
    ensures Parse(Join(p, '.')).Some? && Parse(Join(q, '.')).Some?
    ensures var order := Order(Parse(Join(p, '.')).value, Parse(Join(q, '.')).value);
      && (order == Equal <==> SameFrom(p, q, 0))
      && (forall k: nat, decided :: DecidedAt(p, q, 0, k, decided) && decided != Equal ==> order == decided)
  {
    NumbersParse(p);
    NumbersParse(q);
    var n := TrimmedNumbers(p);
    var m := TrimmedNumbers(q);
    OrderOfNumbers(p[..n], q[..m], 0);
    assert SameFrom(p[..n], q[..m], 0) <==> SameFrom(p, q, 0);
    forall k: nat, decided | DecidedAt(p, q, 0, k, decided)
      ensures DecidedAt(p[..n], q[..m], 0, k, decided)
    {
    }
  }

  // ---- A cycle ----

  lemma TwoPieces(first: string, separator: char, second: string)
    requires IsNumber(first) && IsSeparator(separator) && forall i :: 0 <= i < |second| ==> !IsSeparator(second[i])
    ensures Pieces(first + [separator] + second) == [Piece(FIRST, first), Piece(separator, second)]
  {
    var s := first + [separator] + second;
    WalkAlong(FIRST, s, 0, 0, |first|);
    WalkAlong(separator, s, |first| + 1, |first| + 1, |s|);
    assert s[0..|first|] == first && s[|first| + 1..] == second;
  }

  lemma TwoRuns(first: string, separator: char, second: string)
    requires IsNumber(first) && Uniform(second)
    ensures AllRuns([Piece(FIRST, first), Piece(separator, second)]) ==
      [Run(FIRST, first, false), Run(separator, second, false)]
  {
    var pieces := [Piece(FIRST, first), Piece(separator, second)];
    assert Uniform(first);
    OneRun(FIRST, first);
    OneRun(separator, second);
    assert pieces[..1] == [pieces[0]] && [pieces[0]][..0] == [];
    assert AllRuns([pieces[0]]) == [Run(FIRST, first, false)];
  }

  lemma TwoTokens(x: Run, y: Run)
    requires !IsNullValue(TokenOf(y))
    ensures Trimmed(Tokens([x, y])) == [TokenOf(x), TokenOf(y)]
  {
    var t := [TokenOf(x), TokenOf(y)];
    TokensAt([x, y], 0);
    TokensAt([x, y], 1);
    assert Tokens([x, y]) == t;
    assert Kept(t, 2) == [] && Kept(t, 1) == [t[1]];
  }

  /** Two pieces, each of one run. */
  lemma ParseTwo(first: string, separator: char, second: string)
    requires IsNumber(first) && IsSeparator(separator) && Uniform(second)
    requires (forall i :: 0 <= i < |second| ==> !IsSeparator(second[i])) && !Rejected(first + [separator] + second)
    requires NormalizeToken(second, false) != "0" && NormalizeToken(second, false) != ""
    ensures Parse(first + [separator] + second) ==
      Some([Token(FIRST, Stripped0(first), false), Token(separator, NormalizeToken(second, false), false)])
  {
    TwoPieces(first, separator, second);
    TwoRuns(first, separator, second);
    TwoTokens(Run(FIRST, first, false), Run(separator, second, false));
    NumberIsStripped(first);
  }

  lemma ParseOne()
    ensures Parse("1") == Some([Token(FIRST, "1", false)])
  {
    NumbersParse(["1"]);
    var t := NumberTokens(["1"]);
    assert Stripped0("1") == "1";
    assert t == [Token(FIRST, "1", false)];
    assert Kept(t, 1) == [] && Kept(t, 0) == t;
  }

  lemma ParseDotted()
    ensures Parse("1.a") == Some([Token(FIRST, "1", false), Token('.', "a", false)])
  {
    assert Stripped0("1") == "1";
    assert "a"[0] == 'a' && !AllDigits("a");
    assert Lower("a") == "a" && NormalizeToken("a", false) == "a";
    assert "1" + ['.'] + "a" == "1.a";
    ParseTwo("1", '.', "a");
  }

  lemma ParseHyphen()
    ensures Parse("1-alpha") == Some([Token(FIRST, "1", false), Token('-', "alpha", false)])
  {
    assert Stripped0("1") == "1";
    assert Lower("alpha") == "alpha";
    assert "alpha"[0] == 'a' && !AllDigits("alpha");
    assert "1" + ['-'] + "alpha" == "1-alpha";
    ParseTwo("1", '-', "alpha");
  }

  const ONE: Token := Token(FIRST, "1", false)
  const DOT_A: Token := Token('.', "a", false)
  const HYPHEN_ALPHA: Token := Token('-', "alpha", false)

  lemma TokenCycle()
    ensures CompareTokens(NullToken(DOT_A), DOT_A) == Less
    ensures CompareTokens(DOT_A, HYPHEN_ALPHA) == Less
    ensures CompareTokens(HYPHEN_ALPHA, NullToken(HYPHEN_ALPHA)) == Less
    ensures CompareTokens(ONE, ONE) == Equal
  {
    CompareTokensEqual(ONE, ONE);
    assert "a"[0] == 'a' && "alpha"[0] == 'a';
    assert !AllDigits("a") && !AllDigits("alpha");
    assert CompareText("0", "a") == Less;
  }

  lemma SecondDecides(a: Version, b: Version, order: Ordering)
    requires 1 <= |a| <= 2 && 1 <= |b| <= 2 && |a| + |b| > 2 && a[0] == b[0] == ONE
    requires CompareTokens(At(a, b, 1), At(b, a, 1)) == order != Equal
    ensures Order(a, b) == order
  {
    TokenCycle();
    assert OrderFrom(a, b, 1) == order;
  }

  /** Padding depends on the other side, so `1 < 1.a < 1-alpha < 1`. */
  lemma ComparisonHasACycle()
    ensures Parse("1").Some? && Parse("1.a").Some? && Parse("1-alpha").Some?
    ensures Order(Parse("1").value, Parse("1.a").value) == Less
    ensures Order(Parse("1.a").value, Parse("1-alpha").value) == Less
    ensures Order(Parse("1-alpha").value, Parse("1").value) == Less
  {
    ParseOne();
    ParseDotted();
    ParseHyphen();
    TokenCycle();
    SecondDecides([ONE], [ONE, DOT_A], Less);
    SecondDecides([ONE, DOT_A], [ONE, HYPHEN_ALPHA], Less);
    SecondDecides([ONE, HYPHEN_ALPHA], [ONE], Less);
  }
}
