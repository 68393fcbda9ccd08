/** Decimal text of any length: values, zero stripping, comparison and printing. */
module Digits {
  import opened Prelude
  import opened Text

  predicate IsDigit(c: char) {
    '0' <= c <= '9'
  }

  predicate AllDigits(s: string) {
    forall i :: 0 <= i < |s| ==> IsDigit(s[i])
  }

  /** The number a digit string writes; the empty string writes zero. */
  function Value(s: string): nat
    requires AllDigits(s)
  {
    if s == [] then 0 else 10 * Value(s[..|s| - 1]) + (s[|s| - 1] - '0') as nat
  }

  function StripZeros(s: string): (r: string)
    ensures AllDigits(s) ==> AllDigits(r)
    ensures r == [] || r[0] != '0'
  {
    if s != [] && s[0] == '0' then StripZeros(s[1..]) else s
  }

  predicate Stripped(s: string) {
    AllDigits(s) && (s == [] || s[0] != '0')
  }

  /** Length first, then text. */
  function CompareDigits(a: string, b: string): Ordering {
    CompareNat(|a|, |b|).Then(CompareText(a, b))
  }

  lemma {:induction false} ValueDropsLeadingZero(s: string)
    requires AllDigits(s) && s != [] && s[0] == '0'
    ensures Value(s) == Value(s[1..])
  {
    if |s| > 1 {
      var front := s[..|s| - 1];
      ValueDropsLeadingZero(front);
      assert front[1..] == s[1..][..|s| - 2];
    }
  }

  lemma {:induction false} StripZerosKeepsValue(s: string)
    requires AllDigits(s)
    ensures Value(StripZeros(s)) == Value(s)
  {
    if s != [] && s[0] == '0' {
      ValueDropsLeadingZero(s);
      StripZerosKeepsValue(s[1..]);
    }
  }

  /** On texts of equal length the last character decides only after the rest. */
  lemma {:induction false} CompareTextSnoc(a: string, b: string)
    requires |a| == |b| > 0
    ensures CompareText(a, b) ==
      CompareText(a[..|a| - 1], b[..|b| - 1]).Then(CompareText([a[|a| - 1]], [b[|b| - 1]]))
  {
    if |a| > 1 && a[0] == b[0] {
      CompareTextSnoc(a[1..], b[1..]);
      assert a[1..][..|a| - 2] == a[..|a| - 1][1..] && b[1..][..|b| - 2] == b[..|b| - 1][1..];
    } else if |a| == 1 {
      assert a == [a[0]] && b == [b[0]];
    }
  }

  lemma {:induction false} SameLengthComparesAsValue(a: string, b: string)
    requires AllDigits(a) && AllDigits(b) && |a| == |b|
    ensures CompareText(a, b) == CompareNat(Value(a), Value(b))
  {
    if a != [] {
      CompareTextSnoc(a, b);
      SameLengthComparesAsValue(a[..|a| - 1], b[..|b| - 1]);
    }
  }

  lemma {:induction false} ShorterIsSmaller(a: string, b: string)
    requires Stripped(a) && Stripped(b) && |a| < |b|
    ensures Value(a) < Value(b)
  {
    if a != [] {
      ShorterIsSmaller(a[..|a| - 1], b[..|b| - 1]);
    } else if |b| > 1 {
      ShorterIsSmaller(a, b[..|b| - 1]);
    }
  }

  /** On zero-stripped digits, length then text is the order of the numbers written. */
  lemma StrippedComparesAsValue(a: string, b: string)
    requires Stripped(a) && Stripped(b)
    ensures CompareDigits(a, b) == CompareNat(Value(a), Value(b))
  {
    if |a| < |b| {
      ShorterIsSmaller(a, b);
    } else if |a| > |b| {
      ShorterIsSmaller(b, a);
    } else {
      SameLengthComparesAsValue(a, b);
    }
  }

  lemma CompareDigitsOrders(a: string, b: string, c: string)
    ensures CompareDigits(a, b) == CompareDigits(b, a).Reverse()
    ensures CompareDigits(a, b) == Equal <==> a == b
    ensures CompareDigits(a, b) == Less && CompareDigits(b, c) == Less ==> CompareDigits(a, c) == Less
  {
    CompareTextReverse(a, b);
    CompareTextEqual(a, b);
    if CompareDigits(a, b) == Less && CompareDigits(b, c) == Less && |a| == |b| == |c| {
      CompareTextTransitive(a, b, c);
    }
  }

  // ---- Printing ----

  function DigitChar(d: nat): (c: char)
    requires d < 10
    ensures IsDigit(c) && (c - '0') as nat == d
  {
    '0' + d as char
  }

  /** The usual decimal writing: no leading zero, and zero is one digit. */
  function ToDecimal(n: nat): (s: string)
    ensures s != [] && AllDigits(s) && (|s| > 1 ==> s[0] != '0') && Value(s) == n
  {
    if n < 10 then
      assert [DigitChar(n)][..0] == [];
      [DigitChar(n)]
    else
      var front := ToDecimal(n / 10);
      assert (front + [DigitChar(n % 10)])[..|front|] == front;
      front + [DigitChar(n % 10)]
  }

  /** Printing what was read gives the digits back without leading zeros. */
  lemma PrintRead(s: string)
    requires AllDigits(s) && s != []
    ensures ToDecimal(Value(s)) == if StripZeros(s) == [] then "0" else StripZeros(s)
  {
    var printed := ToDecimal(Value(s));
    StripZerosKeepsValue(s);
    StripZerosKeepsValue(printed);
    StrippedComparesAsValue(StripZeros(s), StripZeros(printed));
    CompareDigitsOrders(StripZeros(s), StripZeros(printed), "");
  }
}
