/** Byte-wise comparison of text: the order of SQL text columns, sorted maps and version identifiers. */
module Text {
  import opened Prelude

  function CompareText(a: string, b: string): Ordering {
    if a == [] then (if b == [] then Equal else Less)
    else if b == [] then Greater
    else if a[0] < b[0] then Less
    else if a[0] > b[0] then Greater
    else CompareText(a[1..], b[1..])
  }

  lemma {:induction false} CompareTextEqual(a: string, b: string)
    ensures CompareText(a, b) == Equal <==> a == b
  {
    if a != [] && b != [] && a[0] == b[0] {
      CompareTextEqual(a[1..], b[1..]);
      assert a == [a[0]] + a[1..] && b == [b[0]] + b[1..];
    }
  }

  lemma {:induction false} CompareTextReverse(a: string, b: string)
    ensures CompareText(a, b) == CompareText(b, a).Reverse()
  {
    if a != [] && b != [] && a[0] == b[0] {
      CompareTextReverse(a[1..], b[1..]);
    }
  }

  lemma {:induction false} CompareTextTransitive(a: string, b: string, c: string)
    requires CompareText(a, b) != Greater && CompareText(b, c) != Greater
    ensures CompareText(a, c) != Greater
    ensures CompareText(a, c) == Equal ==> CompareText(a, b) == Equal && CompareText(b, c) == Equal
  {
    if a != [] && b != [] && c != [] && a[0] == b[0] == c[0] {
      CompareTextTransitive(a[1..], b[1..], c[1..]);
    }
  }

  predicate TextLess(a: string, b: string) {
    CompareText(a, b) == Less
  }

  /** The strict order is total and transitive. */
  lemma TextLessOrders(a: string, b: string, c: string)
    ensures !TextLess(a, a)
    ensures TextLess(a, b) || TextLess(b, a) || a == b
    ensures !(TextLess(a, b) && TextLess(b, a))
    ensures TextLess(a, b) && TextLess(b, c) ==> TextLess(a, c)
  {
    CompareTextEqual(a, a);
    CompareTextEqual(a, b);
    CompareTextReverse(a, b);
    if TextLess(a, b) && TextLess(b, c) {
      CompareTextTransitive(a, b, c);
    }
  }

  /** The first text is lower at this position: they agree before it, and there it ends or has the smaller character. */
  ghost predicate LowerFrom(a: string, b: string, i: nat) {
    i <= |a| && i < |b| && a[..i] == b[..i] && (i < |a| ==> a[i] < b[i])
  }

  /** A text is below another exactly when it is a proper prefix or has the smaller character where they first differ. */
  lemma {:induction false} TextLessExactly(a: string, b: string)
    ensures TextLess(a, b) <==> exists i: nat :: LowerFrom(a, b, i)
  {
    if a != [] && b != [] && a[0] == b[0] {
      TextLessExactly(a[1..], b[1..]);
      if i: nat :| LowerFrom(a[1..], b[1..], i) {
        assert a[..i + 1] == [a[0]] + a[1..][..i] && b[..i + 1] == [b[0]] + b[1..][..i];
        assert LowerFrom(a, b, i + 1);
      }
      if i: nat :| LowerFrom(a, b, i) {
        assert i > 0 && a[1..][..i - 1] == a[..i][1..] && b[1..][..i - 1] == b[..i][1..];
        assert LowerFrom(a[1..], b[1..], i - 1);
      }
    } else if TextLess(a, b) {
      assert LowerFrom(a, b, 0);
    }
  }
}
