/** Cutting text at separators, as the version parsers do. */
module TextParts {
  import opened Prelude

  /** The text before the first separator, or all of it. */
  function Before(s: string, stop: char): (r: string)
    ensures stop !in r && |r| <= |s|
  {
    if s == [] || s[0] == stop then "" else [s[0]] + Before(s[1..], stop)
  }

  /** The text after the first separator, if there is one. */
  function After(s: string, stop: char): (r: Option<string>)
    ensures r.Some? ==> s == Before(s, stop) + [stop] + r.value
    ensures r.None? ==> s == Before(s, stop)
    ensures r.Some? <==> stop in s
  {
    if s == [] then None else if s[0] == stop then Some(s[1..]) else After(s[1..], stop)
  }

  /** The text after the last separator, or all of it. */
  function AfterLast(s: string, stop: char): string {
    if s == [] || s[|s| - 1] == stop then "" else AfterLast(s[..|s| - 1], stop) + [s[|s| - 1]]
  }

  /** The parts between separators; always one at least. */
  function Split(s: string, stop: char): (r: seq<string>)
    ensures r != [] && forall i :: 0 <= i < |r| ==> stop !in r[i]
    decreases |s|
  {
    var rest := After(s, stop);
    if rest.None? then [s] else [Before(s, stop)] + Split(rest.value, stop)
  }

  function Join(parts: seq<string>, stop: char): string
    requires parts != []
  {
    if |parts| == 1 then parts[0] else parts[0] + [stop] + Join(parts[1..], stop)
  }

  lemma {:induction false} CutAt(a: string, b: string, stop: char)
    requires stop !in a
    ensures Before(a + [stop] + b, stop) == a && After(a + [stop] + b, stop) == Some(b)
    ensures Before(a, stop) == a && After(a, stop) == None
  {
    if a != [] {
      assert (a + [stop] + b)[1..] == a[1..] + [stop] + b;
      CutAt(a[1..], b, stop);
    }
  }

  lemma {:induction false} SplitJoin(parts: seq<string>, stop: char)
    requires parts != [] && forall i :: 0 <= i < |parts| ==> stop !in parts[i]
    ensures Split(Join(parts, stop), stop) == parts
  {
    if |parts| == 1 {
      CutAt(parts[0], "", stop);
    } else {
      CutAt(parts[0], Join(parts[1..], stop), stop);
      SplitJoin(parts[1..], stop);
    }
  }

  lemma {:induction false} JoinSplit(s: string, stop: char)
    ensures Join(Split(s, stop), stop) == s
    decreases |s|
  {
    var rest := After(s, stop);
    if rest.Some? {
      JoinSplit(rest.value, stop);
    }
  }

  function TrimEnd(s: string, c: char): string {
    if s != [] && s[|s| - 1] == c then TrimEnd(s[..|s| - 1], c) else s
  }

  function TrimStart(s: string, c: char): string {
    if s != [] && s[0] == c then TrimStart(s[1..], c) else s
  }

  predicate IsAlpha(c: char) {
    'a' <= c <= 'z' || 'A' <= c <= 'Z'
  }

  function LowerChar(c: char): char {
    if 'A' <= c <= 'Z' then 'a' + (c - 'A') else c
  }

  /** ASCII lower case; other characters stay. */
  function Lower(s: string): (r: string)
    ensures |r| == |s| && forall i :: 0 <= i < |s| ==> r[i] == LowerChar(s[i])
  {
    seq(|s|, i requires 0 <= i < |s| => LowerChar(s[i]))
  }
}
