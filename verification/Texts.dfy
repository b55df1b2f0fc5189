/** Cutting strings at separators. */
module Texts {
  import opened Bytes

  predicate Free(s: string, c: char) {
    c !in s
  }

  /** At the first separator, if there is one. */
  function SplitOnce(s: string, c: char): (r: Option<(string, string)>)
    ensures r.None? <==> Free(s, c)
    ensures r.Some? ==> s == r.value.0 + [c] + r.value.1 && Free(r.value.0, c)
  {
    if s == "" then None
    else if s[0] == c then Some(("", s[1..]))
    else
      var r := SplitOnce(s[1..], c);
      if r.None? then None
      else
        assert s == [s[0]] + (r.value.0 + [c] + r.value.1);
        Some(([s[0]] + r.value.0, r.value.1))
  }

  /** At the last separator, if there is one. */
  function RSplitOnce(s: string, c: char): (r: Option<(string, string)>)
    ensures r.None? <==> Free(s, c)
    ensures r.Some? ==> s == r.value.0 + [c] + r.value.1 && Free(r.value.1, c)
  {
    if s == "" then None
    else if s[|s| - 1] == c then Some((s[..|s| - 1], ""))
    else
      var r := RSplitOnce(s[..|s| - 1], c);
      if r.None? then None
      else
        assert s == r.value.0 + [c] + (r.value.1 + [s[|s| - 1]]);
        Some((r.value.0, r.value.1 + [s[|s| - 1]]))
  }

  lemma FirstCutIsUnique(x: string, y: string, a: string, b: string, c: char)
    requires x + [c] + y == a + [c] + b && Free(x, c) && Free(a, c)
    ensures x == a && y == b
  {
    var s := x + [c] + y;
    forall i | 0 <= i < |x| ensures s[i] != c { assert s[i] == x[i]; }
    forall i | 0 <= i < |a| ensures s[i] != c { assert s[i] == a[i]; }
    assert s[|x|] == c && s[|a|] == c;
    assert x == s[..|x|] && a == s[..|a|] && y == s[|x| + 1..] && b == s[|a| + 1..];
  }

  lemma LastCutIsUnique(x: string, y: string, a: string, b: string, c: char)
    requires x + [c] + y == a + [c] + b && Free(y, c) && Free(b, c)
    ensures x == a && y == b
  {
    var s := x + [c] + y;
    forall i | |x| < i < |s| ensures s[i] != c { assert s[i] == y[i - |x| - 1]; }
    forall i | |a| < i < |s| ensures s[i] != c { assert s[i] == b[i - |a| - 1]; }
    assert s[|x|] == c && s[|a|] == c;
    assert x == s[..|x|] && a == s[..|a|] && y == s[|x| + 1..] && b == s[|a| + 1..];
  }

  /** Where the first part has no separator, it is the first part. */
  lemma SplitOnceAt(a: string, c: char, b: string)
    requires Free(a, c)
    ensures SplitOnce(a + [c] + b, c) == Some((a, b))
  {
    var s := a + [c] + b;
    assert s[|a|] == c;
    var (x, y) := SplitOnce(s, c).value;
    FirstCutIsUnique(x, y, a, b, c);
  }

  lemma RSplitOnceAt(a: string, c: char, b: string)
    requires Free(b, c)
    ensures RSplitOnce(a + [c] + b, c) == Some((a, b))
  {
    var s := a + [c] + b;
    assert s[|a|] == c;
    var (x, y) := RSplitOnce(s, c).value;
    LastCutIsUnique(x, y, a, b, c);
  }

  /** All the parts between separators; at least one, however empty. */
  function Split(s: string, c: char): (parts: seq<string>)
    ensures |parts| >= 1
    ensures forall p | p in parts :: Free(p, c) && forall d | Free(s, d) :: Free(p, d)
    decreases |s|
  {
    var r := SplitOnce(s, c);
    if r.None? then [s]
    else
      assert forall d | Free(s, d) :: Free(r.value.0, d) && Free(r.value.1, d) by {
        forall d | Free(s, d) ensures Free(r.value.0, d) && Free(r.value.1, d) {
          assert forall x :: x in r.value.0 || x in r.value.1 ==> x in s;
        }
      }
      [r.value.0] + Split(r.value.1, c)
  }

  function Join(first: string, rest: seq<string>, c: char): string
    decreases |rest|
  {
    if rest == [] then first else first + [c] + Join(rest[0], rest[1..], c)
  }

  lemma {:induction false} SplitJoin(first: string, rest: seq<string>, c: char)
    requires Free(first, c) && forall p | p in rest :: Free(p, c)
    ensures Split(Join(first, rest, c), c) == [first] + rest
    decreases |rest|
  {
    if rest != [] {
      SplitOnceAt(first, c, Join(rest[0], rest[1..], c));
      SplitJoin(rest[0], rest[1..], c);
    }
  }

  lemma {:induction false} JoinFree(first: string, rest: seq<string>, c: char, d: char)
    requires c != d && Free(first, d) && forall p | p in rest :: Free(p, d)
    ensures Free(Join(first, rest, c), d)
    decreases |rest|
  {
    if rest != [] {
      JoinFree(rest[0], rest[1..], c, d);
    }
  }
}
