// Bytes, byte strings, and the prefix relation on them.
module Bytes {

  newtype byte = x: int | 0 <= x < 256

  type Bytes = seq<byte>

  datatype Option<+T> = None | Some(value: T)

  /** No string of the set is a proper prefix of another one. */
  ghost predicate PrefixFree(keys: set<Bytes>) {
    forall a, b | a in keys && b in keys && a <= b :: a == b
  }

  /** The length of the longest common prefix (`common_prefix` in the trie operations). */
  function CommonLength(a: Bytes, b: Bytes): (n: nat)
    ensures n <= |a| && n <= |b|
    ensures a[..n] == b[..n]
    ensures n < |a| && n < |b| ==> a[n] != b[n]
  {
    if a == [] || b == [] || a[0] != b[0] then 0
    else
      var n := 1 + CommonLength(a[1..], b[1..]);
      assert a[..n] == [a[0]] + a[1..][..n - 1];
      assert b[..n] == [b[0]] + b[1..][..n - 1];
      n
  }

  lemma PrefixOfPrefix(a: Bytes, b: Bytes, c: Bytes)
    requires a <= b && b <= c
    ensures a <= c
  {
  }

  /** Two prefixes of the same string are comparable. */
  lemma PrefixesComparable(a: Bytes, b: Bytes, c: Bytes)
    requires a <= c && b <= c && |a| <= |b|
    ensures a <= b
  {
    assert a == c[..|a|] && b == c[..|b|];
  }

  lemma Assoc<T>(a: seq<T>, b: seq<T>, c: seq<T>)
    ensures a + b + c == a + (b + c)
  {
  }

  lemma PrefixStep(path: Bytes, key: Bytes)
    requires path <= key && |path| < |key|
    ensures path + [key[|path|]] == key[..|path| + 1]
  {
  }

  lemma SliceStep(s: Bytes, d: nat, n: nat)
    requires d <= n < |s|
    ensures s[d..n] + [s[n]] <= s[d..]
  {
    assert s[d..][..n - d + 1] == s[d..n] + [s[n]];
  }

  /** A string does not go on in two ways. */
  lemma OneWayOn(p: Bytes, x: byte, y: byte, z: Bytes)
    requires x != y
    ensures !(p + [x] <= z) || !(p + [y] <= z)
  {
    assert (p + [x])[|p|] == x && (p + [y])[|p|] == y;
  }

  /** Whether `a` lies at `n` can be checked in two parts. */
  lemma InTwoParts(a: Bytes, j: nat, s: Bytes, n: nat)
    requires j < |a| && n + |a| <= |s|
    ensures s[n..n + |a|] == a <==> a[..j] + [a[j]] <= s[n..] && s[n + j + 1..n + |a|] == a[j + 1..]
  {
    var m := n + j + 1;
    assert s[n..n + |a|] == s[n..m] + s[m..n + |a|];
    assert a == a[..j + 1] + a[j + 1..] && a[..j] + [a[j]] == a[..j + 1];
    assert s[n..][..j + 1] == s[n..m];
    assert (s[n..m] + s[m..n + |a|])[..j + 1] == s[n..m] && (s[n..m] + s[m..n + |a|])[j + 1..] == s[m..n + |a|];
  }

  lemma CutAt(path: Bytes, a: Bytes, j: nat)
    requires j < |a|
    ensures path + a[..j] + [a[j]] + a[j + 1..] == path + a
    ensures j + 1 == |a| ==> path + a[..j] + [a[j]] == path + a
  {
    assert a == a[..j] + [a[j]] + a[j + 1..];
  }
}
