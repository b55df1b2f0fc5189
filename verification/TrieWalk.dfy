/**
 The downward walk of `read` and `read_with_proof`. Unlike the scan of a write, it slices
 the key to the length of each extension before comparing, so it panics when the key is
 too short. This module says exactly when, in terms of the stored keys alone.
 */
module TrieWalk {
  import opened Bytes
  import opened TrieTree

  datatype WalkResult = Hit(value: Value) | Miss | Panic

  ghost function Walk(t: Tree, key: Key, depth: nat): WalkResult
    decreases t
  {
    match t
    case Leaf(k, v) => if k == key then Hit(v) else Miss
    case Branch(ch) =>
      if depth >= |key| then Panic
      else if key[depth] in ch then Walk(ch[key[depth]], key, depth + 1)
      else Miss
    case Ext(a, c) =>
      if depth + |a| > |key| then Panic
      else if key[depth..depth + |a|] == a then Walk(c, key, depth + |a|)
      else Miss
  }

  /** At least two stored keys continue `p`, and they do not part within the length of `key`. */
  ghost predicate OutrunsAt(keys: set<Key>, key: Key, p: Bytes) {
    && p <= key
    && (exists a, b :: a in keys && b in keys && a != b && p <= a && p <= b)
    && (p == key || forall a, b | a in keys && b in keys && p <= a && p <= b :: SameUpTo(a, b, |key| + 1))
  }

  ghost predicate SameUpTo(a: Bytes, b: Bytes, n: nat) {
    n <= |a| && n <= |b| && a[..n] == b[..n]
  }

  /** The stored keys outrun `key`: some non-empty prefix of it leads past its end. */
  ghost predicate Outruns(keys: set<Key>, key: Key) {
    key == [] || exists p :: p != [] && OutrunsAt(keys, key, p)
  }

  ghost predicate OutrunsBelow(keys: set<Key>, key: Key, path: Bytes) {
    exists p :: path <= p && OutrunsAt(keys, key, p)
  }

  lemma DivergingKeys(t: Tree, path: Bytes) returns (a: Key, b: Key)
    requires t.Branch? && WellFormed(t, path)
    ensures a in Keys(t) && b in Keys(t) && a != b && path <= a && path <= b
    ensures |path| < |a| && |path| < |b| && a[|path|] != b[|path|]
  {
    var e, e' := BranchDiverges(t, path);
    a, b := e.0, e'.0;
  }

  lemma KeysExtendPath(t: Tree, path: Bytes)
    requires WellFormed(t, path)
    ensures forall k | k in Keys(t) :: path <= k
  {
    forall e | e in Leaves(t) ensures path <= e.0 { LeavesExtendPath(t, path, e); }
  }

  lemma PartedKeys(a: Bytes, b: Bytes, i: nat, n: nat)
    requires i < |a| && i < |b| && a[i] != b[i] && i < n
    ensures !SameUpTo(a, b, n)
  {
    assert n <= |a| && n <= |b| ==> a[..n][i] == a[i] && b[..n][i] == b[i];
  }

  /** Keys that part at the end of `path` do not outrun a key that is no shorter. */
  lemma PartedKeysDoNotOutrun(t: Tree, path: Bytes, key: Key, p: Bytes)
    requires t.Branch? && WellFormed(t, path) && p <= path && p != key && |path| <= |key|
    ensures !OutrunsAt(Keys(t), key, p)
  {
    var a, b := DivergingKeys(t, path);
    PrefixOfPrefix(p, path, a);
    PrefixOfPrefix(p, path, b);
    PartedKeys(a, b, |path|, |key| + 1);
  }

  lemma NextByte(path: Bytes, p: Bytes, key: Key)
    requires path <= p && p <= key && p != path
    ensures |path| < |key| && path + [key[|path|]] <= p
  {
  }

  lemma {:induction false} ChildOutruns(ch: map<byte, Tree>, path: Bytes, key: Key, p: Bytes)
    requires forall c | c in ch :: WellFormed(ch[c], path + [c])
    requires |path| < |key| && path + [key[|path|]] <= p && p <= key
    ensures OutrunsAt(Keys(Branch(ch)), key, p) <==> key[|path|] in ch && OutrunsAt(Keys(ch[key[|path|]]), key, p)
  {
    var b := key[|path|];
    LeavesOfChild(ch, path, b);
    var sub := if b in ch then Keys(ch[b]) else {};
    assert p[|path|] == b;
    forall k | p <= k
      ensures k in Keys(Branch(ch)) <==> k in sub
    {
      assert k[|path|] == b;
      if k in Keys(Branch(ch)) {
        var e :| e in Leaves(Branch(ch)) && e.0 == k;
        assert e in (if b in ch then Leaves(ch[b]) else {});
      }
      if k in sub {
        var e :| e in Leaves(ch[b]) && e.0 == k;
        assert e in Leaves(Branch(ch));
      }
    }
    assert OutrunsAt(Keys(Branch(ch)), key, p) <==> OutrunsAt(sub, key, p);
    assert b !in ch ==> !OutrunsAt(sub, key, p);
  }

  /** A walk below the root panics exactly when the keys below it outrun the key. */
  lemma {:induction false} WalkPanics(t: Tree, path: Bytes, key: Key)
    requires WellFormed(t, path) && path <= key
    ensures Walk(t, key, |path|) == Panic <==> OutrunsBelow(Keys(t), key, path)
    decreases t
  {
    KeysExtendPath(t, path);
    match t
    case Leaf(k, v) =>
      assert Keys(t) == {k} by { assert Leaves(t) == {(k, v)}; }
    case Branch(ch) =>
      if |path| == |key| {
        assert path == key;
        var a, b := DivergingKeys(t, path);
        assert OutrunsAt(Keys(t), key, path);
      } else {
        WalkPanicsBranch(t, path, key);
      }
    case Ext(a, c) => WalkPanicsExt(t, path, key);
  }

  lemma {:induction false} WalkPanicsBranch(t: Tree, path: Bytes, key: Key)
    requires t.Branch? && WellFormed(t, path) && path <= key && |path| < |key|
    ensures Walk(t, key, |path|) == Panic <==> OutrunsBelow(Keys(t), key, path)
    decreases t, 0
  {
    var b := key[|path|];
    assert path + [b] == key[..|path| + 1];
    PartedKeysDoNotOutrun(t, path, key, path);
    forall p | path + [b] <= p && p <= key
      ensures OutrunsAt(Keys(t), key, p) <==> b in t.children && OutrunsAt(Keys(t.children[b]), key, p)
    {
      ChildOutruns(t.children, path, key, p);
    }
    if b in t.children {
      WalkPanics(t.children[b], path + [b], key);
    }
    if OutrunsBelow(Keys(t), key, path) {
      var p :| path <= p && OutrunsAt(Keys(t), key, p);
      NextByte(path, p, key);
      assert OutrunsBelow(Keys(t.children[b]), key, path + [b]);
    }
    if b in t.children && OutrunsBelow(Keys(t.children[b]), key, path + [b]) {
      var p :| path + [b] <= p && OutrunsAt(Keys(t.children[b]), key, p);
      PrefixOfPrefix(path, path + [b], p);
      assert OutrunsAt(Keys(t), key, p);
    }
  }

  lemma {:induction false} WalkPanicsExt(t: Tree, path: Bytes, key: Key)
    requires t.Ext? && WellFormed(t, path) && path <= key
    ensures Walk(t, key, |path|) == Panic <==> OutrunsBelow(Keys(t), key, path)
    decreases t, 0
  {
    var q, c := path + t.affix, t.child;
    assert Keys(t) == Keys(c);
    KeysExtendPath(c, q);
    if |q| > |key| {
      var a, b := DivergingKeys(c, q);
      PrefixOfPrefix(path, q, a);
      PrefixOfPrefix(path, q, b);
      forall x, y | x in Keys(t) && y in Keys(t)
        ensures SameUpTo(x, y, |key| + 1)
      {
        assert x[..|key| + 1] == q[..|key| + 1] == y[..|key| + 1];
      }
      assert OutrunsAt(Keys(t), key, path);
    } else {
      assert q <= key <==> key[|path|..|q|] == t.affix by { assert key[..|q|] == path + key[|path|..|q|]; }
      forall p | path <= p && OutrunsAt(Keys(t), key, p)
        ensures q <= p
      {
        var a :| a in Keys(t) && p <= a;
        if |p| < |q| {
          PrefixesComparable(p, q, a);
          PartedKeysDoNotOutrun(c, q, key, p);
        } else {
          PrefixesComparable(q, p, a);
        }
      }
      if q <= key {
        WalkPanics(c, q, key);
        if OutrunsBelow(Keys(c), key, q) {
          var p :| q <= p && OutrunsAt(Keys(c), key, p);
          PrefixOfPrefix(path, q, p);
        }
      } else {
        forall p | path <= p && OutrunsAt(Keys(t), key, p) ensures false { PrefixOfPrefix(q, p, key); }
      }
    }
  }

  /** The walk agrees with lookup as long as it does not panic. */
  lemma {:induction false} WalkFinds(t: Tree, key: Key, depth: nat)
    requires Walk(t, key, depth) != Panic
    ensures Walk(t, key, depth) == match Find(t, key, depth) case Some(v) => Hit(v) case None => Miss
    decreases t
  {
    match t
    case Leaf(_, _) =>
    case Branch(ch) => if key[depth] in ch { WalkFinds(ch[key[depth]], key, depth + 1); }
    case Ext(a, c) => if key[depth..depth + |a|] == a { WalkFinds(c, key, depth + |a|); }
  }

  /** A walk to a stored key never runs past its end. */
  lemma {:induction false} WalkHits(t: Tree, key: Key, depth: nat)
    requires Find(t, key, depth).Some?
    ensures Walk(t, key, depth) == Hit(Find(t, key, depth).value)
    decreases t
  {
    match t
    case Leaf(_, _) =>
    case Branch(ch) => WalkHits(ch[key[depth]], key, depth + 1);
    case Ext(a, c) => WalkHits(c, key, depth + |a|);
  }

  lemma StoredKeysAreRead(t: Tree, key: Key, value: Value)
    requires RootWellFormed(t) && (key, value) in Leaves(t)
    ensures Walk(t, key, 0) == Hit(value)
  {
    RootFindIsMembership(t, key, value);
    WalkHits(t, key, 0);
  }

  /** Reading panics if and only if the stored keys outrun the key; otherwise it is lookup. */
  lemma ReadSafety(t: Tree, key: Key)
    requires RootWellFormed(t)
    ensures Walk(t, key, 0) == Panic <==> Outruns(Keys(t), key)
    ensures !Outruns(Keys(t), key) ==>
              Walk(t, key, 0) == match Find(t, key, 0) case Some(v) => Hit(v) case None => Miss
  {
    if key != [] {
      var b := key[0];
      assert [b] <= key;
      forall c | c in t.children ensures WellFormed(t.children[c], [] + [c]) { assert [] + [c] == [c]; }
      forall p | [b] <= p && p <= key
        ensures OutrunsAt(Keys(t), key, p) <==> b in t.children && OutrunsAt(Keys(t.children[b]), key, p)
      {
        ChildOutruns(t.children, [], key, p);
      }
      if b in t.children {
        WalkPanics(t.children[b], [b], key);
      }
      if Outruns(Keys(t), key) {
        var p :| p != [] && OutrunsAt(Keys(t), key, p);
        NextByte([], p, key);
        assert OutrunsBelow(Keys(t.children[b]), key, [b]);
      }
    }
    if Walk(t, key, 0) != Panic {
      WalkFinds(t, key, 0);
    }
  }

  /** What a walk from the root can end in, and when. */
  lemma WalkOutcomes(t: Tree, key: Key)
    requires RootWellFormed(t)
    ensures forall v :: Walk(t, key, 0) == Hit(v) <==> (key, v) in Leaves(t)
    ensures Walk(t, key, 0) == Panic <==> Outruns(Keys(t), key)
    ensures Walk(t, key, 0) == Miss <==> key !in Keys(t) && !Outruns(Keys(t), key)
  {
    hide Outruns;
    ReadSafety(t, key);
    forall v ensures Walk(t, key, 0) == Hit(v) <==> (key, v) in Leaves(t) {
      RootFindIsMembership(t, key, v);
      if (key, v) in Leaves(t) {
        StoredKeysAreRead(t, key, v);
      }
    }
    if key in Keys(t) {
      var e :| e in Leaves(t) && e.0 == key;
      assert (key, e.1) in Leaves(t);
    }
    if Walk(t, key, 0).Hit? {
      assert (key, Walk(t, key, 0).value).0 in Keys(t);
    }
  }

  ghost const TwoLongKeys: Tree :=
    Branch(map[1 := Ext([2, 3], Branch(map[4 := Leaf([1, 2, 3, 4], []), 5 := Leaf([1, 2, 3, 5], [])]))])

  lemma TwoLongKeysShape()
    ensures RootWellFormed(TwoLongKeys)
  {
    var node := TwoLongKeys.children[1].child;
    var path: Bytes := [1, 2, 3];
    assert node.children.Keys == {4, 5};
    assert |node.children.Keys| == 2;
    assert path == [1] + [2, 3];
    assert path + [4] == [1, 2, 3, 4] && path + [5] == [1, 2, 3, 5];
    assert WellFormed(node, path);
  }

  lemma TwoLongKeysKeys(k: Key)
    requires k in Keys(TwoLongKeys)
    ensures k == [1, 2, 3, 4] || k == [1, 2, 3, 5]
  {
    var e :| e in Leaves(TwoLongKeys) && e.0 == k;
    var node := TwoLongKeys.children[1].child;
    assert e in Leaves(node);
    var b :| b in node.children && e in Leaves(node.children[b]);
  }

  /**
   A read has a result of its own for an absent key. With the two keys [1, 2, 3, 4] and
   [1, 2, 3, 5] stored, reading the absent key [1, 9] panics instead of returning it,
   although no key is a prefix of another.
   */
  lemma ReadOfAbsentKeyCanPanic()
    ensures RootWellFormed(TwoLongKeys) && PrefixFree(Keys(TwoLongKeys) + {[1, 9]})
    ensures Find(TwoLongKeys, [1, 9], 0) == None && Walk(TwoLongKeys, [1, 9], 0) == Panic
  {
    TwoLongKeysShape();
    forall a, b | a in Keys(TwoLongKeys) + {[1, 9]} && b in Keys(TwoLongKeys) + {[1, 9]} && a <= b
      ensures a == b
    {
      if a in Keys(TwoLongKeys) { TwoLongKeysKeys(a); }
      if b in Keys(TwoLongKeys) { TwoLongKeysKeys(b); }
      assert a[1] == b[1] && (|a| > 3 ==> a[3] == b[3]);
    }
  }
}
