/**
 The tree that a state root stands for: leaves, 256-way nodes and path-compressing
 extensions, with the shape invariants the trie operations keep, and what such a tree
 means as a key-value map.
 */
module TrieTree {
  import opened Bytes

  type Key = Bytes
  type Value = Bytes

  datatype Tree =
    | Leaf(key: Key, value: Value)
    | Branch(children: map<byte, Tree>)
    | Ext(affix: Bytes, child: Tree)

  /** The shape of a subtree that hangs below the root at `path`. */
  ghost predicate WellFormed(t: Tree, path: Bytes) {
    match t
    case Leaf(k, _) => path <= k
    case Branch(ch) => |ch| >= 2 && forall b | b in ch :: WellFormed(ch[b], path + [b])
    case Ext(a, c) => a != [] && c.Branch? && WellFormed(c, path + a)
  }

  /** The root is always a node, and only the root may have fewer than two children. */
  ghost predicate RootWellFormed(t: Tree) {
    t.Branch? && forall b | b in t.children :: WellFormed(t.children[b], [b])
  }

  /** Every leaf of the tree, wherever it hangs. */
  ghost function Leaves(t: Tree): set<(Key, Value)> {
    match t
    case Leaf(k, v) => {(k, v)}
    case Branch(ch) => set b, e | b in ch && e in Leaves(ch[b]) :: e
    case Ext(_, c) => Leaves(c)
  }

  ghost function Keys(t: Tree): set<Key> {
    set e | e in Leaves(t) :: e.0
  }

  /** Lookup by walking down from a subtree whose path has length `depth`. */
  ghost function Find(t: Tree, key: Key, depth: nat): Option<Value>
    decreases t
  {
    match t
    case Leaf(k, v) => if k == key then Some(v) else None
    case Branch(ch) =>
      if depth < |key| && key[depth] in ch then Find(ch[key[depth]], key, depth + 1) else None
    case Ext(a, c) =>
      if depth + |a| <= |key| && key[depth..depth + |a|] == a then Find(c, key, depth + |a|) else None
  }

  lemma {:induction false} LeavesExtendPath(t: Tree, path: Bytes, e: (Key, Value))
    requires WellFormed(t, path) && e in Leaves(t)
    ensures path <= e.0
  {
    match t
    case Leaf(_, _) =>
    case Branch(ch) =>
      var b :| b in ch && e in Leaves(ch[b]);
      LeavesExtendPath(ch[b], path + [b], e);
    case Ext(a, c) =>
      LeavesExtendPath(c, path + a, e);
  }

  lemma {:induction false} HasLeaf(t: Tree, path: Bytes) returns (e: (Key, Value))
    requires WellFormed(t, path)
    ensures e in Leaves(t) && path <= e.0
  {
    match t
    case Leaf(k, v) => e := (k, v);
    case Branch(ch) =>
      assert ch != map[];
      var b :| b in ch;
      e := HasLeaf(ch[b], path + [b]);
    case Ext(a, c) => e := HasLeaf(c, path + a);
  }

  lemma ChildLeaf(ch: map<byte, Tree>, b: byte, path: Bytes, e: (Key, Value))
    requires b in ch && WellFormed(ch[b], path + [b]) && e in Leaves(ch[b])
    ensures |path| < |e.0| && path <= e.0 && e.0[|path|] == b
  {
    LeavesExtendPath(ch[b], path + [b], e);
    assert e.0[..|path| + 1] == path + [b];
  }

  /** Lookup finds exactly the leaves, so a well-formed tree denotes a partial map. */
  lemma {:induction false} FindIsMembership(t: Tree, path: Bytes, key: Key, v: Value)
    requires WellFormed(t, path) && path <= key
    ensures Find(t, key, |path|) == Some(v) <==> (key, v) in Leaves(t)
  {
    match t
    case Leaf(_, _) =>
    case Branch(ch) =>
      forall b | b in ch && (key, v) in Leaves(ch[b])
        ensures |path| < |key| && key[|path|] == b
      {
        ChildLeaf(ch, b, path, (key, v));
      }
      if |path| < |key| && key[|path|] in ch {
        var b := key[|path|];
        assert path + [b] <= key by { assert key[..|path| + 1] == path + [b]; }
        FindIsMembership(ch[b], path + [b], key, v);
      }
    case Ext(a, c) =>
      var d := |path|;
      if d + |a| <= |key| && key[d..d + |a|] == a {
        assert path + a <= key by { assert key[..d + |a|] == path + a; }
        FindIsMembership(c, path + a, key, v);
      } else if (key, v) in Leaves(t) {
        LeavesExtendPath(c, path + a, (key, v));
        assert false;
      }
  }

  /** The same for a whole tree, whose root need not have two children. */
  lemma RootFindIsMembership(t: Tree, key: Key, v: Value)
    requires RootWellFormed(t)
    ensures Find(t, key, 0) == Some(v) <==> (key, v) in Leaves(t)
  {
    forall b | b in t.children && (key, v) in Leaves(t.children[b])
      ensures 0 < |key| && key[0] == b
    {
      assert [] + [b] == [b];
      ChildLeaf(t.children, b, [], (key, v));
    }
    if 0 < |key| && key[0] in t.children {
      assert [key[0]] <= key;
      FindIsMembership(t.children[key[0]], [key[0]], key, v);
    }
  }

  // ---- one map, one tree ----

  /** The leaves below a child are the leaves whose key continues with the child's index. */
  lemma LeavesOfChild(ch: map<byte, Tree>, path: Bytes, b: byte)
    requires forall c | c in ch :: WellFormed(ch[c], path + [c])
    ensures (if b in ch then Leaves(ch[b]) else {})
         == (set e | e in Leaves(Branch(ch)) && |path| < |e.0| && e.0[|path|] == b)
  {
    forall c, e | c in ch && e in Leaves(ch[c])
      ensures |path| < |e.0| && e.0[|path|] == c
    {
      ChildLeaf(ch, c, path, e);
    }
  }

  lemma {:induction false} BranchesDetermined(ch: map<byte, Tree>, ch': map<byte, Tree>, path: Bytes)
    requires forall c | c in ch :: WellFormed(ch[c], path + [c])
    requires forall c | c in ch' :: WellFormed(ch'[c], path + [c])
    requires Leaves(Branch(ch)) == Leaves(Branch(ch'))
    ensures ch == ch'
    decreases Branch(ch), 0
  {
    forall b: byte
      ensures b in ch <==> b in ch'
      ensures b in ch && b in ch' ==> ch[b] == ch'[b]
    {
      LeavesOfChild(ch, path, b);
      LeavesOfChild(ch', path, b);
      if b in ch {
        var e := HasLeaf(ch[b], path + [b]);
      }
      if b in ch' {
        var e := HasLeaf(ch'[b], path + [b]);
      }
      if b in ch && b in ch' {
        Determined(ch[b], ch'[b], path + [b]);
      }
    }
  }

  /** Two leaves below a node part ways right after the node's path. */
  lemma BranchDiverges(t: Tree, path: Bytes) returns (e: (Key, Value), e': (Key, Value))
    requires t.Branch? && WellFormed(t, path)
    ensures e in Leaves(t) && e' in Leaves(t)
    ensures path <= e.0 && path <= e'.0 && |path| < |e.0| && |path| < |e'.0| && e.0[|path|] != e'.0[|path|]
  {
    var ch := t.children;
    assert |ch| >= 2;
    var b :| b in ch;
    assert |ch.Keys - {b}| >= 1;
    var b' :| b' in ch && b' != b;
    e := HasLeaf(ch[b], path + [b]);
    e' := HasLeaf(ch[b'], path + [b']);
    ChildLeaf(ch, b, path, e);
    ChildLeaf(ch, b', path, e');
  }

  /** A leaf set that splits after `path` cannot live below a longer path. */
  lemma NoDivergenceBelow(t: Tree, path: Bytes, longer: Bytes, u: Tree)
    requires t.Branch? && WellFormed(t, path)
    requires WellFormed(u, longer) && path <= longer && path != longer
    ensures Leaves(t) != Leaves(u)
  {
    var e, e' := BranchDiverges(t, path);
    if Leaves(t) == Leaves(u) {
      LeavesExtendPath(u, longer, e);
      LeavesExtendPath(u, longer, e');
      assert false;
    }
  }

  lemma LeafIsNotNode(t: Tree, u: Tree, path: Bytes)
    requires WellFormed(t, path) && WellFormed(u, path) && t.Leaf? && !u.Leaf?
    ensures Leaves(t) != Leaves(u)
  {
    var node, p := u, path;
    if u.Ext? {
      node, p := u.child, path + u.affix;
    }
    var e, e' := BranchDiverges(node, p);
    assert e in Leaves(u) && e' in Leaves(u);
  }

  /** The shape is canonical: one path and one set of entries leave only one tree. */
  lemma {:induction false} Determined(t: Tree, u: Tree, path: Bytes)
    requires WellFormed(t, path) && WellFormed(u, path)
    requires Leaves(t) == Leaves(u)
    ensures t == u
    decreases t, 1
  {
    if t.Leaf? && !u.Leaf? {
      LeafIsNotNode(t, u, path);
    } else if !t.Leaf? && u.Leaf? {
      LeafIsNotNode(u, t, path);
    } else if t.Leaf? {
      assert (t.key, t.value) in Leaves(u);
    } else if t.Branch? && u.Branch? {
      BranchesDetermined(t.children, u.children, path);
    } else if t.Branch? {
      NoDivergenceBelow(t, path, path + u.affix, u.child);
    } else if u.Branch? {
      NoDivergenceBelow(u, path, path + t.affix, t.child);
    } else {
      ExtensionsDetermined(t, u, path);
    }
  }

  lemma {:induction false} ExtensionsDetermined(t: Tree, u: Tree, path: Bytes)
    requires WellFormed(t, path) && WellFormed(u, path) && t.Ext? && u.Ext?
    requires Leaves(t) == Leaves(u)
    ensures t == u
    decreases t, 0
  {
    var p, q := path + t.affix, path + u.affix;
    var e := HasLeaf(t.child, p);
    LeavesExtendPath(u.child, q, e);
    if |p| < |q| {
      PrefixesComparable(p, q, e.0);
      NoDivergenceBelow(t.child, p, q, u.child);
    } else if |q| < |p| {
      PrefixesComparable(q, p, e.0);
      NoDivergenceBelow(u.child, q, p, t.child);
    } else {
      assert p == e.0[..|p|] && q == e.0[..|q|];
      assert t.affix == p[|path|..] && u.affix == q[|path|..];
      Determined(t.child, u.child, p);
    }
  }

  /** The whole tree, hence its root digest, is a function of the map it denotes. */
  lemma RootDetermined(t: Tree, u: Tree)
    requires RootWellFormed(t) && RootWellFormed(u)
    requires forall k: Key :: Find(t, k, 0) == Find(u, k, 0)
    ensures t == u
  {
    forall e: (Key, Value)
      ensures e in Leaves(t) <==> e in Leaves(u)
    {
      RootFindIsMembership(t, e.0, e.1);
      RootFindIsMembership(u, e.0, e.1);
    }
    assert Leaves(t) == Leaves(u);
    forall b | b in t.children ensures WellFormed(t.children[b], [] + [b]) { assert [] + [b] == [b]; }
    forall b | b in u.children ensures WellFormed(u.children[b], [] + [b]) { assert [] + [b] == [b]; }
    BranchesDetermined(t.children, u.children, []);
  }
}
