/**
 Batch writes through an in-memory cache of trie nodes
 (storage/src/global_state/trie_store/cache/mod.rs).
 */
module TrieCache {
  import opened Bytes
  import opened TrieTree
  import opened TrieZipper
  import opened TrieEdit
  import opened TrieStore
  import opened TrieOps
  import opened TrieHistory

  datatype CachePointer = InMem(node: CacheNode) | Stored(pointer: Pointer)

  datatype CacheNode =
    | CLeaf(key: Key, value: Value)
    | CBranch(block: map<byte, CachePointer>)
    | CExt(affix: Bytes, next: CachePointer)

  /** The cached node, backed by the store, is the top of the tree. */
  ghost predicate CacheShows(s: Store, n: CacheNode, t: Tree)
    decreases t, 0
  {
    match t
    case Leaf(k, v) => n == CLeaf(k, v)
    case Branch(ch) => n.CBranch? && n.block.Keys == ch.Keys && forall b | b in ch :: CachePoints(s, n.block[b], ch[b])
    case Ext(a, c) => n.CExt? && n.affix == a && CachePoints(s, n.next, c)
  }

  ghost predicate CachePoints(s: Store, p: CachePointer, t: Tree)
    decreases t, 1
  {
    match p
    case InMem(n) => CacheShows(s, n, t)
    case Stored(q) => Points(s, q, t)
  }

  lemma {:induction false} CacheMonotone(s: Store, s': Store, n: CacheNode, t: Tree)
    requires Extends(s, s') && CacheShows(s, n, t)
    ensures CacheShows(s', n, t)
    decreases t, 0
  {
    match t
    case Leaf(_, _) =>
    case Branch(ch) =>
      forall b | b in ch ensures CachePoints(s', n.block[b], ch[b]) { CachePointerMonotone(s, s', n.block[b], ch[b]); }
    case Ext(_, c) => CachePointerMonotone(s, s', n.next, c);
  }

  lemma {:induction false} CachePointerMonotone(s: Store, s': Store, p: CachePointer, t: Tree)
    requires Extends(s, s') && CachePoints(s, p, t)
    ensures CachePoints(s', p, t)
    decreases t, 1
  {
    match p
    case InMem(n) => CacheMonotone(s, s', n, t);
    case Stored(q) => ShowsMonotone(s, s', s[q.digest], t);
  }

  function FromElement(e: Element): CacheNode {
    match e
    case ELeaf(k, v) => CLeaf(k, v)
    case ENode(pointers) => CBranch(map b | b in pointers :: Stored(pointers[b]))
    case EExt(a, p) => CExt(a, Stored(p))
  }

  lemma {:induction false} FromElementShows(s: Store, e: Element, t: Tree)
    requires Shows(s, e, t)
    ensures CacheShows(s, FromElement(e), t)
  {
  }

  /** The cached node behind a pointer, loaded from the store if need be. */
  method LoadFromStore(s: Store, p: CachePointer, ghost t: Tree) returns (n: CacheNode)
    requires CachePoints(s, p, t)
    ensures CacheShows(s, n, t)
  {
    match p {
      case InMem(node) => n := node;
      case Stored(q) =>
        FromElementShows(s, s[q.digest], t);
        n := FromElement(s[q.digest]);
    }
  }

  // ---- insertion ----

  ghost predicate Follows(t: Tree, key: Key, depth: nat) {
    match t
    case Leaf(_, _) => false
    case Branch(ch) => depth < |key| && key[depth] in ch
    case Ext(a, _) => depth + |a| <= |key| && key[depth..depth + |a|] == a
  }

  /** The tree after an insertion: the graft at the place where the key stops following. */
  ghost function InsertTree(t: Tree, key: Key, value: Value, depth: nat): Tree
    decreases t
  {
    if Follows(t, key, depth) then
      match t
      case Branch(ch) => Branch(ch[key[depth] := InsertTree(ch[key[depth]], key, value, depth + 1)])
      case Ext(a, c) => Ext(a, InsertTree(c, key, value, depth + |a|))
    else if CanGraft(t, key, depth) then Grafted(t, key, value, depth)
    else t
  }

  lemma {:induction false} InsertTreeWrites(fs: seq<Frame>, t: Tree, key: Key, value: Value)
    requires FramesWellFormed(fs) && Fits(fs, t) && Path(fs) <= key && Compatible(t, key)
    ensures WritesTo(Plug(fs, t), Plug(fs, InsertTree(t, key, value, |Path(fs)|)), key, value)
    decreases t, 1
  {
    var d := |Path(fs)|;
    if t.Branch? && Follows(t, key, d) {
      InsertBelowBranch(fs, t, key, value);
    } else if t.Ext? && Follows(t, key, d) {
      InsertBelowExt(fs, t, key, value);
    } else {
      if t.Branch? { KeyGoesOn(fs, t, key); }
      assert t.Ext? && d + |t.affix| <= |key| ==> key[d..][..|t.affix|] == key[d..d + |t.affix|];
      var t' := WriteResultTree(fs, t, key, value);
    }
  }

  ghost predicate WritesTo(t: Tree, u: Tree, key: Key, value: Value) {
    RootWellFormed(u) && Updates(t, u, key, Some(value))
  }

  /** Every map over a key space has a tree; by `RootDetermined` it has no other. */
  lemma {:induction false} TreeOfState(m: State) returns (t: Tree)
    requires KeySpace(m.Keys)
    ensures RootWellFormed(t) && TreeDenotes(t, m)
  {
    if m == map[] {
      t := Branch(map[]);
    } else {
      var key :| key in m;
      var below := TreeOfState(m - {key});
      CompatibleInSpace(below, m - {key}, m.Keys, key);
      InsertTreeWrites([], below, key, m[key]);
      t := InsertTree(below, key, m[key], 0);
    }
  }

  lemma ChildCompatible(t: Tree, b: byte, key: Key)
    requires t.Branch? && b in t.children && Compatible(t, key)
    ensures Compatible(t.children[b], key)
  {
    forall e | e in Leaves(t.children[b]) ensures e in Leaves(t) { }
    forall k | k in Keys(t.children[b]) ensures k in Keys(t) {
      var e :| e in Leaves(t.children[b]) && e.0 == k;
      assert e in Leaves(t);
    }
  }

  /** Entering the child the key names keeps every premise of the insertion. */
  lemma {:induction false} EnterBranch(fs: seq<Frame>, t: Tree, key: Key) returns (fs': seq<Frame>)
    requires FramesWellFormed(fs) && Fits(fs, t) && Path(fs) <= key && Compatible(t, key)
    requires t.Branch? && Follows(t, key, |Path(fs)|)
    ensures var b := key[|Path(fs)|]; fs' == fs + [BranchFrame(b, t.children - {b})]
    ensures FramesWellFormed(fs') && Fits(fs', t.children[key[|Path(fs)|]])
    ensures Path(fs') == key[..|Path(fs)| + 1] && Compatible(t.children[key[|Path(fs)|]], key)
  {
    var b := key[|Path(fs)|];
    fs' := fs + [BranchFrame(b, t.children - {b})];
    DescendBranch(fs, t, b);
    ChildCompatible(t, b, key);
    assert Path(fs') == Path(fs) + [b] by { Snoc(fs, BranchFrame(b, t.children - {b})); }
  }

  lemma {:induction false} Replug(fs: seq<Frame>, ch: map<byte, Tree>, b: byte, c: Tree)
    ensures Plug(fs + [BranchFrame(b, ch - {b})], c) == Plug(fs, Branch(ch[b := c]))
  {
    Snoc(fs, BranchFrame(b, ch - {b}));
    assert (ch - {b})[b := c] == ch[b := c];
  }

  lemma {:induction false} InsertBelowBranch(fs: seq<Frame>, t: Tree, key: Key, value: Value)
    requires FramesWellFormed(fs) && Fits(fs, t) && Path(fs) <= key && Compatible(t, key)
    requires t.Branch? && Follows(t, key, |Path(fs)|)
    ensures WritesTo(Plug(fs, t), Plug(fs, InsertTree(t, key, value, |Path(fs)|)), key, value)
    decreases t, 0
  {
    var d, ch := |Path(fs)|, t.children;
    var b := key[d];
    var fs' := EnterBranch(fs, t, key);
    var c := InsertTree(ch[b], key, value, d + 1);
    assert Plug(fs', c) == Plug(fs, InsertTree(t, key, value, d)) by { Replug(fs, ch, b, c); }
    assert Plug(fs', ch[b]) == Plug(fs, t) by {
      Replug(fs, ch, b, ch[b]);
      assert ch[b := ch[b]] == ch;
    }
    InsertTreeWrites(fs', ch[b], key, value);
  }

  lemma {:induction false} EnterExt(fs: seq<Frame>, t: Tree, key: Key) returns (fs': seq<Frame>)
    requires FramesWellFormed(fs) && Fits(fs, t) && Path(fs) <= key && Compatible(t, key)
    requires t.Ext? && Follows(t, key, |Path(fs)|)
    ensures fs' == fs + [ExtFrame(t.affix)] && FramesWellFormed(fs') && Fits(fs', t.child) && t.child.Branch?
    ensures Path(fs') == key[..|Path(fs)| + |t.affix|] && Compatible(t.child, key)
  {
    fs' := fs + [ExtFrame(t.affix)];
    DescendExt(fs, t);
    assert Keys(t.child) == Keys(t);
    Snoc(fs, ExtFrame(t.affix));
    assert Path(fs) + t.affix == key[..|Path(fs)| + |t.affix|];
  }

  lemma {:induction false} InsertBelowExt(fs: seq<Frame>, t: Tree, key: Key, value: Value)
    requires FramesWellFormed(fs) && Fits(fs, t) && Path(fs) <= key && Compatible(t, key)
    requires t.Ext? && Follows(t, key, |Path(fs)|)
    ensures WritesTo(Plug(fs, t), Plug(fs, InsertTree(t, key, value, |Path(fs)|)), key, value)
    decreases t, 0
  {
    hide WritesTo, FramesWellFormed, Fits, Compatible, Path;
    var d, a := |Path(fs)|, t.affix;
    var fs' := EnterExt(fs, t, key);
    var c := InsertTree(t.child, key, value, d + |a|);
    assert Plug(fs', c) == Plug(fs, InsertTree(t, key, value, d)) && Plug(fs', t.child) == Plug(fs, t) by {
      Snoc(fs, ExtFrame(a));
    }
    InsertTreeWrites(fs', t.child, key, value);
  }

  /** Where the key ends, only its own leaf can hang. */
  lemma {:induction false} LastByte(fs: seq<Frame>, t: Tree, key: Key)
    requires fs != [] && Fits(fs, t) && Path(fs) == key && Compatible(t, key)
    ensures t.Leaf? && t.key == key
  {
    if t.Branch? {
      KeyGoesOn(fs, t, key);
    } else {
      var c, path := if t.Ext? then t.child else t, if t.Ext? then key + t.affix else key;
      var e := HasLeaf(c, path);
      assert e in Leaves(t) && e.0 in Keys(t);
      LeavesExtendPath(c, path, e);
      assert key <= e.0;
    }
  }

  /** A node with two children, below an extension when the two share further bytes. */
  function CacheFork(shared: Bytes, b: byte, p: CachePointer, c: byte, q: CachePointer): CacheNode {
    var node := CBranch(map[b := p][c := q]);
    if shared == [] then node else CExt(shared, InMem(node))
  }

  lemma CacheForkShows(s: Store, shared: Bytes, b: byte, p: CachePointer, t: Tree, c: byte, q: CachePointer, u: Tree)
    requires b != c && CachePoints(s, p, t) && CachePoints(s, q, u)
    ensures CacheShows(s, CacheFork(shared, b, p, c, q), Fork(shared, b, t, c, u))
  {
    assert CacheShows(s, CBranch(map[b := p][c := q]), Branch(map[b := t][c := u]));
  }

  /** A key that parts from a cached leaf. */
  method InsertAtLeaf(s: Store, n: CacheNode, key: Key, value: Value, depth: nat, ghost t: Tree) returns (n': CacheNode)
    requires n.CLeaf? && CacheShows(s, n, t) && CanGraft(t, key, depth)
    ensures CacheShows(s, n', Grafted(t, key, value, depth))
  {
    if n.key == key {
      n' := CLeaf(key, value);
    } else {
      var shared := CommonLength(key, n.key);
      SharedAtLeast(key, n.key, depth);
      n' := CacheFork(key[depth..shared], n.key[shared], InMem(n), key[shared], InMem(CLeaf(key, value)));
      CacheForkShows(s, key[depth..shared], n.key[shared], InMem(n), t, key[shared], InMem(CLeaf(key, value)), Leaf(key, value));
    }
  }

  /** A key that parts from a cached extension before its end. */
  method SplitExt(s: Store, n: CacheNode, key: Key, value: Value, depth: nat, ghost t: Tree) returns (n': CacheNode)
    requires n.CExt? && CacheShows(s, n, t) && CanGraft(t, key, depth)
    ensures CacheShows(s, n', Grafted(t, key, value, depth))
  {
    var a, shared := n.affix, CommonLength(key[depth..], n.affix);
    var existing := if shared + 1 < |a| then InMem(CExt(a[shared + 1..], n.next)) else n.next;
    ghost var u := if shared + 1 < |a| then Ext(a[shared + 1..], t.child) else t.child;
    assert CachePoints(s, existing, u) by {
      assert shared + 1 < |a| ==> CacheShows(s, CExt(a[shared + 1..], n.next), u);
    }
    n' := CacheFork(a[..shared], a[shared], existing, key[depth + shared], InMem(CLeaf(key, value)));
    CacheForkShows(s, a[..shared], a[shared], existing, u, key[depth + shared], InMem(CLeaf(key, value)), Leaf(key, value));
  }

  /** One insertion below a cached node, loading stored nodes on the way down. */
  method InsertInto(s: Store, n: CacheNode, key: Key, value: Value, depth: nat, ghost fs: seq<Frame>, ghost t: Tree)
    returns (n': CacheNode)
    requires CacheShows(s, n, t) && FramesWellFormed(fs) && Fits(fs, t) && Compatible(t, key)
    requires Path(fs) <= key && |Path(fs)| == depth < |key|
    ensures CacheShows(s, n', InsertTree(t, key, value, depth))
    decreases |key| - depth, 1
  {
    match n {
      case CLeaf(_, _) =>
        ghost var _ := WriteResultTree(fs, t, key, value);
        n' := InsertAtLeaf(s, n, key, value, depth, t);
      case CBranch(block) =>
        n' := InsertAtBranch(s, n, key, value, depth, fs, t);
      case CExt(a, next) =>
        if |key| < depth + |a| || a != key[depth..depth + |a|] {
          assert depth + |a| <= |key| ==> key[depth..][..|a|] == key[depth..depth + |a|];
          ghost var _ := WriteResultTree(fs, t, key, value);
          n' := SplitExt(s, n, key, value, depth, t);
        } else {
          n' := InsertThroughExt(s, n, key, value, depth, fs, t);
        }
    }
  }

  lemma CacheChildShows(s: Store, n: CacheNode, t: Tree, b: byte, child: CacheNode, u: Tree)
    requires t.Branch? && CacheShows(s, n, t) && CacheShows(s, child, u)
    ensures CacheShows(s, CBranch(n.block[b := InMem(child)]), Branch(t.children[b := u]))
  {
    assert CachePoints(s, InMem(child), u);
  }

  lemma InsertTreeAtBranch(t: Tree, key: Key, value: Value, depth: nat)
    requires t.Branch? && depth < |key|
    ensures InsertTree(t, key, value, depth) ==
            Branch(t.children[key[depth] := if key[depth] in t.children then InsertTree(t.children[key[depth]], key, value, depth + 1)
                                            else Leaf(key, value)])
  {
  }

  method InsertAtBranch(s: Store, n: CacheNode, key: Key, value: Value, depth: nat, ghost fs: seq<Frame>, ghost t: Tree)
    returns (n': CacheNode)
    requires n.CBranch? && CacheShows(s, n, t) && FramesWellFormed(fs) && Fits(fs, t) && Compatible(t, key)
    requires Path(fs) <= key && |Path(fs)| == depth < |key|
    ensures CacheShows(s, n', InsertTree(t, key, value, depth))
    decreases |key| - depth, 0, 1
  {
    var index, child := key[depth], CLeaf(key, value);
    ghost var u := Leaf(key, value);
    InsertTreeAtBranch(t, key, value, depth);
    assert CacheShows(s, child, u);
    if index in n.block {
      child := InsertInChild(s, n.block[index], key, value, depth, fs, t);
      u := InsertTree(t.children[index], key, value, depth + 1);
    }
    n' := CBranch(n.block[index := InMem(child)]);
    CacheChildShows(s, n, t, index, child, u);
  }

  /** At the last byte the child is replaced unseen, else the insertion goes on below it. */
  method InsertInChild(s: Store, p: CachePointer, key: Key, value: Value, depth: nat, ghost fs: seq<Frame>, ghost t: Tree)
    returns (child: CacheNode)
    requires FramesWellFormed(fs) && Fits(fs, t) && Compatible(t, key)
    requires Path(fs) <= key && |Path(fs)| == depth < |key|
    requires t.Branch? && key[depth] in t.children && CachePoints(s, p, t.children[key[depth]])
    ensures CacheShows(s, child, InsertTree(t.children[key[depth]], key, value, depth + 1))
    decreases |key| - depth, 0, 0
  {
    hide Compatible, FramesWellFormed, Fits;
    ghost var c := t.children[key[depth]];
    ghost var fs' := EnterBranch(fs, t, key);
    if depth == |key| - 1 {
      assert Path(fs') == key;
      LastByte(fs', c, key);
      child := CLeaf(key, value);
    } else {
      var next := LoadFromStore(s, p, c);
      child := InsertInto(s, next, key, value, depth + 1, fs', c);
    }
  }

  method InsertThroughExt(s: Store, n: CacheNode, key: Key, value: Value, depth: nat, ghost fs: seq<Frame>, ghost t: Tree)
    returns (n': CacheNode)
    requires n.CExt? && CacheShows(s, n, t) && FramesWellFormed(fs) && Fits(fs, t) && Compatible(t, key)
    requires Path(fs) <= key && |Path(fs)| == depth < |key|
    requires depth + |n.affix| <= |key| && n.affix == key[depth..depth + |n.affix|]
    ensures CacheShows(s, n', InsertTree(t, key, value, depth))
    decreases |key| - depth, 0
  {
    hide Compatible, FramesWellFormed, Fits, Path, Points;
    var next := LoadFromStore(s, n.next, t.child);
    ghost var fs' := EnterExt(fs, t, key);
    KeyGoesOn(fs', t.child, key);
    var child := InsertInto(s, next, key, value, depth + |n.affix|, fs', t.child);
    n' := CExt(n.affix, InMem(child));
  }

  // ---- writing the cache back ----

  lemma {:induction false} PointsMonotone(s: Store, s': Store, p: Pointer, t: Tree)
    requires Extends(s, s') && Points(s, p, t)
    ensures Points(s', p, t)
  {
    ShowsMonotone(s, s', s[p.digest], t);
  }

  /** Half-way through a pointer block: the first `i` children are stored, the rest still cached. */
  ghost predicate Storing(s: Store, n: CacheNode, t: Tree, pointers: map<byte, Pointer>, i: nat)
    requires n.CBranch? && t.Branch?
  {
    && pointers.Keys == (set b | b in t.children && b as nat < i) && n.block.Keys == t.children.Keys
    && (forall b | b in pointers :: Points(s, pointers[b], t.children[b]))
    && (forall b | b in t.children :: CachePoints(s, n.block[b], t.children[b]))
  }

  lemma {:induction false} StoringMonotone(s: Store, s': Store, n: CacheNode, t: Tree, pointers: map<byte, Pointer>, i: nat)
    requires n.CBranch? && t.Branch? && Extends(s, s') && Storing(s, n, t, pointers, i)
    ensures Storing(s', n, t, pointers, i)
  {
    forall b | b in pointers ensures Points(s', pointers[b], t.children[b]) { PointsMonotone(s, s', pointers[b], t.children[b]); }
    forall b | b in t.children ensures CachePoints(s', n.block[b], t.children[b]) {
      CachePointerMonotone(s, s', n.block[b], t.children[b]);
    }
  }

  lemma {:induction false} StoringMore(s: Store, n: CacheNode, t: Tree, pointers: map<byte, Pointer>, i: nat, p: Pointer)
    requires n.CBranch? && t.Branch? && i < 256 && Storing(s, n, t, pointers, i)
    requires i as byte in t.children ==> Points(s, p, t.children[i as byte])
    ensures Storing(s, n, t, if i as byte in t.children then pointers[i as byte := p] else pointers, i + 1)
  {
  }

  method PutOne(trie: Trie, e: Element, ghost t: Tree) returns (d: Digest)
    requires trie.Valid() && Shows(trie.elements, e, t)
    modifies trie`elements
    ensures trie.Valid() && Extends(old(trie.elements), trie.elements)
    ensures Points(trie.elements, PointerTo(d, e), t)
  {
    d := trie.hash(e);
    PutExtends(trie.hash, trie.elements, e);
    ShowsMonotone(trie.elements, trie.elements[d := e], e, t);
    trie.elements := trie.elements[d := e];
  }

  /** Stores a cached node after its children; nothing is overwritten. */
  method TraverseAndStore(trie: Trie, n: CacheNode, ghost t: Tree) returns (p: Pointer)
    requires trie.Valid() && CacheShows(trie.elements, n, t)
    modifies trie`elements
    ensures trie.Valid() && Extends(old(trie.elements), trie.elements)
    ensures Points(trie.elements, p, t)
    decreases n, 0
  {
    match n {
      case CLeaf(key, value) =>
        var d := PutOne(trie, ELeaf(key, value), t);
        p := LeafPointer(d);
      case CBranch(block) =>
        var pointers: map<byte, Pointer> := map[];
        for i := 0 to 256
          invariant trie.Valid() && Extends(old(trie.elements), trie.elements)
          invariant Storing(trie.elements, n, t, pointers, i)
        {
          var b := i as byte;
          if b in block {
            ghost var before := trie.elements;
            var q := StorePointer(trie, block[b], t.children[b]);
            StoringMonotone(before, trie.elements, n, t, pointers, i);
            StoringMore(trie.elements, n, t, pointers, i, q);
            pointers := pointers[b := q];
          }
        }
        assert pointers.Keys == t.children.Keys;
        var d := PutOne(trie, ENode(pointers), t);
        p := NodePointer(d);
      case CExt(affix, next) =>
        var q := StorePointer(trie, next, t.child);
        var d := PutOne(trie, EExt(affix, q), t);
        p := NodePointer(d);
    }
  }

  method StorePointer(trie: Trie, c: CachePointer, ghost t: Tree) returns (p: Pointer)
    requires trie.Valid() && CachePoints(trie.elements, c, t)
    modifies trie`elements
    ensures trie.Valid() && Extends(old(trie.elements), trie.elements)
    ensures Points(trie.elements, p, t)
    decreases c, 1
  {
    match c {
      case InMem(node) => p := TraverseAndStore(trie, node, t);
      case Stored(q) => p := q;
    }
  }

  // ---- the cache and batch writes ----

  /** The cache of one state: its top node, and the tree it stands for. */
  class Cache {
    const trie: Trie
    var root: CacheNode
    ghost var tree: Tree

    ghost predicate Valid()
      reads this, trie
    {
      trie.Valid() && RootWellFormed(tree) && CacheShows(trie.elements, root, tree)
    }

    constructor (trie: Trie, root: Digest)
      requires trie.Valid() && root in trie.elements && IsState(trie.elements, root)
      ensures this.trie == trie && Valid() && tree == StateTree(trie.elements, root)
    {
      FromElementShows(trie.elements, trie.elements[root], StateTree(trie.elements, root));
      this.trie := trie;
      this.root := FromElement(trie.elements[root]);
      this.tree := StateTree(trie.elements, root);
    }

    /** Updates the cached state and leaves the store alone. */
    method Insert(key: Key, value: Value)
      requires Valid() && Compatible(tree, key)
      modifies this
      ensures Valid() && Updates(old(tree), tree, key, Some(value))
    {
      ghost var t := tree;
      root := InsertInto(trie.elements, root, key, value, 0, [], t);
      InsertTreeWrites([], t, key, value);
      tree := InsertTree(t, key, value, 0);
    }

    /** Writes the cache back and returns the root digest of its state. */
    method StoreCache() returns (digest: Digest)
      requires Valid()
      modifies trie`elements
      ensures trie.Valid() && Extends(old(trie.elements), trie.elements)
      ensures IsState(trie.elements, digest) && StateTree(trie.elements, digest) == tree
    {
      var p := TraverseAndStore(trie, root, tree);
      digest := p.digest;
      StateTreeIs(trie.elements, digest, tree);
    }
  }

  datatype BatchResult = BatchWritten(root: Digest) | BatchRootNotFound(missing: Digest)

  function AsOps(values: seq<(Key, Value)>): (ops: seq<Op>)
    ensures |ops| == |values| && forall i | 0 <= i < |values| :: ops[i] == WriteOp(values[i].0, values[i].1)
  {
    seq(|values|, i requires 0 <= i < |values| => WriteOp(values[i].0, values[i].1))
  }

  /**
   A batch ends in the state that writing the values one after the other would reach: the
   last entry for a key decides, and a key without entry keeps its value or its absence.
   */
  method BatchWrite(trie: Trie, root: Digest, values: seq<(Key, Value)>, ghost m: State, ghost keys: set<Key>)
    returns (r: BatchResult)
    requires trie.Valid() && (root in trie.elements ==> Denotes(trie.elements, root, m))
    requires KeySpace(keys) && m.Keys <= keys && forall e | e in values :: e.0 in keys
    modifies trie`elements
    ensures trie.Valid() && Extends(old(trie.elements), trie.elements)
    ensures root !in old(trie.elements) ==> r == BatchRootNotFound(root) && trie.elements == old(trie.elements)
    ensures root in old(trie.elements) ==> r.BatchWritten? && Denotes(trie.elements, r.root, ApplyAll(m, AsOps(values)))
    ensures root in old(trie.elements) ==>
              forall i | 0 <= i < |values| && (forall j | i < j < |values| :: values[j].0 != values[i].0) ::
                Lookup(trie.elements, r.root, values[i].0) == Some(values[i].1)
    ensures root in old(trie.elements) ==>
              forall k: Key | (forall i | 0 <= i < |values| :: values[i].0 != k) ::
                Lookup(trie.elements, r.root, k) == if k in m then Some(m[k]) else None
  {
    if root !in trie.elements {
      return BatchRootNotFound(root);
    }
    var cache := new Cache(trie, root);
    ghost var ops := AsOps(values);
    for i := 0 to |values|
      invariant cache.Valid() && fresh(cache) && cache.trie == trie && trie.elements == old(trie.elements)
      invariant TreeDenotes(cache.tree, ApplyAll(m, ops[..i])) && ApplyAll(m, ops[..i]).Keys <= keys
    {
      var (key, value) := values[i];
      assert values[i] in values;
      ghost var now := ApplyAll(m, ops[..i]);
      CompatibleInSpace(cache.tree, now, keys, key);
      cache.Insert(key, value);
      assert ops[..i + 1][..i] == ops[..i] && ops[i] == WriteOp(key, value);
      assert ApplyAll(m, ops[..i + 1]) == now[key := value];
    }
    assert ops[..|values|] == ops;
    var digest := cache.StoreCache();
    r := BatchWritten(digest);
    BatchLookups(trie.elements, digest, m, values);
  }

  lemma BatchLookups(s: Store, root: Digest, m: State, values: seq<(Key, Value)>)
    requires Denotes(s, root, ApplyAll(m, AsOps(values)))
    ensures forall i | 0 <= i < |values| && (forall j | i < j < |values| :: values[j].0 != values[i].0) ::
              Lookup(s, root, values[i].0) == Some(values[i].1)
    ensures forall k: Key | (forall i | 0 <= i < |values| :: values[i].0 != k) ::
              Lookup(s, root, k) == if k in m then Some(m[k]) else None
  {
    var ops := AsOps(values);
    HistoryLookups(s, root, m, ops);
    forall i | 0 <= i < |values| && (forall j | i < j < |values| :: values[j].0 != values[i].0)
      ensures Lookup(s, root, values[i].0) == Some(values[i].1)
    {
      assert ops[i].WriteOp? && forall j | i < j < |ops| :: ops[j].key != ops[i].key;
    }
    forall k: Key | (forall i | 0 <= i < |values| :: values[i].0 != k)
      ensures Lookup(s, root, k) == if k in m then Some(m[k]) else None
    {
      assert forall i | 0 <= i < |ops| :: ops[i].key != k;
    }
  }

  /** The batch and the sequential writes end in one and the same root digest. */
  method BatchIsSequence(batch: Trie, oneByOne: Trie, root: Digest, values: seq<(Key, Value)>, ghost m: State, ghost keys: set<Key>)
    returns (r: Digest, r': Digest)
    requires batch != oneByOne && batch.hash == oneByOne.hash && batch.Valid() && oneByOne.Valid()
    requires batch.elements == oneByOne.elements && root in batch.elements && Denotes(batch.elements, root, m)
    requires KeySpace(keys) && m.Keys <= keys && forall e | e in values :: e.0 in keys
    modifies batch`elements, oneByOne`elements
    ensures batch.Valid() && Denotes(batch.elements, r, ApplyAll(m, AsOps(values)))
    ensures oneByOne.Valid() && Denotes(oneByOne.elements, r', ApplyAll(m, AsOps(values)))
    ensures r == r'
    ensures forall i | 0 <= i < |values| && (forall j | i < j < |values| :: values[j].0 != values[i].0) ::
              Lookup(batch.elements, r, values[i].0) == Some(values[i].1)
    ensures forall k: Key | (forall i | 0 <= i < |values| :: values[i].0 != k) ::
              Lookup(batch.elements, r, k) == if k in m then Some(m[k]) else None
  {
    var b := BatchWrite(batch, root, values, m, keys);
    r := b.root;
    var ops := AsOps(values);
    forall op | op in ops ensures op.key in keys {
      var i :| 0 <= i < |ops| && ops[i] == op;
      assert values[i] in values;
    }
    var roots;
    r', roots := Replay(oneByOne, root, ops, m, keys);
    RootIsFunctionOfState(batch.hash, batch.elements, r, oneByOne.elements, r', ApplyAll(m, ops));
  }
}
