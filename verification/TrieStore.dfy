/**
 The content-addressed store of trie elements: which tree a digest stands for, what a
 store keeps as it grows, and how the parents of a scan stand for frames.
 */
module TrieStore {
  import opened Bytes
  import opened TrieTree
  import opened TrieZipper
  import opened TrieEdit

  type Digest = Bytes

  datatype Pointer = LeafPointer(digest: Digest) | NodePointer(digest: Digest) {
    function Update(d: Digest): Pointer {
      if LeafPointer? then LeafPointer(d) else NodePointer(d)
    }
  }

  /** A stored element; a pointer block is a partial map from the 256 indices. */
  datatype Element =
    | ELeaf(key: Key, value: Value)
    | ENode(pointers: map<byte, Pointer>)
    | EExt(affix: Bytes, pointer: Pointer)

  type Store = map<Digest, Element>
  type Parents = seq<(byte, Element)>
  type Hash = Element -> Digest

  datatype ReadResult = Found(value: Value) | NotFound | ReadRootNotFound | ReadPanics
  datatype WriteResult = Written(root: Digest) | AlreadyExists | WriteRootNotFound
  datatype PruneResult = Pruned(root: Digest) | MissingKey | PruneRootNotFound

  // ---- what a digest stands for ----

  /** The element is the top of the tree, and its pointers lead to the subtrees. */
  ghost predicate Shows(s: Store, e: Element, t: Tree)
    decreases t, 0
  {
    match t
    case Leaf(k, v) => e == ELeaf(k, v)
    case Branch(ch) =>
      e.ENode? && e.pointers.Keys == ch.Keys && forall b | b in ch :: Points(s, e.pointers[b], ch[b])
    case Ext(a, c) => e.EExt? && e.affix == a && Points(s, e.pointer, c)
  }

  ghost predicate Points(s: Store, p: Pointer, t: Tree)
    decreases t, 1
  {
    p.digest in s && Shows(s, s[p.digest], t) && (p.LeafPointer? <==> t.Leaf?)
  }

  /** Every element sits under its own hash. */
  ghost predicate Consistent(hash: Hash, s: Store) {
    forall d | d in s :: hash(s[d]) == d
  }

  /** The hash is collision free. */
  ghost predicate Injective(hash: Hash) {
    forall e, f :: hash(e) == hash(f) ==> e == f
  }

  ghost predicate Extends(s: Store, s': Store) {
    forall d | d in s :: d in s' && s'[d] == s[d]
  }

  lemma {:induction false} ShowsMonotone(s: Store, s': Store, e: Element, t: Tree)
    requires Extends(s, s') && Shows(s, e, t)
    ensures Shows(s', e, t)
    decreases t
  {
    match t
    case Leaf(_, _) =>
    case Branch(ch) =>
      forall b | b in ch
        ensures Points(s', e.pointers[b], ch[b])
      {
        ShowsMonotone(s, s', s[e.pointers[b].digest], ch[b]);
      }
    case Ext(_, c) => ShowsMonotone(s, s', s[e.pointer.digest], c);
  }

  lemma {:induction false} ShowsFunctional(s: Store, e: Element, t: Tree, u: Tree)
    requires Shows(s, e, t) && Shows(s, e, u)
    ensures t == u
    decreases t
  {
    match t
    case Leaf(_, _) =>
    case Branch(ch) =>
      forall b | b in ch
        ensures ch[b] == u.children[b]
      {
        ShowsFunctional(s, s[e.pointers[b].digest], ch[b], u.children[b]);
      }
      assert ch == u.children;
    case Ext(_, c) => ShowsFunctional(s, s[e.pointer.digest], c, u.child);
  }

  /** `root` is the root of a well-formed trie whose elements are all present. */
  ghost predicate IsState(s: Store, root: Digest) {
    exists t :: IsStateTree(s, root, t)
  }

  ghost predicate IsStateTree(s: Store, root: Digest, t: Tree) {
    Points(s, NodePointer(root), t) && RootWellFormed(t)
  }

  ghost function StateTree(s: Store, root: Digest): (t: Tree)
    requires IsState(s, root)
    ensures IsStateTree(s, root, t)
  {
    var t :| IsStateTree(s, root, t);
    t
  }

  /** The value of a key in the global state with the given root. */
  ghost function Lookup(s: Store, root: Digest, key: Key): Option<Value>
    requires IsState(s, root)
  {
    Find(StateTree(s, root), key, 0)
  }

  lemma StateTreeIs(s: Store, root: Digest, t: Tree)
    requires IsStateTree(s, root, t)
    ensures IsState(s, root) && StateTree(s, root) == t
  {
    ShowsFunctional(s, s[root], t, StateTree(s, root));
  }

  /** A store only grows, and a state once reached keeps its meaning for good. */
  lemma StatePersists(s: Store, s': Store, root: Digest)
    requires Extends(s, s') && IsState(s, root)
    ensures IsState(s', root) && StateTree(s', root) == StateTree(s, root)
  {
    var t := StateTree(s, root);
    ShowsMonotone(s, s', s[root], t);
    StateTreeIs(s', root, t);
  }

  // ---- frames and parents ----

  ghost predicate ParentMatches(s: Store, p: (byte, Element), f: Frame) {
    match f
    case BranchFrame(i, others) =>
      && p.0 == i && p.1.ENode? && i !in others && p.1.pointers.Keys - {i} == others.Keys
      && forall b | b in others :: Points(s, p.1.pointers[b], others[b])
    case ExtFrame(a) => p.1.EExt? && p.1.affix == a && p.1.pointer.NodePointer?
  }

  ghost predicate ParentsMatch(s: Store, ps: Parents, fs: seq<Frame>) {
    |ps| == |fs| && forall i | 0 <= i < |ps| :: ParentMatches(s, ps[i], fs[i])
  }

  lemma {:induction false} ParentsMonotone(s: Store, s': Store, ps: Parents, fs: seq<Frame>)
    requires Extends(s, s') && ParentsMatch(s, ps, fs)
    ensures ParentsMatch(s', ps, fs)
  {
    forall i | 0 <= i < |ps|
      ensures ParentMatches(s', ps[i], fs[i])
    {
      if fs[i].BranchFrame? {
        forall b | b in fs[i].others
          ensures Points(s', ps[i].1.pointers[b], fs[i].others[b])
        {
          ShowsMonotone(s, s', s[ps[i].1.pointers[b].digest], fs[i].others[b]);
        }
      }
    }
  }

  /** The bytes spelled by the parents (`get_parents_path`). */
  function ParentsPath(ps: Parents): Bytes {
    if ps == [] then []
    else
      var (i, e) := ps[|ps| - 1];
      ParentsPath(ps[..|ps| - 1]) + if e.EExt? then e.affix else [i]
  }

  lemma {:induction false} ParentsPathIsPath(s: Store, ps: Parents, fs: seq<Frame>)
    requires ParentsMatch(s, ps, fs)
    ensures ParentsPath(ps) == Path(fs)
  {
    if ps != [] {
      assert ParentMatches(s, ps[|ps| - 1], fs[|ps| - 1]);
      ParentsPathIsPath(s, ps[..|ps| - 1], fs[..|ps| - 1]);
    }
  }

  // ---- new elements ----

  function PutAll(s: Store, new_: seq<(Digest, Element)>): Store {
    if new_ == [] then s
    else PutAll(s, new_[..|new_| - 1])[new_[|new_| - 1].0 := new_[|new_| - 1].1]
  }

  ghost predicate Hashed(hash: Hash, new_: seq<(Digest, Element)>) {
    forall p | p in new_ :: p.0 == hash(p.1)
  }

  lemma PutExtends(hash: Hash, s: Store, e: Element)
    requires Injective(hash) && Consistent(hash, s)
    ensures Consistent(hash, s[hash(e) := e]) && Extends(s, s[hash(e) := e])
  {
  }

  lemma {:induction false} PutAllExtends(hash: Hash, s: Store, new_: seq<(Digest, Element)>)
    requires Injective(hash) && Consistent(hash, s) && Hashed(hash, new_)
    ensures Consistent(hash, PutAll(s, new_)) && Extends(s, PutAll(s, new_))
  {
    if new_ != [] {
      var front, last := new_[..|new_| - 1], new_[|new_| - 1];
      assert last in new_;
      PutAllExtends(hash, s, front);
      PutExtends(hash, PutAll(s, front), last.1);
    }
  }

  lemma PutAllSnoc(s: Store, new_: seq<(Digest, Element)>, p: (Digest, Element))
    ensures PutAll(s, new_ + [p]) == PutAll(s, new_)[p.0 := p.1]
  {
    assert (new_ + [p])[..|new_|] == new_;
  }

  lemma {:induction false} PutAllCons(s: Store, p: (Digest, Element), new_: seq<(Digest, Element)>)
    ensures PutAll(s, [p] + new_) == PutAll(s[p.0 := p.1], new_)
  {
    var all := [p] + new_;
    if new_ == [] {
      assert all == [] + [p];
      PutAllSnoc(s, [], p);
    } else {
      var front := new_[..|new_| - 1];
      PutAllCons(s, p, front);
      assert all[..|all| - 1] == [p] + front;
    }
  }

  /** The elements end with the root of `t`, and putting them makes all of `t` reachable. */
  ghost predicate Builds(hash: Hash, s: Store, new_: seq<(Digest, Element)>, t: Tree) {
    && new_ != [] && Hashed(hash, new_)
    && Shows(PutAll(s, new_), new_[|new_| - 1].1, t)
  }

  function PointerTo(d: Digest, e: Element): Pointer {
    if e.ELeaf? then LeafPointer(d) else NodePointer(d)
  }

  /** Adding an element above what has been built builds the larger tree. */
  lemma BuildsMore(hash: Hash, s: Store, new_: seq<(Digest, Element)>, t: Tree, e: Element, u: Tree)
    requires Injective(hash) && Consistent(hash, s) && Builds(hash, s, new_, t)
    requires Shows(PutAll(s, new_), e, u)
    ensures Builds(hash, s, new_ + [(hash(e), e)], u)
  {
    var s1 := PutAll(s, new_);
    PutAllExtends(hash, s, new_);
    PutAllSnoc(s, new_, (hash(e), e));
    PutExtends(hash, s1, e);
    ShowsMonotone(s1, s1[hash(e) := e], e, u);
  }

  lemma BuiltPointer(hash: Hash, s: Store, new_: seq<(Digest, Element)>, t: Tree)
    requires Builds(hash, s, new_, t)
    ensures Points(PutAll(s, new_), PointerTo(new_[|new_| - 1].0, new_[|new_| - 1].1), t)
  {
  }
}
