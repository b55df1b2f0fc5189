/**
 Whole histories of a global state: a root digest is a function of the map it denotes,
 whatever sequence of writes and prunes led to it.
 */
module TrieHistory {
  import opened Bytes
  import opened TrieTree
  import opened TrieZipper
  import opened TrieEdit
  import opened TrieStore
  import opened TrieOps

  type State = map<Key, Value>

  /** The state root stands for exactly this map. */
  ghost predicate Denotes(s: Store, root: Digest, m: State) {
    IsState(s, root) && TreeDenotes(StateTree(s, root), m)
  }

  ghost predicate TreeDenotes(t: Tree, m: State) {
    forall k: Key :: Find(t, k, 0) == if k in m then Some(m[k]) else None
  }

  /** The same tree, in any two stores, has the same top element. */
  lemma {:induction false} ElementDetermined(hash: Hash, s: Store, s': Store, e: Element, e': Element, t: Tree)
    requires Consistent(hash, s) && Consistent(hash, s') && Shows(s, e, t) && Shows(s', e', t)
    ensures e == e'
    decreases t, 0
  {
    match t
    case Leaf(_, _) =>
    case Branch(ch) =>
      forall b | b in ch
        ensures e.pointers[b] == e'.pointers[b]
      {
        PointerDetermined(hash, s, s', e.pointers[b], e'.pointers[b], ch[b]);
      }
      assert e.pointers == e'.pointers;
    case Ext(_, c) => PointerDetermined(hash, s, s', e.pointer, e'.pointer, c);
  }

  lemma {:induction false} PointerDetermined(hash: Hash, s: Store, s': Store, p: Pointer, p': Pointer, t: Tree)
    requires Consistent(hash, s) && Consistent(hash, s') && Points(s, p, t) && Points(s', p', t)
    ensures p == p'
    decreases t, 1
  {
    ElementDetermined(hash, s, s', s[p.digest], s'[p'.digest], t);
    assert hash(s[p.digest]) == p.digest && hash(s'[p'.digest]) == p'.digest;
  }

  /** Equal maps have equal roots, across stores and histories. */
  lemma RootIsFunctionOfState(hash: Hash, s: Store, root: Digest, s': Store, root': Digest, m: State)
    requires Consistent(hash, s) && Consistent(hash, s')
    requires Denotes(s, root, m) && Denotes(s', root', m)
    ensures root == root'
  {
    RootDetermined(StateTree(s, root), StateTree(s', root'));
    PointerDetermined(hash, s, s', NodePointer(root), NodePointer(root'), StateTree(s, root));
  }

  /** And different maps have different roots: a root commits to its state. */
  lemma RootCommitsToState(s: Store, root: Digest, m: State, m': State)
    requires Denotes(s, root, m) && Denotes(s, root, m')
    ensures m == m'
  {
    var t := StateTree(s, root);
    forall k: Key
      ensures k in m <==> k in m'
      ensures k in m && k in m' ==> m[k] == m'[k]
    {
      assert Find(t, k, 0) == if k in m then Some(m[k]) else None;
    }
  }

  datatype Op = WriteOp(key: Key, value: Value) | PruneOp(key: Key)

  function Apply(m: State, op: Op): State {
    match op
    case WriteOp(k, v) => m[k := v]
    case PruneOp(k) => m - {k}
  }

  function ApplyAll(m: State, ops: seq<Op>): State {
    if ops == [] then m else Apply(ApplyAll(m, ops[..|ops| - 1]), ops[|ops| - 1])
  }

  /** The last operation on a key decides. */
  lemma {:induction false} LastOpDecides(m: State, ops: seq<Op>, i: nat)
    requires i < |ops| && forall j | i < j < |ops| :: ops[j].key != ops[i].key
    ensures var m' := ApplyAll(m, ops);
            match ops[i]
            case WriteOp(k, v) => k in m' && m'[k] == v
            case PruneOp(k) => k !in m'
    decreases |ops|
  {
    if i < |ops| - 1 {
      LastOpDecides(m, ops[..|ops| - 1], i);
    }
  }

  lemma {:induction false} UntouchedStays(m: State, ops: seq<Op>, k: Key)
    requires forall i | 0 <= i < |ops| :: ops[i].key != k
    ensures var m' := ApplyAll(m, ops);
            (k in m' <==> k in m) && (k in m ==> m'[k] == m[k])
  {
    if ops != [] {
      UntouchedStays(m, ops[..|ops| - 1], k);
    }
  }

  /** Keys are serialized keys: non-empty, none a prefix of another. */
  ghost predicate KeySpace(keys: set<Key>) {
    PrefixFree(keys) && [] !in keys
  }

  lemma KeysOfDenoted(t: Tree, m: State)
    requires RootWellFormed(t) && TreeDenotes(t, m)
    ensures Keys(t) == m.Keys
  {
    forall k: Key
      ensures k in Keys(t) <==> k in m
    {
      if k in Keys(t) {
        var e :| e in Leaves(t) && e.0 == k;
        RootFindIsMembership(t, k, e.1);
      }
      if k in m {
        RootFindIsMembership(t, k, m[k]);
        assert (k, m[k]).0 in Keys(t);
      }
    }
  }

  lemma CompatibleInSpace(t: Tree, m: State, keys: set<Key>, key: Key)
    requires RootWellFormed(t) && TreeDenotes(t, m) && KeySpace(keys) && m.Keys <= keys && key in keys
    ensures Compatible(t, key)
  {
    KeysOfDenoted(t, m);
  }

  /** Runs a history, tracking the map it denotes and every root on the way. */
  method Replay(trie: Trie, root: Digest, ops: seq<Op>, ghost m: State, ghost keys: set<Key>)
    returns (final: Digest, roots: seq<Digest>)
    requires trie.Valid() && Denotes(trie.elements, root, m)
    requires KeySpace(keys) && m.Keys <= keys && forall op | op in ops :: op.key in keys
    modifies trie`elements
    ensures trie.Valid() && Denotes(trie.elements, final, ApplyAll(m, ops))
    ensures |roots| == |ops| + 1 && roots[0] == root && roots[|ops|] == final
    ensures forall i | 0 <= i <= |ops| :: Denotes(trie.elements, roots[i], ApplyAll(m, ops[..i]))
    ensures forall i | 0 <= i < |ops| && (forall j | i < j < |ops| :: ops[j].key != ops[i].key) ::
              Lookup(trie.elements, final, ops[i].key) == if ops[i].WriteOp? then Some(ops[i].value) else None
    ensures forall k: Key | (forall i | 0 <= i < |ops| :: ops[i].key != k) ::
              Lookup(trie.elements, final, k) == if k in m then Some(m[k]) else None
  {
    final, roots := root, [root];
    for i := 0 to |ops|
      invariant trie.Valid() && |roots| == i + 1 && roots[i] == final && roots[0] == root
      invariant forall j | 0 <= j <= i :: Denotes(trie.elements, roots[j], ApplyAll(m, ops[..j]))
      invariant ApplyAll(m, ops[..i]).Keys <= keys
    {
      ghost var before, now := trie.elements, ApplyAll(m, ops[..i]);
      assert ops[..i + 1][..i] == ops[..i];
      assert Denotes(trie.elements, roots[i], now);
      CompatibleInSpace(StateTree(trie.elements, final), now, keys, ops[i].key);
      final := Step(trie, final, ops[i], now);
      forall j | 0 <= j <= i
        ensures Denotes(trie.elements, roots[j], ApplyAll(m, ops[..j]))
      {
        StatePersists(before, trie.elements, roots[j]);
      }
      roots := roots + [final];
    }
    assert ops[..|ops|] == ops;
    HistoryLookups(trie.elements, final, m, ops);
  }

  lemma HistoryLookups(s: Store, root: Digest, m: State, ops: seq<Op>)
    requires Denotes(s, root, ApplyAll(m, ops))
    ensures forall i | 0 <= i < |ops| && (forall j | i < j < |ops| :: ops[j].key != ops[i].key) ::
              Lookup(s, root, ops[i].key) == if ops[i].WriteOp? then Some(ops[i].value) else None
    ensures forall k: Key | (forall i | 0 <= i < |ops| :: ops[i].key != k) ::
              Lookup(s, root, k) == if k in m then Some(m[k]) else None
  {
    forall i | 0 <= i < |ops| && (forall j | i < j < |ops| :: ops[j].key != ops[i].key)
      ensures Lookup(s, root, ops[i].key) == if ops[i].WriteOp? then Some(ops[i].value) else None
    {
      LastOpDecides(m, ops, i);
    }
    forall k: Key | (forall i | 0 <= i < |ops| :: ops[i].key != k)
      ensures Lookup(s, root, k) == if k in m then Some(m[k]) else None
    {
      UntouchedStays(m, ops, k);
    }
  }

  method Step(trie: Trie, root: Digest, op: Op, ghost m: State) returns (root': Digest)
    requires trie.Valid() && Denotes(trie.elements, root, m)
    requires Compatible(StateTree(trie.elements, root), op.key)
    modifies trie`elements
    ensures trie.Valid() && Extends(old(trie.elements), trie.elements)
    ensures Denotes(trie.elements, root', Apply(m, op))
  {
    root' := root;
    match op {
      case WriteOp(k, v) =>
        var r := trie.Write(root, k, v);
        if r.Written? {
          root' := r.root;
        } else {
          assert m[k := v] == m;
        }
      case PruneOp(k) =>
        var r := trie.Prune(root, k);
        if r.Pruned? {
          root' := r.root;
        } else {
          assert m - {k} == m;
        }
    }
  }

  /** Writing a fresh entry leads to another root, and pruning it brings back the very digest from before. */
  method WriteThenPrune(trie: Trie, root: Digest, key: Key, value: Value, ghost m: State) returns (written: Digest, root': Digest)
    requires trie.Valid() && Denotes(trie.elements, root, m) && key !in m && KeySpace(m.Keys + {key})
    modifies trie`elements
    ensures trie.Valid() && Extends(old(trie.elements), trie.elements)
    ensures Denotes(trie.elements, written, m[key := value]) && written != root
    ensures Denotes(trie.elements, root', m) && root' == root
  {
    hide TreeDenotes, Injective, Consistent, Compatible, IsState;
    ghost var before := trie.elements;
    CompatibleInSpace(StateTree(trie.elements, root), m, m.Keys + {key}, key);
    written := Step(trie, root, WriteOp(key, value), m);
    ghost var between := trie.elements;
    CompatibleInSpace(StateTree(trie.elements, written), m[key := value], m.Keys + {key}, key);
    root' := Step(trie, written, PruneOp(key), m[key := value]);
    assert m[key := value] - {key} == m;
    RootIsFunctionOfState(trie.hash, before, root, trie.elements, root', m);
    StatePersists(between, trie.elements, written);
    if written == root {
      RootCommitsToState(trie.elements, root, m, m[key := value]);
    }
  }
}
