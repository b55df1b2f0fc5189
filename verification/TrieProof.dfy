/**
 Merkle proofs: the steps collected by `read_with_proof` and the digest that
 `compute_state_hash` recomputes from them.
 */
module TrieProof {
  import opened Bytes
  import opened TrieTree
  import opened TrieWalk
  import opened TrieStore

  datatype Step =
    | NodeStep(hole: byte, pointers: seq<(byte, Pointer)>)
    | ExtStep(affix: Bytes)

  datatype Proof = Proof(key: Key, value: Value, steps: seq<Step>)

  datatype ProofResult = ProofFound(proof: Proof) | ProofNotFound | ProofRootNotFound | ProofPanics

  /** A pointer block from indexed pointers; a later entry replaces an earlier one. */
  function FromIndexed(ps: seq<(byte, Pointer)>): map<byte, Pointer> {
    if ps == [] then map[]
    else FromIndexed(ps[..|ps| - 1])[ps[|ps| - 1].0 := ps[|ps| - 1].1]
  }

  /** The entries of a pointer block below index `n`, in index order, without the hole. */
  function Indexed(pointers: map<byte, Pointer>, hole: byte, n: nat): seq<(byte, Pointer)>
    requires n <= 256
  {
    if n == 0 then []
    else
      var i := (n - 1) as byte;
      Indexed(pointers, hole, n - 1) + if i != hole && i in pointers then [(i, pointers[i])] else []
  }

  ghost function Below(pointers: map<byte, Pointer>, hole: byte, n: nat): map<byte, Pointer> {
    map i: byte | i in pointers && i != hole && i as int < n :: pointers[i]
  }

  lemma BelowStep(pointers: map<byte, Pointer>, hole: byte, n: nat)
    requires 0 < n <= 256
    ensures var i := (n - 1) as byte;
            Below(pointers, hole, n) ==
            if i in pointers && i != hole then Below(pointers, hole, n - 1)[i := pointers[i]] else Below(pointers, hole, n - 1)
  {
  }

  lemma FromIndexedSnoc(front: seq<(byte, Pointer)>, i: byte, p: Pointer)
    ensures FromIndexed(front + [(i, p)]) == FromIndexed(front)[i := p]
  {
    assert (front + [(i, p)])[..|front|] == front;
  }

  lemma {:induction false} IndexedRestores(pointers: map<byte, Pointer>, hole: byte, n: nat)
    requires n <= 256
    ensures FromIndexed(Indexed(pointers, hole, n)) == Below(pointers, hole, n)
  {
    if n > 0 {
      IndexedRestores(pointers, hole, n - 1);
      BelowStep(pointers, hole, n);
      var i := (n - 1) as byte;
      var front := Indexed(pointers, hole, n - 1);
      if i != hole && i in pointers {
        FromIndexedSnoc(front, i, pointers[i]);
      } else {
        assert front + [] == front;
      }
    }
  }

  /** The element a step stands for once its hole holds `p`. */
  function StepElement(step: Step, p: Pointer): Element {
    match step
    case NodeStep(hole, pointers) => ENode(FromIndexed(pointers + [(hole, p)]))
    case ExtStep(affix) => EExt(affix, p)
  }

  /** The digest recomputed from a pointer and the steps above it, deepest first. */
  function HashUp(hash: Hash, p: Pointer, steps: seq<Step>): Digest
    decreases |steps|
  {
    if steps == [] then p.digest
    else HashUp(hash, NodePointer(hash(StepElement(steps[0], p))), steps[1..])
  }

  function StateHash(hash: Hash, proof: Proof): Digest {
    HashUp(hash, LeafPointer(hash(ELeaf(proof.key, proof.value))), proof.steps)
  }

  method ComputeStateHash(hash: Hash, proof: Proof) returns (d: Digest)
    ensures d == StateHash(hash, proof)
  {
    d := hash(ELeaf(proof.key, proof.value));
    ghost var p := LeafPointer(d);
    for i := 0 to |proof.steps|
      invariant p == (if i == 0 then LeafPointer(d) else NodePointer(d))
      invariant HashUp(hash, p, proof.steps[i..]) == StateHash(hash, proof)
    {
      var pointer := if i == 0 then LeafPointer(d) else NodePointer(d);
      d := hash(StepElement(proof.steps[i], pointer));
      assert proof.steps[i..][0] == proof.steps[i] && proof.steps[i..][1..] == proof.steps[i + 1..];
      p := NodePointer(d);
    }
  }

  lemma StepOfNode(pointers: map<byte, Pointer>, hole: byte)
    requires hole in pointers
    ensures StepElement(NodeStep(hole, Indexed(pointers, hole, 256)), pointers[hole]) == ENode(pointers)
  {
    var ps := Indexed(pointers, hole, 256);
    IndexedRestores(pointers, hole, 256);
    assert (ps + [(hole, pointers[hole])])[..|ps|] == ps;
    assert FromIndexed(ps)[hole := pointers[hole]] == pointers;
  }

  /** Every proof handed out for a root recomputes that root. */
  method ReadWithProof(hash: Hash, elements: Store, root: Digest, key: Key) returns (r: ProofResult)
    requires Consistent(hash, elements)
    requires root in elements ==> IsState(elements, root)
    ensures r == ProofRootNotFound <==> root !in elements
    ensures root in elements ==>
              match Walk(StateTree(elements, root), key, 0)
              case Hit(v) => r.ProofFound? && r.proof.key == key && r.proof.value == v
              case Miss => r == ProofNotFound
              case Panic => r == ProofPanics
    ensures root in elements ==>
              var t := StateTree(elements, root);
              && (forall v :: r.ProofFound? && r.proof.value == v <==> (key, v) in Leaves(t))
              && (r == ProofPanics <==> Outruns(Keys(t), key))
              && (r == ProofNotFound <==> key !in Keys(t) && !Outruns(Keys(t), key))
    ensures r.ProofFound? ==> StateHash(hash, r.proof) == root
  {
    if root !in elements {
      return ProofRootNotFound;
    }
    hide Outruns;
    var current, steps: seq<Step>, depth: nat := elements[root], [], 0;
    ghost var t := StateTree(elements, root);
    WalkOutcomes(t, key);
    ghost var u, p := t, NodePointer(root);
    while true
      invariant Walk(u, key, depth) == Walk(t, key, 0)
      invariant Points(elements, p, u) && current == elements[p.digest]
      invariant HashUp(hash, p, steps) == root
      decreases u
    {
      assert Shows(elements, current, u);
      match current {
        case ELeaf(k, v) =>
          if k != key {
            return ProofNotFound;
          }
          return ProofFound(Proof(k, v, steps));
        case ENode(pointers) =>
          if depth >= |key| {
            return ProofPanics;
          }
          var hole := key[depth];
          if hole !in pointers {
            return ProofNotFound;
          }
          StepOfNode(pointers, hole);
          var step := NodeStep(hole, Indexed(pointers, hole, 256));
          assert ([step] + steps)[1..] == steps;
          steps := [step] + steps;
          assert Points(elements, pointers[hole], u.children[hole]);
          u, p := u.children[hole], pointers[hole];
          current := elements[pointers[hole].digest];
          depth := depth + 1;
        case EExt(affix, pointer) =>
          if depth + |affix| > |key| {
            return ProofPanics;
          }
          if key[depth..depth + |affix|] != affix {
            return ProofNotFound;
          }
          assert ([ExtStep(affix)] + steps)[1..] == steps;
          steps := [ExtStep(affix)] + steps;
          assert Points(elements, pointer, u.child);
          u, p := u.child, pointer;
          current := elements[pointer.digest];
          depth := depth + |affix|;
      }
    }
  }

  /** Whatever hashes up to a state root is a pointer of that state. */
  lemma {:induction false} HashesUpFromInside(hash: Hash, s: Store, root: Digest, t: Tree, p: Pointer, steps: seq<Step>) returns (u: Tree)
    requires Injective(hash) && Consistent(hash, s) && IsStateTree(s, root, t)
    requires HashUp(hash, p, steps) == root && (steps == [] ==> p.NodePointer?)
    ensures Points(s, p, u) && Leaves(u) <= Leaves(t)
    decreases |steps|
  {
    if steps == [] {
      u := t;
    } else {
      var e := StepElement(steps[0], p);
      var v := HashesUpFromInside(hash, s, root, t, NodePointer(hash(e)), steps[1..]);
      assert s[hash(e)] == e;
      match steps[0]
      case NodeStep(hole, pointers) =>
        assert (pointers + [(hole, p)])[..|pointers|] == pointers;
        assert e.pointers[hole] == p;
        u := v.children[hole];
        assert Leaves(u) <= Leaves(v);
      case ExtStep(_) =>
        u := v.child;
    }
  }

  /** No proof of anything but a real entry recomputes the root of a state. */
  lemma ProofsAreSound(hash: Hash, s: Store, root: Digest, proof: Proof)
    requires Injective(hash) && Consistent(hash, s) && IsState(s, root)
    requires StateHash(hash, proof) == root
    ensures Lookup(s, root, proof.key) == Some(proof.value)
  {
    var t, leaf := StateTree(s, root), ELeaf(proof.key, proof.value);
    var p := LeafPointer(hash(leaf));
    assert Shows(s, s[root], t);
    assert hash(s[root]) == root && s[root].ENode?;
    if proof.steps != [] {
      var u := HashesUpFromInside(hash, s, root, t, p, proof.steps);
      assert s[hash(leaf)] == leaf;
      assert u == Leaf(proof.key, proof.value);
      assert (proof.key, proof.value) in Leaves(u);
      RootFindIsMembership(t, proof.key, proof.value);
    }
  }
}
