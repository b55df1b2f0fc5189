/**
 The operations of the trie store, in the form of
 storage/src/global_state/trie_store/operations/mod.rs.
 */
module TrieOps {
  import opened Bytes
  import opened TrieTree
  import opened TrieWalk
  import opened TrieZipper
  import opened TrieEdit
  import opened TrieStore

  /** A scan for `key` in the tree `t` that has come down to the element `tip`. */
  ghost predicate Scanning(s: Store, key: Key, t: Tree, tip: Element, ps: Parents, fs: seq<Frame>, u: Tree) {
    && t == Plug(fs, u) && FramesWellFormed(fs) && Fits(fs, u)
    && Path(fs) <= key && Shows(s, tip, u) && ParentsMatch(s, ps, fs)
    && (fs != [] ==> HolePoints(s, ps[|ps| - 1], fs[|fs| - 1], u))
  }

  /** A node among the parents still points to the subtree taken out of it. */
  ghost predicate HolePoints(s: Store, p: (byte, Element), f: Frame, u: Tree) {
    f.BranchFrame? && p.1.ENode? ==> p.0 in p.1.pointers && Points(s, p.1.pointers[p.0], u)
  }

  lemma {:induction false} ScanDown(s: Store, key: Key, t: Tree, tip: Element, ps: Parents, fs: seq<Frame>, u: Tree)
    requires Scanning(s, key, t, tip, ps, fs, u) && u.Branch?
    requires |Path(fs)| < |key| && key[|Path(fs)|] in u.children
    ensures var i := key[|Path(fs)|];
            var fs' := fs + [BranchFrame(i, u.children - {i})];
            && Path(fs') == Path(fs) + [i]
            && tip.ENode? && i in tip.pointers && Points(s, tip.pointers[i], u.children[i])
            && Scanning(s, key, t, s[tip.pointers[i].digest], ps + [(i, tip)], fs', u.children[i])
  {
    hide FramesWellFormed, Fits, ParentsMatch, ParentMatches, Path, Plug, Shows;
    var i := key[|Path(fs)|];
    var f := BranchFrame(i, u.children - {i});
    NodeMatches(s, tip, u, i);
    DescendBranch(fs, u, i);
    assert Path(fs + [f]) == Path(fs) + [i] by { Snoc(fs, f); }
    ParentsPush(s, ps, fs, (i, tip), f);
    PrefixStep(Path(fs), key);
  }

  /** A node with one child taken out is a parent frame with a hole. */
  lemma NodeMatches(s: Store, tip: Element, u: Tree, i: byte)
    requires Shows(s, tip, u) && u.Branch? && i in u.children
    ensures tip.ENode? && i in tip.pointers && Points(s, tip.pointers[i], u.children[i])
    ensures ParentMatches(s, (i, tip), BranchFrame(i, u.children - {i}))
  {
    assert tip.pointers.Keys - {i} == (u.children - {i}).Keys;
  }

  lemma ParentsPush(s: Store, ps: Parents, fs: seq<Frame>, p: (byte, Element), f: Frame)
    requires ParentsMatch(s, ps, fs) && ParentMatches(s, p, f)
    ensures ParentsMatch(s, ps + [p], fs + [f])
  {
  }

  lemma {:induction false} ScanDownExt(s: Store, key: Key, t: Tree, tip: Element, ps: Parents, fs: seq<Frame>, u: Tree)
    requires Scanning(s, key, t, tip, ps, fs, u) && u.Ext?
    requires |Path(fs)| + |u.affix| <= |key| && key[|Path(fs)|..|Path(fs)| + |u.affix|] == u.affix
    ensures var fs' := fs + [ExtFrame(u.affix)];
            && Path(fs) + u.affix == Path(fs') && |Path(fs)| < |key|
            && tip.EExt? && Points(s, tip.pointer, u.child)
            && Scanning(s, key, t, s[tip.pointer.digest], ps + [(key[|Path(fs)|], tip)], fs', u.child)
  {
    assert Shows(s, tip, u);
    DescendExt(fs, u);
    Snoc(fs, ExtFrame(u.affix));
    assert Path(fs) + u.affix == key[..|Path(fs)| + |u.affix|];
    assert ParentMatches(s, (key[|Path(fs)|], tip), ExtFrame(u.affix));
  }

  ghost function ResultOf(w: WalkResult): ReadResult {
    match w
    case Hit(v) => Found(v)
    case Miss => NotFound
    case Panic => ReadPanics
  }

  // ---- reads of any store, whatever is missing from it ----

  /** The outcome of at most `n` steps down the store; a child that is not there ends the walk. */
  ghost function WalkIn(s: Store, e: Element, key: Key, depth: nat, n: nat): Option<ReadResult>
    decreases n, 1
  {
    match e
    case ELeaf(k, v) => Some(if k == key then Found(v) else NotFound)
    case ENode(pointers) =>
      if depth >= |key| then Some(ReadPanics)
      else if key[depth] !in pointers then Some(NotFound)
      else WalkOn(s, pointers[key[depth]], key, depth + 1, n)
    case EExt(affix, pointer) =>
      if depth + |affix| > |key| then Some(ReadPanics)
      else if key[depth..depth + |affix|] != affix then Some(NotFound)
      else WalkOn(s, pointer, key, depth + |affix|, n)
  }

  ghost function WalkOn(s: Store, p: Pointer, key: Key, depth: nat, n: nat): Option<ReadResult>
    decreases n, 0
  {
    if p.digest !in s then Some(NotFound)
    else if n == 0 then None
    else WalkIn(s, s[p.digest], key, depth, n - 1)
  }

  /** The walk from the root does not go round in circles. */
  ghost predicate Ends(s: Store, root: Digest, key: Key) {
    root in s ==> exists n :: WalkIn(s, s[root], key, 0, n).Some?
  }

  ghost function StoreRead(s: Store, root: Digest, key: Key): ReadResult
    requires Ends(s, root, key)
  {
    if root !in s then ReadRootNotFound
    else
      var n :| WalkIn(s, s[root], key, 0, n).Some?;
      WalkIn(s, s[root], key, 0, n).value
  }

  lemma {:induction false} MoreSteps(s: Store, e: Element, key: Key, depth: nat, n: nat, m: nat)
    requires n <= m && WalkIn(s, e, key, depth, n).Some?
    ensures WalkIn(s, e, key, depth, m) == WalkIn(s, e, key, depth, n)
    decreases n
  {
    match e
    case ELeaf(_, _) =>
    case ENode(pointers) =>
      if depth < |key| && key[depth] in pointers && pointers[key[depth]].digest in s {
        MoreSteps(s, s[pointers[key[depth]].digest], key, depth + 1, n - 1, m - 1);
      }
    case EExt(affix, pointer) =>
      if depth + |affix| <= |key| && key[depth..depth + |affix|] == affix && pointer.digest in s {
        MoreSteps(s, s[pointer.digest], key, depth + |affix|, n - 1, m - 1);
      }
  }

  lemma StoreReadIs(s: Store, root: Digest, key: Key, n: nat)
    requires root in s && WalkIn(s, s[root], key, 0, n).Some?
    ensures Ends(s, root, key) && StoreRead(s, root, key) == WalkIn(s, s[root], key, 0, n).value
  {
    var m :| WalkIn(s, s[root], key, 0, m).Some? && StoreRead(s, root, key) == WalkIn(s, s[root], key, 0, m).value;
    if n <= m {
      MoreSteps(s, s[root], key, 0, n, m);
    } else {
      MoreSteps(s, s[root], key, 0, m, n);
    }
  }

  lemma {:induction false} TreeWalkEnds(s: Store, e: Element, t: Tree, key: Key, depth: nat) returns (n: nat)
    requires Shows(s, e, t)
    ensures WalkIn(s, e, key, depth, n) == Some(ResultOf(Walk(t, key, depth)))
    decreases t
  {
    n := 0;
    match t
    case Leaf(_, _) =>
    case Branch(ch) =>
      if depth < |key| && key[depth] in ch {
        var m := TreeWalkEnds(s, s[e.pointers[key[depth]].digest], ch[key[depth]], key, depth + 1);
        n := m + 1;
      }
    case Ext(a, c) =>
      if depth + |a| <= |key| && key[depth..depth + |a|] == a {
        var m := TreeWalkEnds(s, s[e.pointer.digest], c, key, depth + |a|);
        n := m + 1;
      }
  }

  /**
   On a complete state the walk ends: with the value of a stored key, in a panic if the
   stored keys outrun this one, and otherwise without finding it.
   */
  lemma ReadOfState(s: Store, root: Digest, key: Key)
    requires IsState(s, root)
    ensures Ends(s, root, key) && StoreRead(s, root, key) == ResultOf(Walk(StateTree(s, root), key, 0))
    ensures var t, r := StateTree(s, root), StoreRead(s, root, key);
            && (forall v :: r == Found(v) <==> (key, v) in Leaves(t))
            && (r == ReadPanics <==> Outruns(Keys(t), key))
            && (r == NotFound <==> key !in Keys(t) && !Outruns(Keys(t), key))
  {
    hide Outruns;
    var t := StateTree(s, root);
    var n := TreeWalkEnds(s, s[root], t, key, 0);
    StoreReadIs(s, root, key, n);
    WalkOutcomes(t, key);
  }

  lemma {:induction false} RootNotFoundIsNotWalked(s: Store, e: Element, key: Key, depth: nat, n: nat)
    ensures WalkIn(s, e, key, depth, n) != Some(ReadRootNotFound)
    decreases n
  {
    match e
    case ELeaf(_, _) =>
    case ENode(pointers) =>
      if depth < |key| && key[depth] in pointers && pointers[key[depth]].digest in s && n > 0 {
        RootNotFoundIsNotWalked(s, s[pointers[key[depth]].digest], key, depth + 1, n - 1);
      }
    case EExt(affix, pointer) =>
      if depth + |affix| <= |key| && key[depth..depth + |affix|] == affix && pointer.digest in s && n > 0 {
        RootNotFoundIsNotWalked(s, s[pointer.digest], key, depth + |affix|, n - 1);
      }
  }

  /** Whatever is found is a stored leaf. */
  lemma {:induction false} FoundIsStored(s: Store, e: Element, key: Key, depth: nat, n: nat)
    requires WalkIn(s, e, key, depth, n).Some? && WalkIn(s, e, key, depth, n).value.Found?
    ensures var leaf := ELeaf(key, WalkIn(s, e, key, depth, n).value.value);
            e == leaf || exists d :: d in s && s[d] == leaf
    decreases n
  {
    match e
    case ELeaf(_, _) =>
    case ENode(pointers) => FoundIsStored(s, s[pointers[key[depth]].digest], key, depth + 1, n - 1);
    case EExt(affix, pointer) => FoundIsStored(s, s[pointer.digest], key, depth + |affix|, n - 1);
  }

  lemma {:induction false} StepsAreBounded(s: Store, e: Element, key: Key, depth: nat)
    requires (forall d | d in s :: s[d].EExt? ==> s[d].affix != []) && (e.EExt? ==> e.affix != []) && depth <= |key|
    ensures WalkIn(s, e, key, depth, |key| - depth).Some?
    decreases |key| - depth
  {
    match e
    case ELeaf(_, _) =>
    case ENode(pointers) =>
      if depth < |key| && key[depth] in pointers && pointers[key[depth]].digest in s {
        StepsAreBounded(s, s[pointers[key[depth]].digest], key, depth + 1);
      }
    case EExt(affix, pointer) =>
      if depth + |affix| <= |key| && key[depth..depth + |affix|] == affix && pointer.digest in s {
        StepsAreBounded(s, s[pointer.digest], key, depth + |affix|);
        MoreSteps(s, s[pointer.digest], key, depth + |affix|, |key| - depth - |affix|, |key| - depth - 1);
      }
  }

  /** Every walk ends in a store whose extensions are not empty, whatever else is wrong with it. */
  lemma ReadEnds(s: Store, root: Digest, key: Key)
    requires forall d | d in s :: s[d].EExt? ==> s[d].affix != []
    ensures Ends(s, root, key)
  {
    if root in s {
      StepsAreBounded(s, s[root], key, 0);
    }
  }

  lemma {:induction false} WalkInMore(s: Store, s': Store, e: Element, key: Key, depth: nat, n: nat)
    requires Extends(s, s') && WalkIn(s, e, key, depth, n).Some? && WalkIn(s, e, key, depth, n) != Some(NotFound)
    ensures WalkIn(s', e, key, depth, n) == WalkIn(s, e, key, depth, n)
    decreases n
  {
    match e
    case ELeaf(_, _) =>
    case ENode(pointers) =>
      if depth < |key| && key[depth] in pointers {
        WalkInMore(s, s', s[pointers[key[depth]].digest], key, depth + 1, n - 1);
      }
    case EExt(affix, pointer) =>
      if depth + |affix| <= |key| && key[depth..depth + |affix|] == affix {
        WalkInMore(s, s', s[pointer.digest], key, depth + |affix|, n - 1);
      }
  }

  /**
   A value read from a store with gaps is the value in the whole state: what is missing can
   only hide entries.
   */
  lemma GapsOnlyHide(s: Store, s': Store, root: Digest, key: Key)
    requires Extends(s, s') && root in s && Ends(s, root, key) && IsState(s', root)
    ensures Ends(s', root, key) && (StoreRead(s, root, key) == NotFound || StoreRead(s, root, key) == StoreRead(s', root, key))
  {
    hide Outruns;
    var n :| WalkIn(s, s[root], key, 0, n).Some?;
    StoreReadIs(s, root, key, n);
    ReadOfState(s', root, key);
    if StoreRead(s, root, key) != NotFound {
      WalkInMore(s, s', s[root], key, 0, n);
      StoreReadIs(s', root, key, n);
    }
  }

  class Trie {
    const hash: Hash
    var elements: Store

    ghost predicate Valid()
      reads this
    {
      Injective(hash) && Consistent(hash, elements)
    }

    /** Asks nothing of the store but that the walk ends; a dangling pointer means not found. */
    method Read(root: Digest, key: Key) returns (r: ReadResult)
      requires Ends(elements, root, key)
      ensures r == StoreRead(elements, root, key)
      ensures r == ReadRootNotFound <==> root !in elements
      ensures r.Found? ==> exists d :: d in elements && elements[d] == ELeaf(key, r.value)
      ensures IsState(elements, root) ==>
                var t := StateTree(elements, root);
                && (forall v :: r == Found(v) <==> (key, v) in Leaves(t))
                && (r == ReadPanics <==> Outruns(Keys(t), key))
                && (r == NotFound <==> key !in Keys(t) && !Outruns(Keys(t), key))
    {
      hide Outruns, Shows;
      if root !in elements {
        return ReadRootNotFound;
      }
      if IsState(elements, root) { ReadOfState(elements, root, key); }
      var current := elements[root];
      var depth: nat := 0;
      ghost var n :| WalkIn(elements, current, key, 0, n).Some?;
      StoreReadIs(elements, root, key, n);
      RootNotFoundIsNotWalked(elements, current, key, 0, n);
      if StoreRead(elements, root, key).Found? { FoundIsStored(elements, current, key, 0, n); }
      while true
        invariant WalkIn(elements, current, key, depth, n) == Some(StoreRead(elements, root, key))
        decreases n
      {
        match current {
          case ELeaf(k, v) =>
            return if k == key then Found(v) else NotFound;
          case ENode(pointers) =>
            if depth >= |key| {
              return ReadPanics;
            }
            var index := key[depth];
            if index !in pointers {
              return NotFound;
            }
            if pointers[index].digest !in elements {
              return NotFound;
            }
            n := n - 1;
            current := elements[pointers[index].digest];
            depth := depth + 1;
          case EExt(affix, pointer) =>
            if depth + |affix| > |key| {
              return ReadPanics;
            }
            if key[depth..depth + |affix|] != affix {
              return NotFound;
            }
            if pointer.digest !in elements {
              return NotFound;
            }
            n := n - 1;
            current := elements[pointer.digest];
            depth := depth + |affix|;
        }
      }
    }

    /** The deepest element on the path of the key, with its parents, shallow to deep. */
    method Scan(key: Key, rootElement: Element, ghost t: Tree)
      returns (tip: Element, parents: Parents, ghost fs: seq<Frame>, ghost u: Tree)
      requires Shows(elements, rootElement, t) && RootWellFormed(t) && Compatible(t, key)
      ensures Scanning(elements, key, t, tip, parents, fs, u)
      ensures Stops(u, key, |Path(fs)|)
    {
      tip, parents, fs, u := rootElement, [], [], t;
      assert Scanning(elements, key, t, tip, parents, fs, u);
      hide Compatible, FramesWellFormed, Fits, ParentsMatch, HolePoints, Plug;
      var depth: nat := 0;
      while true
        invariant depth == |Path(fs)| && Scanning(elements, key, t, tip, parents, fs, u)
        decreases u
      {
        match tip {
          case ELeaf(_, _) =>
            return;
          case ENode(pointers) =>
            CompatibleBelow(fs, u, key);
            KeyGoesOn(fs, u, key);
            var index := key[depth];
            if index !in pointers {
              return;
            }
            ScanDown(elements, key, t, tip, parents, fs, u);
            fs, u := fs + [BranchFrame(index, u.children - {index})], u.children[index];
            parents := parents + [(index, tip)];
            tip := elements[pointers[index].digest];
            depth := depth + 1;
          case EExt(affix, pointer) =>
            if |key| < depth + |affix| || key[depth..depth + |affix|] != affix {
              assert depth + |affix| <= |key| ==> key[depth..][..|affix|] == key[depth..depth + |affix|];
              return;
            }
            ScanDownExt(elements, key, t, tip, parents, fs, u);
            fs, u := fs + [ExtFrame(affix)], u.child;
            parents := parents + [(key[depth], tip)];
            tip := elements[pointer.digest];
            depth := depth + |affix|;
        }
      }
    }

    /** Rebuilds the parents above a new leaf, deepest first. */
    method Rehash(leaf: Element, parents: Parents, ghost s: Store, ghost fs: seq<Frame>, ghost t: Tree)
      returns (ret: seq<(Digest, Element)>)
      requires Injective(hash) && Consistent(hash, s) && ParentsMatch(s, parents, fs)
      requires leaf.ELeaf? && Shows(s, leaf, t)
      requires fs != [] && fs[|fs| - 1].BranchFrame?
      ensures Builds(hash, s, ret, Plug(fs, t))
    {
      var tip, tipHash := leaf, hash(leaf);
      ret := [(tipHash, tip)];
      ghost var cur := t;
      PutAllSnoc(s, [], (tipHash, tip));
      assert fs[..|parents|] == fs;
      var i := |parents|;
      while i > 0
        invariant 0 <= i <= |parents|
        invariant i < |parents| ==> !tip.ELeaf?
        invariant Plug(fs[..i], cur) == Plug(fs, t)
        invariant Builds(hash, s, ret, cur) && ret[|ret| - 1] == (tipHash, tip)
      {
        i := i - 1;
        var (index, parent) := parents[i];
        ghost var s1, f := PutAll(s, ret), fs[i];
        assert fs[..i + 1] == fs[..i] + [f];
        Snoc(fs[..i], f);
        PutAllExtends(hash, s, ret);
        ParentsMonotone(s, s1, parents, fs);
        assert ParentMatches(s1, parents[i], f);
        match parent {
          case ENode(pointers) =>
            tip := ENode(pointers[index := PointerTo(tipHash, tip)]);
          case EExt(affix, pointer) =>
            tip := EExt(affix, pointer.Update(tipHash));
        }
        ShowsPlugged(s1, parents[i], f, ret[|ret| - 1], cur, tip);
        BuildsMore(hash, s, ret, cur, tip, PlugOne(f, cur));
        cur := PlugOne(f, cur);
        tipHash := hash(tip);
        ret := ret + [(tipHash, tip)];
      }
    }

    /** Makes a node the deepest parent, so that the parents stand for one frame more and follow the path one byte further. */
    method AddNodeToParents(path: Key, node: Element, parents: Parents, ghost s: Store, ghost fs: seq<Frame>, ghost others: map<byte, Tree>)
      returns (ps: Parents)
      requires ParentsMatch(s, parents, fs) && Path(fs) <= path && |Path(fs)| < |path|
      requires ParentMatches(s, (path[|Path(fs)|], node), BranchFrame(path[|Path(fs)|], others))
      ensures ParentsMatch(s, ps, fs + [BranchFrame(path[|Path(fs)|], others)])
      ensures ParentsPath(ps) == path[..|Path(fs)| + 1]
    {
      ParentsPathIsPath(s, parents, fs);
      var depth := |ParentsPath(parents)|;
      ps := parents + [(path[depth], node)];
      ghost var f := BranchFrame(path[depth], others);
      Snoc(fs, f);
      PrefixStep(Path(fs), path);
      ParentsPathIsPath(s, ps, fs + [f]);
    }

    /** A node for the existing leaf, below an extension for the further bytes it shares with the new one. */
    method ReparentLeaf(newPath: Key, existingPath: Key, parents: Parents, ghost fs: seq<Frame>, ghost u: Tree)
      returns (node: Element, ps: Parents)
      requires ParentsMatch(elements, parents, fs) && fs != [] && fs[|fs| - 1].BranchFrame?
      requires HolePoints(elements, parents[|parents| - 1], fs[|fs| - 1], u)
      requires u.Leaf? && u.key == existingPath && CanGraft(u, newPath, |Path(fs)|) && newPath != existingPath
      ensures var s := CommonLength(newPath, existingPath);
              var shared := newPath[..s];
              && |Path(fs)| <= s && s < |newPath| && s < |existingPath|
              && ParentsMatch(elements, ps, ForkFrames(fs, shared[|Path(fs)|..]))
              && ParentMatches(elements, (newPath[s], node), BranchFrame(newPath[s], map[existingPath[s] := u]))
    {
      var (childIndex, parent) := parents[|parents| - 1];
      assert ParentMatches(elements, parents[|parents| - 1], fs[|fs| - 1]);
      SharedAtLeast(newPath, existingPath, |Path(fs)|);
      var s := CommonLength(newPath, existingPath);
      var shared := newPath[..s];
      node := ENode(map[existingPath[s] := parent.pointers[childIndex]]);
      ParentsPathIsPath(elements, parents, fs);
      var affix := shared[|ParentsPath(parents)|..];
      ps := parents;
      if affix != [] {
        var extension := EExt(affix, NodePointer(hash(node)));
        assert ParentMatches(elements, (childIndex, extension), ExtFrame(affix));
        ps := ps + [(childIndex, extension)];
      }
    }

    /** A node in the middle of an extension, with the rest of the extension below it. */
    method SplitExtension(newPath: Key, affix: Bytes, pointer: Pointer, parents: Parents, ghost fs: seq<Frame>, ghost u: Tree)
      returns (node: Element, ps: Parents, child: Option<(Digest, Element)>)
      requires Injective(hash) && Consistent(hash, elements) && ParentsMatch(elements, parents, fs)
      requires u.Ext? && u.affix == affix && u.child.Branch? && Points(elements, pointer, u.child)
      requires Path(fs) <= newPath && CanGraft(u, newPath, |Path(fs)|)
      ensures child.Some? ==> child.value.0 == hash(child.value.1)
      ensures var s := if child.Some? then elements[child.value.0 := child.value.1] else elements;
              var rest := newPath[|Path(fs)|..];
              var j := CommonLength(rest, affix);
              && Consistent(hash, s) && Extends(elements, s) && j < |rest| && j < |affix|
              && ParentsMatch(s, ps, ForkFrames(fs, affix[..j]))
              && ParentMatches(s, (rest[j], node), BranchFrame(rest[j], map[affix[j] := Shortened(u, j)]))
    {
      var parentsPath := ParentsPath(parents);
      ParentsPathIsPath(elements, parents, fs);
      var extensionPath := parentsPath + affix;
      var shared := newPath[..CommonLength(newPath, extensionPath)];
      ghost var j := SplitPoint(parentsPath, newPath, affix);
      var parentAffix := shared[|parentsPath|..];
      var childAffix := affix[|parentAffix| + 1..];
      child := None;
      var nodePointer := pointer;
      ghost var s := elements;
      if childAffix != [] {
        var extension := EExt(childAffix, pointer);
        child := Some((hash(extension), extension));
        nodePointer := NodePointer(hash(extension));
        s := elements[hash(extension) := extension];
        PutExtends(hash, elements, extension);
        ShowsMonotone(elements, s, elements[pointer.digest], u.child);
        assert Points(s, nodePointer, Shortened(u, j)) by { assert Shows(s, extension, Shortened(u, j)); }
      }
      ParentsMonotone(elements, s, parents, fs);
      node := ENode(map[extensionPath[|shared|] := nodePointer]);
      ps := parents;
      if parentAffix != [] {
        var extension := EExt(parentAffix, NodePointer(hash(node)));
        assert ParentMatches(s, (parentAffix[0], extension), ExtFrame(parentAffix));
        ps := ps + [(parentAffix[0], extension)];
      }
    }

    /** Puts the new elements in order; the last one is the new root. */
    method PutElements(new_: seq<(Digest, Element)>)
      requires Valid() && Hashed(hash, new_)
      modifies this`elements
      ensures Valid() && elements == PutAll(old(elements), new_) && Extends(old(elements), elements)
    {
      for i := 0 to |new_|
        invariant elements == PutAll(old(elements), new_[..i])
      {
        assert new_[..i + 1][..i] == new_[..i];
        elements := elements[new_[i].0 := new_[i].1];
      }
      assert new_[..|new_|] == new_;
      PutAllExtends(hash, old(elements), new_);
    }

    /** The elements a write adds; none if the entry is already there. */
    method NewElements(root: Digest, key: Key, value: Value, ghost t: Tree) returns (new_: seq<(Digest, Element)>, ghost t': Tree)
      requires Valid() && root in elements && Shows(elements, elements[root], t)
      requires RootWellFormed(t) && Compatible(t, key)
      ensures new_ == [] <==> Find(t, key, 0) == Some(value)
      ensures new_ != [] ==> Builds(hash, elements, new_, t')
      ensures RootWellFormed(t') && Updates(t, t', key, Some(value))
    {
      var tip, parents, fs, u := Scan(key, elements[root], t);
      CompatibleBelow(fs, u, key);
      t' := WriteResultTree(fs, u, key, value);
      FindPlug(fs, u, key);
      match tip {
        case ELeaf(k, v) =>
          if k != key {
            new_ := ForkOffLeaf(key, value, tip, parents, fs, u);
          } else if v != value {
            new_ := Rehash(ELeaf(key, value), parents, elements, fs, Leaf(key, value));
          } else {
            new_ := [];
          }
        case ENode(_) =>
          new_ := AddToNode(key, value, tip, parents, fs, u);
        case EExt(_, _) =>
          new_ := ForkOffExtension(key, value, tip, parents, fs, u);
      }
    }

    method ForkOffLeaf(key: Key, value: Value, tip: Element, parents: Parents, ghost fs: seq<Frame>, ghost u: Tree)
      returns (new_: seq<(Digest, Element)>)
      requires Valid() && ParentsMatch(elements, parents, fs) && Shows(elements, tip, u) && tip.ELeaf? && tip.key != key
      requires fs != [] && fs[|fs| - 1].BranchFrame? && HolePoints(elements, parents[|parents| - 1], fs[|fs| - 1], u)
      requires Path(fs) <= key && CanGraft(u, key, |Path(fs)|)
      ensures Builds(hash, elements, new_, Plug(fs, Grafted(u, key, value, |Path(fs)|)))
    {
      ghost var d, s, k := |Path(fs)|, CommonLength(key, tip.key), tip.key;
      var node, ps := ReparentLeaf(key, tip.key, parents, fs, u);
      ghost var shared := key[d..s];
      assert key[..s][d..] == shared;
      ForkPath(fs, shared);
      assert Path(fs) + shared == key[..s];
      ForkAsFrames(fs, shared, k[s], u, key[s], Leaf(key, value));
      new_ := RehashBelow(ELeaf(key, value), key, node, ps, elements, ForkFrames(fs, shared), map[k[s] := u]);
    }

    method AddToNode(key: Key, value: Value, tip: Element, parents: Parents, ghost fs: seq<Frame>, ghost u: Tree)
      returns (new_: seq<(Digest, Element)>)
      requires Valid() && ParentsMatch(elements, parents, fs) && Shows(elements, tip, u) && tip.ENode?
      requires Path(fs) <= key && CanGraft(u, key, |Path(fs)|)
      ensures Builds(hash, elements, new_, Plug(fs, Grafted(u, key, value, |Path(fs)|)))
    {
      ghost var f := BranchFrame(key[|Path(fs)|], u.children);
      assert ParentMatches(elements, (f.index, tip), f);
      Snoc(fs, f);
      new_ := RehashBelow(ELeaf(key, value), key, tip, parents, elements, fs, u.children);
    }

    method ForkOffExtension(key: Key, value: Value, tip: Element, parents: Parents, ghost fs: seq<Frame>, ghost u: Tree)
      returns (new_: seq<(Digest, Element)>)
      requires Valid() && ParentsMatch(elements, parents, fs) && Shows(elements, tip, u) && tip.EExt? && u.child.Branch?
      requires Path(fs) <= key && CanGraft(u, key, |Path(fs)|)
      ensures Builds(hash, elements, new_, Plug(fs, Grafted(u, key, value, |Path(fs)|)))
    {
      hide Points, ParentsMatch, ParentMatches, Builds, Plug, Path, ForkFrames, Grafted, Injective, Consistent, Extends, Shortened;
      var affix := tip.affix;
      ghost var j := ForkExtensionPath(fs, affix, key);
      var node, ps, child := SplitExtension(key, affix, tip.pointer, parents, fs, u);
      ghost var s := if child.Some? then elements[child.value.0 := child.value.1] else elements;
      ghost var fs' := ForkFrames(fs, affix[..j]);
      assert |Path(fs')| == |Path(fs)| + j && key[|Path(fs)|..][j] == key[|Path(fs')|];
      new_ := RehashBelow(ELeaf(key, value), key, node, ps, s, fs', map[affix[j] := Shortened(u, j)]);
      ForkExtensionTree(fs, u, key, value, j);
      if child.Some? {
        BuildsCons(hash, elements, child.value, new_, Plug(fs, Grafted(u, key, value, |Path(fs)|)));
        new_ := [child.value] + new_;
      }
    }

    /** Adds the node to the parents and rebuilds everything above the new leaf. */
    method RehashBelow(leaf: Element, key: Key, node: Element, parents: Parents, ghost s: Store, ghost fs: seq<Frame>, ghost others: map<byte, Tree>)
      returns (new_: seq<(Digest, Element)>)
      requires Injective(hash) && Consistent(hash, s) && ParentsMatch(s, parents, fs)
      requires leaf.ELeaf? && leaf.key == key && Path(fs) <= key && |Path(fs)| < |key|
      requires ParentMatches(s, (key[|Path(fs)|], node), BranchFrame(key[|Path(fs)|], others))
      ensures Builds(hash, s, new_, Plug(fs + [BranchFrame(key[|Path(fs)|], others)], Leaf(key, leaf.value)))
    {
      var ps := AddNodeToParents(key, node, parents, s, fs, others);
      new_ := Rehash(leaf, ps, s, fs + [BranchFrame(key[|Path(fs)|], others)], Leaf(key, leaf.value));
    }

    method Write(root: Digest, key: Key, value: Value) returns (r: WriteResult)
      requires Valid()
      requires root in elements ==> IsState(elements, root) && Compatible(StateTree(elements, root), key)
      modifies this`elements
      ensures Valid() && Extends(old(elements), elements)
      ensures r == WriteRootNotFound <==> root !in old(elements)
      ensures r == AlreadyExists <==> root in old(elements) && Lookup(old(elements), root, key) == Some(value)
      ensures !r.Written? ==> elements == old(elements)
      ensures r.Written? ==> IsState(elements, r.root)
      ensures r.Written? ==> Updates(StateTree(old(elements), root), StateTree(elements, r.root), key, Some(value))
    {
      if root !in elements {
        return WriteRootNotFound;
      }
      ghost var t := StateTree(elements, root);
      var new_, t' := NewElements(root, key, value, t);
      if new_ == [] {
        return AlreadyExists;
      }
      PutElements(new_);
      r := Written(new_[|new_| - 1].0);
      StateTreeIs(elements, r.root, t');
    }

    /**
     Takes the leaf out of its parent. A node that would keep a single child is replaced
     by that child: a leaf moves up to the next node, anything else goes below an extension.
     */
    method DetachLeaf(parents: Parents, ghost fs: seq<Frame>, ghost leaf: Tree)
      returns (e: Element, rest: Parents, ghost fs': seq<Frame>, ghost cur: Tree)
      requires Valid() && ParentsMatch(elements, parents, fs) && FramesWellFormed(fs) && Fits(fs, leaf)
      requires leaf.Leaf? && fs != [] && HolePoints(elements, parents[|parents| - 1], fs[|fs| - 1], leaf)
      ensures Pruning(Plug(fs, leaf), leaf.key, fs', cur) && ParentsMatch(elements, rest, fs')
      ensures Shows(elements, e, cur) && !cur.Leaf?
    {
      var (index, parent) := parents[|parents| - 1];
      ghost var f := fs[|fs| - 1];
      rest := parents[..|parents| - 1];
      fs' := fs[..|fs| - 1];
      assert fs == fs' + [f];
      LeafParent(fs', f, leaf);
      ParentsMatchFront(elements, parents, fs);
      hide Pruning, FramesWellFormed, Fits, ParentsMatch, Shows;
      var pointers := parent.pointers;
      ChildCount(elements, (index, parent), f);
      if |pointers| > 2 || pointers.Keys == {index} || rest == [] {
        // Several siblings, or the parent is the root.
        PruneChild(Plug(fs, leaf), fs', f, leaf);
        e, cur := ENode(pointers - {index}), Branch(f.others);
      } else {
        e, rest, fs', cur := Collapse(index, pointers, rest, fs', f, leaf);
      }
    }

    /** The parent keeps one child and is not the root: the child takes its place. */
    method Collapse(index: byte, pointers: map<byte, Pointer>, parents: Parents, ghost fs: seq<Frame>, ghost f: Frame, ghost leaf: Tree)
      returns (e: Element, rest: Parents, ghost fs': seq<Frame>, ghost cur: Tree)
      requires ParentMatches(elements, (index, ENode(pointers)), f) && ParentsMatch(elements, parents, fs) && fs != []
      requires FramesWellFormed(fs + [f]) && leaf.Leaf? && Fits(fs + [f], leaf) && f.BranchFrame?
      requires index in pointers && |pointers| == 2
      ensures Pruning(Plug(fs + [f], leaf), leaf.key, fs', cur) && ParentsMatch(elements, rest, fs')
      ensures Shows(elements, e, cur) && !cur.Leaf?
    {
      ghost var t := Plug(fs + [f], leaf);
      assert |pointers.Keys - {index}| == |pointers.Keys| - 1;
      OneLeft(f.others);
      var sibling :| sibling in pointers && sibling != index;
      var pointer := pointers[sibling];
      assert sibling in f.others;
      PruneCollapse(t, fs, f, leaf, sibling);
      rest, fs', cur := parents, fs, Collapsed(sibling, f.others[sibling]);
      assert Points(elements, pointer, f.others[sibling]);
      assert Shows(elements, elements[pointer.digest], f.others[sibling]);
      if pointer.LeafPointer? {
        e, rest, fs', cur := ReseatLeaf(pointer, parents, fs, t, leaf.key, cur);
      } else {
        match elements[pointer.digest] {
          case ENode(_) =>
            e := EExt([sibling], pointer);
          case EExt(affix, next) =>
            e := EExt([sibling] + affix, next);
        }
      }
    }

    /** Moves a lone leaf up into the nearest node, dropping an extension on the way. */
    method ReseatLeaf(pointer: Pointer, parents: Parents, ghost fs: seq<Frame>, ghost t: Tree, ghost key: Key, ghost leaf: Tree)
      returns (e: Element, rest: Parents, ghost fs': seq<Frame>, ghost cur: Tree)
      requires leaf.Leaf? && Points(elements, pointer, leaf)
      requires parents != [] && ParentsMatch(elements, parents, fs) && Pruning(t, key, fs, leaf)
      ensures Pruning(t, key, fs', cur) && ParentsMatch(elements, rest, fs')
      ensures Shows(elements, e, cur) && !cur.Leaf?
    {
      hide Pruning;
      var n := |parents| - 1;
      ghost var f := NearestNode(t, key, fs, leaf);
      assert ParentMatches(elements, parents[n], fs[n]);
      if parents[n].1.EExt? {
        n := n - 1;
        assert ParentMatches(elements, parents[n], fs[n]);
      }
      var (index, parent) := parents[n];
      e, cur := ENode(parent.pointers[index := pointer]), PlugOne(f, leaf);
      ShowsReseated(elements, parents[n], f, pointer, leaf);
      rest, fs' := parents[..n], fs[..n];
    }

    method Prune(root: Digest, key: Key) returns (r: PruneResult)
      requires Valid()
      requires root in elements ==> IsState(elements, root) && Compatible(StateTree(elements, root), key)
      modifies this`elements
      ensures Valid() && Extends(old(elements), elements)
      ensures r == PruneRootNotFound <==> root !in old(elements)
      ensures r == MissingKey <==> root in old(elements) && Lookup(old(elements), root, key) == None
      ensures !r.Pruned? ==> elements == old(elements)
      ensures r.Pruned? ==> IsState(elements, r.root)
      ensures r.Pruned? ==> Updates(StateTree(old(elements), root), StateTree(elements, r.root), key, None)
    {
      if root !in elements {
        return PruneRootNotFound;
      }
      ghost var t := StateTree(elements, root);
      var tip, parents, fs, u := Scan(key, elements[root], t);
      FindPlug(fs, u, key);
      if !tip.ELeaf? || tip.key != key {
        return MissingKey;
      }
      var e, rest, fs', cur := DetachLeaf(parents, fs, u);
      BuildsFirst(hash, elements, e, cur);
      var new_, t' := Propagate([(hash(e), e)], rest, t, key, fs', cur);
      PutElements(new_);
      r := Pruned(new_[|new_| - 1].0);
      StateTreeIs(elements, r.root, t');
    }

    /** Rebuilds the parents above a changed node or extension. */
    method Propagate(first: seq<(Digest, Element)>, parents: Parents, ghost t: Tree, ghost key: Key, ghost fs: seq<Frame>, ghost cur: Tree)
      returns (new_: seq<(Digest, Element)>, ghost t': Tree)
      requires Valid() && |first| == 1 && Builds(hash, elements, first, cur) && Shows(elements, first[0].1, cur)
      requires !cur.Leaf? && ParentsMatch(elements, parents, fs) && Pruning(t, key, fs, cur)
      ensures Builds(hash, elements, new_, t') && RootWellFormed(t') && Updates(t, t', key, None)
    {
      hide Pruning, RootWellFormed, Updates;
      new_, t' := first, cur;
      var rest := parents;
      ghost var fs' := fs;
      while rest != []
        invariant !t'.Leaf? && ParentsMatch(elements, rest, fs') && Pruning(t, key, fs', t')
        invariant Builds(hash, elements, new_, t')
        invariant t'.Ext? && fs' != [] && fs'[|fs'| - 1].ExtFrame? ==> |new_| == 1 && Shows(elements, new_[0].1, t')
        decreases |rest|
      {
        var (index, parent) := rest[|rest| - 1];
        ghost var f, above := fs'[|fs'| - 1], fs'[..|fs'| - 1];
        assert fs' == above + [f];
        assert ParentMatches(elements, rest[|rest| - 1], f);
        var (topHash, top) := new_[|new_| - 1];
        if parent.ENode? {
          var e := ENode(parent.pointers[index := NodePointer(topHash)]);
          BuildsParent(hash, elements, new_, t', rest[|rest| - 1], f, e);
          PruneUpBranch(t, key, above, f, t');
          new_, t' := new_ + [(hash(e), e)], PlugOne(f, t');
        } else if top.EExt? {
          // The only update in place: the two affixes are joined.
          var e := EExt(parent.affix + top.affix, top.pointer);
          PruneUpExt(t, key, above, f.affix, t');
          ExtensionsAlternate(t, key, above, f, t');
          t' := Ext(f.affix + t'.affix, t'.child);
          BuildsFirst(hash, elements, e, t');
          new_ := new_[..|new_| - 1] + [(hash(e), e)];
        } else {
          var e := EExt(parent.affix, NodePointer(topHash));
          BuildsParent(hash, elements, new_, t', rest[|rest| - 1], f, e);
          PruneUpExt(t, key, above, f.affix, t');
          ExtensionsAlternate(t, key, above, f, t');
          new_, t' := new_ + [(hash(e), e)], PlugOne(f, t');
        }
        rest, fs' := rest[..|rest| - 1], above;
      }
      PruningDone(t, key, t');
    }
  }

  /** Above an extension comes a node. */
  lemma ExtensionsAlternate(t: Tree, key: Key, fs: seq<Frame>, f: Frame, cur: Tree)
    requires Pruning(t, key, fs + [f], cur) && f.ExtFrame?
    ensures fs != [] ==> fs[|fs| - 1].BranchFrame?
  {
    assert (fs + [f])[..|fs|] == fs;
  }

  lemma PruningDone(t: Tree, key: Key, cur: Tree)
    requires Pruning(t, key, [], cur) && !cur.Leaf?
    ensures RootWellFormed(cur) && Updates(t, cur, key, None)
  {
  }

  /** A leaf below the frames can move up to the nearest node: at most one extension is in between. */
  lemma {:induction false} NearestNode(t: Tree, key: Key, fs: seq<Frame>, leaf: Tree) returns (f: Frame)
    requires leaf.Leaf? && fs != [] && Pruning(t, key, fs, leaf)
    ensures var n := if fs[|fs| - 1].ExtFrame? then |fs| - 2 else |fs| - 1;
            n >= 0 && f == fs[n] && f.BranchFrame? && Pruning(t, key, fs[..n], PlugOne(f, leaf))
  {
    var n := |fs| - 1;
    assert fs == fs[..n] + [fs[n]];
    if fs[n].ExtFrame? {
      PruneUpExt(t, key, fs[..n], fs[n].affix, leaf);
      var above := fs[..n];
      assert above == above[..n - 1] + [above[n - 1]] && above[..n - 1] == fs[..n - 1];
      PruneUpBranch(t, key, above[..n - 1], above[n - 1], leaf);
      f := fs[n - 1];
    } else {
      PruneUpBranch(t, key, fs[..n], fs[n], leaf);
      f := fs[n];
    }
  }

  /** A leaf hangs from a node, and unless that is the root it has a sibling. */
  lemma LeafParent(fs: seq<Frame>, f: Frame, leaf: Tree)
    requires FramesWellFormed(fs + [f]) && Fits(fs + [f], leaf) && leaf.Leaf?
    ensures f.BranchFrame? && (fs != [] ==> f.others != map[])
  {
    assert (fs + [f])[..|fs|] == fs;
  }

  lemma ParentsMatchFront(s: Store, ps: Parents, fs: seq<Frame>)
    requires ParentsMatch(s, ps, fs) && fs != []
    ensures ParentsMatch(s, ps[..|ps| - 1], fs[..|fs| - 1]) && ParentMatches(s, ps[|ps| - 1], fs[|fs| - 1])
  {
  }

  lemma ChildCount(s: Store, p: (byte, Element), f: Frame)
    requires ParentMatches(s, p, f) && f.BranchFrame? && p.0 in p.1.pointers
    ensures |p.1.pointers| == |f.others| + 1 && (p.1.pointers.Keys == {p.0} <==> f.others == map[])
    ensures Shows(s, ENode(p.1.pointers - {p.0}), Branch(f.others))
  {
    var pointers := p.1.pointers;
    assert |pointers.Keys - {p.0}| == |pointers.Keys| - 1;
    assert (pointers - {p.0}).Keys == f.others.Keys;
    assert pointers.Keys == f.others.Keys + {p.0};
  }

  lemma OneLeft(others: map<byte, Tree>)
    requires |others| == 1
    ensures exists j :: others.Keys == {j}
  {
    var j :| j in others;
    assert |others.Keys - {j}| == 0;
    assert others.Keys == {j};
  }

  lemma {:induction false} ShowsReseated(s: Store, p: (byte, Element), f: Frame, pointer: Pointer, cur: Tree)
    requires ParentMatches(s, p, f) && f.BranchFrame? && Points(s, pointer, cur)
    ensures Shows(s, ENode(p.1.pointers[p.0 := pointer]), PlugOne(f, cur))
  {
    var e := ENode(p.1.pointers[p.0 := pointer]);
    assert e.pointers.Keys == f.others.Keys + {f.index};
    assert f.others[f.index := cur].Keys == f.others.Keys + {f.index};
  }

  lemma BuildsFirst(hash: Hash, s: Store, e: Element, t: Tree)
    requires Injective(hash) && Consistent(hash, s) && Shows(s, e, t)
    ensures Builds(hash, s, [(hash(e), e)], t)
  {
    PutAllSnoc(s, [], (hash(e), e));
    assert [] + [(hash(e), e)] == [(hash(e), e)];
    PutExtends(hash, s, e);
    ShowsMonotone(s, s[hash(e) := e], e, t);
  }

  lemma {:induction false} BuildsParent(hash: Hash, s: Store, new_: seq<(Digest, Element)>, cur: Tree, p: (byte, Element), f: Frame, e: Element)
    requires Injective(hash) && Consistent(hash, s) && Builds(hash, s, new_, cur) && !cur.Leaf?
    requires ParentMatches(s, p, f)
    requires var d := new_[|new_| - 1].0;
             e == if f.BranchFrame? then ENode(p.1.pointers[p.0 := NodePointer(d)]) else EExt(p.1.affix, NodePointer(d))
    ensures Builds(hash, s, new_ + [(hash(e), e)], PlugOne(f, cur))
  {
    var s1 := PutAll(s, new_);
    PutAllExtends(hash, s, new_);
    ParentsMonotone(s, s1, [p], [f]);
    assert ParentMatches(s1, [p][0], [f][0]);
    BuiltPointer(hash, s, new_, cur);
    ShowsPlugged(s1, p, f, new_[|new_| - 1], cur, e);
    BuildsMore(hash, s, new_, cur, e, PlugOne(f, cur));
  }

  /** The tree after a write: the graft, put back into the frames of the scan. */
  lemma WriteResultTree(fs: seq<Frame>, u: Tree, key: Key, value: Value) returns (t': Tree)
    requires FramesWellFormed(fs) && Fits(fs, u)
    requires Path(fs) <= key && Compatible(u, key) && Stops(u, key, |Path(fs)|)
    ensures CanGraft(u, key, |Path(fs)|) && t' == Plug(fs, Grafted(u, key, value, |Path(fs)|))
    ensures RootWellFormed(t') && Updates(Plug(fs, u), t', key, Some(value))
  {
    GraftFits(fs, u, key, value);
    GraftUpdates(u, Path(fs), key, value);
    t' := Plug(fs, Grafted(u, key, value, |Path(fs)|));
    PlugWellFormed(fs, Grafted(u, key, value, |Path(fs)|));
    EditInHole(fs, u, Grafted(u, key, value, |Path(fs)|), key, Some(value));
  }

  lemma SplitPoint(path: Bytes, newPath: Bytes, affix: Bytes) returns (j: nat)
    requires path <= newPath && !(affix <= newPath[|path|..]) && !(newPath[|path|..] <= affix)
    ensures j == CommonLength(newPath[|path|..], affix) && j < |affix| && |path| + j < |newPath|
    ensures var s := CommonLength(newPath, path + affix);
            s == |path| + j && newPath[..s][|path|..] == affix[..j] && (path + affix)[s] == affix[j]
  {
    var rest := newPath[|path|..];
    CommonSuffix(path, rest, affix);
    assert newPath == path + rest;
    j := CommonLength(rest, affix);
    assert newPath[..|path| + j][|path|..] == rest[..j];
  }

  /** The frames of a fork: a further extension frame if the two paths share more bytes. */
  ghost function ForkFrames(fs: seq<Frame>, shared: Bytes): seq<Frame> {
    if shared == [] then fs else fs + [ExtFrame(shared)]
  }

  /** What hangs below the node that splits an extension after `j` bytes. */
  ghost function Shortened(u: Tree, j: nat): Tree
    requires u.Ext? && j < |u.affix|
  {
    if j + 1 < |u.affix| then Ext(u.affix[j + 1..], u.child) else u.child
  }

  lemma {:induction false} ForkExtensionPath(fs: seq<Frame>, affix: Bytes, key: Key) returns (j: nat)
    requires Path(fs) <= key && !(affix <= key[|Path(fs)|..]) && !(key[|Path(fs)|..] <= affix)
    ensures j == CommonLength(key[|Path(fs)|..], affix) && j < |affix| && |Path(fs)| + j < |key|
    ensures Path(ForkFrames(fs, affix[..j])) == key[..|Path(fs)| + j]
  {
    var d := |Path(fs)|;
    var rest := key[d..];
    j := CommonLength(rest, affix);
    ForkPath(fs, affix[..j]);
    assert Path(fs) + rest[..j] == key[..d + j];
  }

  lemma {:induction false} ForkExtensionTree(fs: seq<Frame>, u: Tree, key: Key, value: Value, j: nat)
    requires u.Ext? && Path(fs) <= key && CanGraft(u, key, |Path(fs)|)
    requires j == CommonLength(key[|Path(fs)|..], u.affix) && j < |u.affix| && |Path(fs)| + j < |key|
    ensures Plug(ForkFrames(fs, u.affix[..j]) + [BranchFrame(key[|Path(fs)| + j], map[u.affix[j] := Shortened(u, j)])], Leaf(key, value))
         == Plug(fs, Grafted(u, key, value, |Path(fs)|))
  {
    var c := key[|Path(fs)| + j];
    assert Grafted(u, key, value, |Path(fs)|) == Fork(u.affix[..j], u.affix[j], Shortened(u, j), c, Leaf(key, value));
    ForkAsFrames(fs, u.affix[..j], u.affix[j], Shortened(u, j), c, Leaf(key, value));
  }

  lemma {:induction false} BuildsCons(hash: Hash, s: Store, p: (Digest, Element), new_: seq<(Digest, Element)>, t: Tree)
    requires p.0 == hash(p.1) && Builds(hash, s[p.0 := p.1], new_, t)
    ensures Builds(hash, s, [p] + new_, t)
  {
    PutAllCons(s, p, new_);
  }

  lemma {:induction false} CommonSuffix(p: Bytes, a: Bytes, b: Bytes)
    ensures CommonLength(p + a, p + b) == |p| + CommonLength(a, b)
  {
    var n := CommonLength(a, b);
    assert (p + a)[..|p| + n] == p + a[..n] && (p + b)[..|p| + n] == p + b[..n];
    SharedAtLeast(p + a, p + b, |p| + n);
    var m := CommonLength(p + a, p + b);
    assert forall i | 0 <= i < m :: (p + a)[i] == (p + a)[..m][i] && (p + b)[i] == (p + b)[..m][i];
    if n < |a| && n < |b| {
      assert (p + a)[|p| + n] == a[n] && (p + b)[|p| + n] == b[n];
    }
  }

  lemma {:induction false} ForkPath(fs: seq<Frame>, shared: Bytes)
    ensures Path(ForkFrames(fs, shared)) == Path(fs) + shared
  {
    if shared == [] {
      assert Path(fs) + shared == Path(fs);
    } else {
      Snoc(fs, ExtFrame(shared));
    }
  }

  lemma {:induction false} ForkAsFrames(fs: seq<Frame>, shared: Bytes, b: byte, t: Tree, c: byte, leaf: Tree)
    ensures Plug(ForkFrames(fs, shared) + [BranchFrame(c, map[b := t])], leaf) == Plug(fs, Fork(shared, b, t, c, leaf))
  {
    Snoc(ForkFrames(fs, shared), BranchFrame(c, map[b := t]));
    if shared != [] {
      Snoc(fs, ExtFrame(shared));
    }
  }

  /** Refilling the hole of a parent with a pointer to `cur` shows the plugged tree. */
  lemma ShowsPlugged(s: Store, p: (byte, Element), f: Frame, top: (Digest, Element), cur: Tree, e: Element)
    requires ParentMatches(s, p, f) && Points(s, PointerTo(top.0, top.1), cur)
    requires f.ExtFrame? ==> !top.1.ELeaf?
    requires e == if f.BranchFrame? then ENode(p.1.pointers[p.0 := PointerTo(top.0, top.1)])
                  else EExt(p.1.affix, p.1.pointer.Update(top.0))
    ensures Shows(s, e, PlugOne(f, cur))
  {
    if f.BranchFrame? {
      assert e.pointers.Keys == f.others.Keys + {f.index};
      assert f.others[f.index := cur].Keys == f.others.Keys + {f.index};
    }
  }
}