/**
 The local edits of the trie: what a write puts in place of the subtree its scan stopped
 at, and what a prune leaves once a leaf is gone. Each edit keeps the shape invariants and
 changes the denoted map at one key only.
 */
module TrieEdit {
  import opened Bytes
  import opened TrieTree
  import opened TrieZipper

  /** `u` denotes the map of `t` with `key` set to `entry` (`None`: absent). */
  ghost predicate Updates(t: Tree, u: Tree, key: Key, entry: Option<Value>) {
    forall k: Key :: Find(u, k, 0) == if k == key then entry else Find(t, k, 0)
  }

  /** The same, seen from a subtree at `path`. */
  ghost predicate UpdatesBelow(t: Tree, u: Tree, path: Bytes, key: Key, entry: Option<Value>) {
    forall k: Key | path <= k :: Find(u, k, |path|) == if k == key then entry else Find(t, k, |path|)
  }

  lemma EditInHole(fs: seq<Frame>, t: Tree, u: Tree, key: Key, entry: Option<Value>)
    requires Path(fs) <= key && UpdatesBelow(t, u, Path(fs), key, entry)
    ensures Updates(Plug(fs, t), Plug(fs, u), key, entry)
  {
    forall k: Key
      ensures Find(Plug(fs, u), k, 0) == if k == key then entry else Find(Plug(fs, t), k, 0)
    {
      FindPlug(fs, t, k);
      FindPlug(fs, u, k);
    }
  }

  /** No stored key is a prefix of `key`, or `key` of it, unless they are equal. */
  ghost predicate Compatible(t: Tree, key: Key) {
    key != [] && forall k | k in Keys(t) && (k <= key || key <= k) :: k == key
  }

  lemma {:induction false} LeavesOfPlug(fs: seq<Frame>, t: Tree)
    ensures Leaves(t) <= Leaves(Plug(fs, t))
  {
    if fs != [] {
      var f := fs[|fs| - 1];
      LeavesOfPlug(fs[..|fs| - 1], PlugOne(f, t));
      assert Leaves(t) <= Leaves(PlugOne(f, t)) by {
        if f.BranchFrame? {
          var ch := f.others[f.index := t];
          forall e | e in Leaves(t) ensures e in Leaves(Branch(ch)) { assert f.index in ch && e in Leaves(ch[f.index]); }
        }
      }
    }
  }

  lemma CompatibleBelow(fs: seq<Frame>, t: Tree, key: Key)
    requires Compatible(Plug(fs, t), key)
    ensures Compatible(t, key)
  {
    LeavesOfPlug(fs, t);
    assert Keys(t) <= Keys(Plug(fs, t)) by {
      forall e | e in Leaves(t) ensures e.0 in Keys(Plug(fs, t)) { }
    }
  }

  /** A compatible key always has a byte left to branch on. */
  lemma KeyGoesOn(fs: seq<Frame>, t: Tree, key: Key)
    requires t.Branch? && Fits(fs, t) && Path(fs) <= key && Compatible(t, key)
    ensures |Path(fs)| < |key|
  {
    var path := Path(fs);
    ChildrenFit(fs, t);
    if |path| == |key| {
      assert path == key;
      if t.children != map[] {
        var b :| b in t.children;
        var e := HasLeaf(t.children[b], path + [b]);
        assert e in Leaves(t);
        assert e.0 in Keys(t);
        ChildLeaf(t.children, b, path, e);
      }
    }
  }

  // ---- write ----

  /** Where a scan for `key` stops at `depth`. */
  ghost predicate Stops(t: Tree, key: Key, depth: nat) {
    match t
    case Leaf(_, _) => true
    case Branch(ch) => depth < |key| && key[depth] !in ch
    case Ext(a, _) => depth <= |key| && !(a <= key[depth..])
  }

  /** A node with two children, below an extension when the two share further bytes. */
  ghost function Fork(shared: Bytes, b: byte, t: Tree, c: byte, u: Tree): Tree {
    var node := Branch(map[b := t][c := u]);
    if shared == [] then node else Ext(shared, node)
  }

  /** The scan stopped at `depth`, and the key and the subtree part ways further down. */
  ghost predicate CanGraft(t: Tree, key: Key, depth: nat) {
    && depth <= |key| && Stops(t, key, depth)
    && (t.Leaf? && t.key != key ==>
          !(t.key <= key) && !(key <= t.key) && depth <= |t.key| && t.key[..depth] == key[..depth])
    && (t.Ext? ==> !(key[depth..] <= t.affix))
  }

  /** The subtree with the new leaf: replaced, forked off, added or split in. */
  ghost function Grafted(t: Tree, key: Key, value: Value, depth: nat): Tree
    requires CanGraft(t, key, depth)
  {
    var leaf := Leaf(key, value);
    match t
    case Leaf(k, _) =>
      if k == key then leaf
      else
        var s := CommonLength(key, k);
        SharedAtLeast(key, k, depth);
        Fork(key[depth..s], k[s], t, key[s], leaf)
    case Branch(ch) => Branch(ch[key[depth] := leaf])
    case Ext(a, c) =>
      var j := CommonLength(key[depth..], a);
      Fork(a[..j], a[j], if j + 1 < |a| then Ext(a[j + 1..], c) else c, key[depth + j], leaf)
  }

  lemma SharedAtLeast(a: Bytes, b: Bytes, n: nat)
    requires n <= |a| && n <= |b| && a[..n] == b[..n]
    ensures CommonLength(a, b) >= n
  {
    assert forall i | 0 <= i < n :: a[i] == a[..n][i] && b[i] == b[..n][i];
  }

  lemma {:induction false} ForkFits(fs: seq<Frame>, shared: Bytes, b: byte, t: Tree, c: byte, u: Tree)
    requires fs != [] && (shared != [] ==> fs[|fs| - 1].BranchFrame?)
    requires b != c
    requires WellFormed(t, Path(fs) + shared + [b]) && WellFormed(u, Path(fs) + shared + [c])
    ensures Fits(fs, Fork(shared, b, t, c, u))
  {
    var ch := map[b := t][c := u];
    assert ch.Keys == {b, c};
    assert |ch.Keys| == 2;
    assert WellFormed(Branch(ch), Path(fs) + shared);
    if shared == [] {
      assert Path(fs) + shared == Path(fs);
    }
  }

  lemma {:induction false} ForkFinds(shared: Bytes, b: byte, t: Tree, c: byte, u: Tree, key: Key, depth: nat)
    requires depth <= |key| && b != c
    ensures Find(Fork(shared, b, t, c, u), key, depth)
         == if shared + [b] <= key[depth..] then Find(t, key, depth + |shared| + 1)
            else if shared + [c] <= key[depth..] then Find(u, key, depth + |shared| + 1)
            else None
  {
    var rest := key[depth..];
    var ch := map[b := t][c := u];
    var n := |shared|;
    if shared <= rest {
      assert rest[..n] == key[depth..depth + n] == shared;
      assert forall x: byte :: shared + [x] <= rest <==> n < |rest| && rest[n] == x;
      assert n < |rest| ==> rest[n] == key[depth + n];
    } else {
      assert forall x: byte :: !(shared + [x] <= rest) by {
        forall x: byte | shared + [x] <= rest ensures false { PrefixOfPrefix(shared, shared + [x], rest); }
      }
      if depth + n <= |key| {
        assert key[depth..depth + n] == rest[..n];
      }
    }
  }

  /** A compatible key parts ways with the subtree the scan stopped at. */
  lemma GraftReady(t: Tree, path: Bytes, key: Key)
    requires path <= key && Compatible(t, key) && Stops(t, key, |path|)
    requires !t.Branch? ==> WellFormed(t, path)
    ensures CanGraft(t, key, |path|)
  {
    if t.Leaf? {
      assert (t.key, t.value) in Leaves(t);
      assert t.key in Keys(t);
    } else if t.Ext? {
      if key[|path|..] <= t.affix {
        assert key == path + key[|path|..];
        var e := HasLeaf(t.child, path + t.affix);
        assert e in Leaves(t);
        assert e.0 in Keys(t);
        PrefixOfPrefix(key, path + t.affix, e.0);
      }
    }
  }

  lemma {:induction false} GraftLeafFits(fs: seq<Frame>, t: Tree, key: Key, value: Value)
    requires Fits(fs, t) && t.Leaf? && t.key != key && CanGraft(t, key, |Path(fs)|) && Path(fs) <= key
    ensures Fits(fs, Grafted(t, key, value, |Path(fs)|))
  {
    var path, k := Path(fs), t.key;
    var d, s := |path|, CommonLength(key, k);
    SharedAtLeast(key, k, d);
    hide CommonLength, Fork, Path;
    assert path + key[d..s] == key[..s];
    PrefixStep(key[..s], key);
    PrefixStep(key[..s], k);
    ForkFits(fs, key[d..s], k[s], t, key[s], Leaf(key, value));
  }

  lemma {:induction false} GraftBranchFits(fs: seq<Frame>, t: Tree, key: Key, value: Value)
    requires Fits(fs, t) && t.Branch? && Path(fs) <= key && Stops(t, key, |Path(fs)|)
    ensures Fits(fs, Grafted(t, key, value, |Path(fs)|))
  {
    var path := Path(fs);
    var b := key[|path|];
    ChildrenFit(fs, t);
    var ch := t.children[b := Leaf(key, value)];
    assert ch.Keys == t.children.Keys + {b};
    assert path + [b] == key[..|path| + 1];
    assert forall c | c in ch :: WellFormed(ch[c], path + [c]);
    if fs == [] {
      forall c | c in ch ensures WellFormed(ch[c], [c]) { assert [] + [c] == [c]; }
    }
  }

  lemma {:induction false} GraftExtFits(fs: seq<Frame>, t: Tree, key: Key, value: Value)
    requires Fits(fs, t) && t.Ext? && CanGraft(t, key, |Path(fs)|) && Path(fs) <= key
    ensures Fits(fs, Grafted(t, key, value, |Path(fs)|))
  {
    var path, a, c := Path(fs), t.affix, t.child;
    var d := |path|;
    var rest := key[d..];
    var j := CommonLength(rest, a);
    assert path + a[..j] + [rest[j]] <= key by {
      CutAt(path, rest, j);
      assert key == path + rest;
    }
    var old' := if j + 1 < |a| then Ext(a[j + 1..], c) else c;
    CutAt(path, a, j);
    assert WellFormed(old', path + a[..j] + [a[j]]);
    hide WellFormed, Fits, CommonLength;
    ForkFits(fs, a[..j], a[j], old', key[d + j], Leaf(key, value));
  }

  /** The edit of a write keeps the shape. */
  lemma {:induction false} GraftFits(fs: seq<Frame>, t: Tree, key: Key, value: Value)
    requires FramesWellFormed(fs) && Fits(fs, t)
    requires Path(fs) <= key && Compatible(t, key) && Stops(t, key, |Path(fs)|)
    ensures CanGraft(t, key, |Path(fs)|) && Fits(fs, Grafted(t, key, value, |Path(fs)|))
  {
    GraftReady(t, Path(fs), key);
    match t
    case Leaf(k, _) => if k != key { GraftLeafFits(fs, t, key, value); }
    case Branch(_) => GraftBranchFits(fs, t, key, value);
    case Ext(_, _) => GraftExtFits(fs, t, key, value);
  }

  lemma {:induction false} GraftLeafFinds(t: Tree, path: Bytes, key: Key, value: Value, k: Key)
    requires t.Leaf? && t.key != key && CanGraft(t, key, |path|) && path <= key && path <= k
    ensures Find(Grafted(t, key, value, |path|), k, |path|) == if k == key then Some(value) else Find(t, k, |path|)
  {
    var d, s, k0 := |path|, CommonLength(key, t.key), t.key;
    SharedAtLeast(key, k0, d);
    var shared, z := key[d..s], k[d..];
    assert k0[d..s] == shared by { assert key[..s] == k0[..s]; }
    ForkFinds(shared, k0[s], t, key[s], Leaf(key, value), k, d);
    SliceStep(key, d, s);
    SliceStep(k0, d, s);
    OneWayOn(shared, k0[s], key[s], z);
  }

  lemma {:induction false} GraftExtFinds(t: Tree, path: Bytes, key: Key, value: Value, k: Key)
    requires t.Ext? && CanGraft(t, key, |path|) && path <= key && path <= k
    ensures Find(Grafted(t, key, value, |path|), k, |path|) == if k == key then Some(value) else Find(t, k, |path|)
  {
    hide CommonLength, Fork;
    var d, a, c := |path|, t.affix, t.child;
    var rest := key[d..];
    var j := CommonLength(rest, a);
    var old' := if j + 1 < |a| then Ext(a[j + 1..], c) else c;
    assert key[d + j] == rest[j];
    var shared, z, leaf := a[..j], k[d..], Leaf(key, value);
    ForkFinds(shared, a[j], old', rest[j], leaf, k, d);
    SplitFinds(a, j, c, k, d);
    assert Find(leaf, k, d + j + 1) == if k == key then Some(value) else None;
    hide Find;
    assert shared + [rest[j]] <= rest by { SliceStep(rest, 0, j); }
    OneWayOn(shared, a[j], rest[j], z);
  }

  /** The edit of a write changes the denoted map at `key` only. */
  lemma {:induction false} GraftUpdates(t: Tree, path: Bytes, key: Key, value: Value)
    requires path <= key && Compatible(t, key) && Stops(t, key, |path|)
    requires !t.Branch? ==> WellFormed(t, path)
    ensures CanGraft(t, key, |path|) && UpdatesBelow(t, Grafted(t, key, value, |path|), path, key, Some(value))
  {
    GraftReady(t, path, key);
    forall k: Key | path <= k
      ensures Find(Grafted(t, key, value, |path|), k, |path|) == if k == key then Some(value) else Find(t, k, |path|)
    {
      match t
      case Leaf(k0, _) => if k0 != key { GraftLeafFinds(t, path, key, value, k); }
      case Branch(ch) =>
      case Ext(_, _) => GraftExtFinds(t, path, key, value, k);
    }
  }

  /** Cutting an extension in two does not change what it leads to. */
  lemma {:induction false} SplitFinds(a: Bytes, j: nat, c: Tree, key: Key, depth: nat)
    requires j < |a| && depth <= |key|
    ensures Find(Ext(a, c), key, depth)
         == if a[..j] + [a[j]] <= key[depth..]
            then Find(if j + 1 < |a| then Ext(a[j + 1..], c) else c, key, depth + j + 1)
            else None
  {
    if depth + |a| <= |key| {
      InTwoParts(a, j, key, depth);
    }
  }

  // ---- prune ----

  /**
   A prune in progress: `cur` stands where the frames `fs` leave their hole, and filling
   the hole would denote the map of `t` without `key`. `cur` may still be an extension
   below an extension, which the next step merges.
   */
  ghost predicate Pruning(t: Tree, key: Key, fs: seq<Frame>, cur: Tree) {
    && FramesWellFormed(fs)
    && (if fs == [] then RootWellFormed(cur) else WellFormed(cur, Path(fs)))
    && Updates(t, Plug(fs, cur), key, None)
  }

  lemma {:induction false} PruneInHole(t: Tree, key: Key, fs: seq<Frame>, u: Tree, cur: Tree)
    requires t == Plug(fs, u) && FramesWellFormed(fs) && Path(fs) <= key
    requires if fs == [] then RootWellFormed(cur) else WellFormed(cur, Path(fs))
    requires UpdatesBelow(u, cur, Path(fs), key, None)
    ensures Pruning(t, key, fs, cur)
  {
    EditInHole(fs, u, cur, key, None);
  }

  /** The parent keeps at least two children, or is the root: it just loses the pointer. */
  lemma {:induction false} PruneChild(t: Tree, fs: seq<Frame>, f: Frame, leaf: Tree)
    requires f.BranchFrame? && FramesWellFormed(fs + [f]) && leaf.Leaf? && Fits(fs + [f], leaf)
    requires t == Plug(fs + [f], leaf) && (fs == [] || |f.others| >= 2)
    ensures Pruning(t, leaf.key, fs, Branch(f.others))
  {
    var path, key := Path(fs), leaf.key;
    Snoc(fs, f);
    assert (fs + [f])[..|fs|] == fs;
    PrefixOfPrefix(path, path + [f.index], key);
    assert key[|path|] == (path + [f.index])[|path|];
    if fs == [] {
      forall b | b in f.others ensures WellFormed(f.others[b], [b]) { assert [] + [b] == [b]; }
    }
    PruneInHole(t, key, fs, PlugOne(f, leaf), Branch(f.others));
  }

  /** What takes the place of a node left with the single child `s` at index `j`. */
  ghost function Collapsed(j: byte, s: Tree): Tree {
    match s
    case Leaf(_, _) => s
    case Branch(_) => Ext([j], s)
    case Ext(a, c) => Ext([j] + a, c)
  }

  lemma {:induction false} MergeFinds(a: Bytes, b: Bytes, c: Tree, key: Key, depth: nat)
    requires depth <= |key|
    ensures Find(Ext(a + b, c), key, depth) == Find(Ext(a, Ext(b, c)), key, depth)
  {
    var n, m := |a|, |b|;
    if depth + n + m <= |key| {
      var x := key[depth..depth + n + m];
      assert x == key[depth..depth + n] + key[depth + n..depth + n + m];
      assert x[..n] == key[depth..depth + n] && x[n..] == key[depth + n..depth + n + m];
      assert (a + b)[..n] == a && (a + b)[n..] == b;
    }
  }

  lemma {:induction false} CollapseFinds(j: byte, s: Tree, path: Bytes, key: Key)
    requires WellFormed(s, path + [j]) && path <= key
    ensures Find(Collapsed(j, s), key, |path|) == Find(Branch(map[j := s]), key, |path|)
  {
    var d := |path|;
    assert d < |key| ==> key[d..d + 1] == [key[d]];
    match s
    case Leaf(k, _) => assert k[d] == (path + [j])[d];
    case Branch(_) =>
    case Ext(a, c) => MergeFinds([j], a, c, key, d);
  }

  /** The parent keeps a single child: the child moves up into its place. */
  lemma {:induction false} PruneCollapse(t: Tree, fs: seq<Frame>, f: Frame, leaf: Tree, j: byte)
    requires f.BranchFrame? && FramesWellFormed(fs + [f]) && leaf.Leaf? && Fits(fs + [f], leaf)
    requires t == Plug(fs + [f], leaf) && fs != [] && f.others.Keys == {j}
    ensures Pruning(t, leaf.key, fs, Collapsed(j, f.others[j]))
  {
    var path, key, s := Path(fs), leaf.key, f.others[j];
    Snoc(fs, f);
    assert (fs + [f])[..|fs|] == fs;
    PrefixOfPrefix(path, path + [f.index], key);
    assert key[|path|] == (path + [f.index])[|path|];
    assert f.others == map[j := s];
    assert path + ([j] + (if s.Ext? then s.affix else [])) == path + [j] + (if s.Ext? then s.affix else []);
    assert WellFormed(s, path + [j]);
    if s.Leaf? { PrefixOfPrefix(path, path + [j], s.key); }
    forall k: Key | path <= k
      ensures Find(Collapsed(j, s), k, |path|) == if k == key then None else Find(PlugOne(f, leaf), k, |path|)
    {
      CollapseFinds(j, s, path, k);
    }
    PruneInHole(t, key, fs, PlugOne(f, leaf), Collapsed(j, s));
  }

  /** One step up through a node. */
  lemma {:induction false} PruneUpBranch(t: Tree, key: Key, fs: seq<Frame>, f: Frame, cur: Tree)
    requires f.BranchFrame? && Pruning(t, key, fs + [f], cur)
    ensures Pruning(t, key, fs, PlugOne(f, cur))
  {
    FitsOne(fs, f, cur);
    Snoc(fs, f);
  }

  /** What an extension and the subtree below it become: an extension above a leaf goes, two in a row are joined. */
  ghost function Joined(a: Bytes, cur: Tree): Tree {
    match cur
    case Leaf(_, _) => cur
    case Branch(_) => Ext(a, cur)
    case Ext(b, c) => Ext(a + b, c)
  }

  lemma {:induction false} JoinedFinds(a: Bytes, cur: Tree, path: Bytes, k: Key)
    requires WellFormed(cur, path + a) && path <= k
    ensures Find(Joined(a, cur), k, |path|) == Find(Ext(a, cur), k, |path|)
  {
    match cur
    case Leaf(k0, _) => if k == k0 { assert (path + a)[|path|..] == k[|path|..|path| + |a|]; }
    case Branch(_) =>
    case Ext(b, c) => MergeFinds(a, b, c, k, |path|);
  }

  lemma {:induction false} JoinedFits(a: Bytes, cur: Tree, path: Bytes)
    requires WellFormed(cur, path + a) && a != []
    ensures WellFormed(Joined(a, cur), path)
  {
    match cur
    case Leaf(k, _) => PrefixOfPrefix(path, path + a, k);
    case Branch(_) =>
    case Ext(b, c) => assert path + (a + b) == path + a + b;
  }

  lemma {:induction false} PruneUpExt(t: Tree, key: Key, fs: seq<Frame>, a: Bytes, cur: Tree)
    requires Pruning(t, key, fs + [ExtFrame(a)], cur)
    ensures Pruning(t, key, fs, Joined(a, cur))
  {
    var f, path := ExtFrame(a), Path(fs);
    Snoc(fs, f);
    assert (fs + [f])[..|fs|] == fs;
    JoinedFits(a, cur, path);
    forall k: Key
      ensures Find(Plug(fs, Joined(a, cur)), k, 0) == Find(Plug(fs + [f], cur), k, 0)
    {
      FindPlug(fs, Joined(a, cur), k);
      FindPlug(fs, Ext(a, cur), k);
      if path <= k {
        JoinedFinds(a, cur, path, k);
      }
    }
  }
}
