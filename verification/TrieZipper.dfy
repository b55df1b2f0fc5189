/**
 A scan of the trie splits a tree into the subtree it stopped at and the frames above it
 (the `Parents` of the trie operations, shallow to deep). This module says what a change
 of the subtree does to the whole tree.
 */
module TrieZipper {
  import opened Bytes
  import opened TrieTree

  /** A parent with a hole: a node with the child at `index` taken out, or an extension. */
  datatype Frame =
    | BranchFrame(index: byte, others: map<byte, Tree>)
    | ExtFrame(affix: Bytes)

  ghost function FramePath(f: Frame): Bytes {
    match f
    case BranchFrame(i, _) => [i]
    case ExtFrame(a) => a
  }

  ghost function Path(fs: seq<Frame>): Bytes {
    if fs == [] then [] else Path(fs[..|fs| - 1]) + FramePath(fs[|fs| - 1])
  }

  ghost function PlugOne(f: Frame, t: Tree): Tree {
    match f
    case BranchFrame(i, others) => Branch(others[i := t])
    case ExtFrame(a) => Ext(a, t)
  }

  /** Fills the hole, from the deepest frame upwards. */
  ghost function Plug(fs: seq<Frame>, t: Tree): Tree {
    if fs == [] then t else Plug(fs[..|fs| - 1], PlugOne(fs[|fs| - 1], t))
  }

  lemma Snoc(fs: seq<Frame>, f: Frame)
    ensures Path(fs + [f]) == Path(fs) + FramePath(f)
    ensures forall t :: Plug(fs + [f], t) == Plug(fs, PlugOne(f, t))
  {
    assert (fs + [f])[..|fs|] == fs;
  }

  // ---- lookups ----

  lemma {:induction false} FindPlugOne(f: Frame, t: Tree, key: Key, depth: nat)
    requires depth <= |key|
    ensures FramePath(f) <= key[depth..] ==> Find(PlugOne(f, t), key, depth) == Find(t, key, depth + |FramePath(f)|)
    ensures !(FramePath(f) <= key[depth..]) ==> forall u :: Find(PlugOne(f, t), key, depth) == Find(PlugOne(f, u), key, depth)
  {
    match f
    case BranchFrame(i, others) =>
      assert FramePath(f) <= key[depth..] <==> depth < |key| && key[depth] == i;
    case ExtFrame(a) =>
      if depth + |a| <= |key| {
        assert key[depth..][..|a|] == key[depth..depth + |a|];
      }
  }

  /** A lookup reaches the hole exactly when the key extends the path of the frames. */
  lemma {:induction false} FindPlug(fs: seq<Frame>, t: Tree, key: Key)
    ensures Path(fs) <= key ==> Find(Plug(fs, t), key, 0) == Find(t, key, |Path(fs)|)
    ensures !(Path(fs) <= key) ==> forall u :: Find(Plug(fs, t), key, 0) == Find(Plug(fs, u), key, 0)
  {
    if fs != [] {
      var fs', f := fs[..|fs| - 1], fs[|fs| - 1];
      var p := Path(fs');
      FindPlug(fs', PlugOne(f, t), key);
      if p <= key {
        assert p + FramePath(f) <= key <==> FramePath(f) <= key[|p|..] by {
          assert key == p + key[|p|..];
        }
        FindPlugOne(f, t, key, |p|);
        forall u
          ensures !(Path(fs) <= key) ==> Find(Plug(fs, t), key, 0) == Find(Plug(fs, u), key, 0)
        {
          FindPlug(fs', PlugOne(f, u), key);
        }
      } else {
        assert !(Path(fs) <= key) by {
          if Path(fs) <= key {
            PrefixOfPrefix(p, Path(fs), key);
          }
        }
        forall u
          ensures Find(Plug(fs, t), key, 0) == Find(Plug(fs, u), key, 0)
        {
          assert Plug(fs, u) == Plug(fs', PlugOne(f, u));
        }
      }
    }
  }

  // ---- shape ----

  /** The shape conditions on the frames alone. */
  ghost predicate FramesWellFormed(fs: seq<Frame>) {
    fs != [] ==>
      var above, f := fs[..|fs| - 1], fs[|fs| - 1];
      && FramesWellFormed(above)
      && match f
         case BranchFrame(i, others) =>
           && i !in others
           && (above != [] ==> |others| >= 1)
           && forall b | b in others :: WellFormed(others[b], Path(above) + [b])
         case ExtFrame(a) => a != [] && above != [] && above[|above| - 1].BranchFrame?
  }

  /** What the subtree in the hole must satisfy. */
  ghost predicate Fits(fs: seq<Frame>, t: Tree) {
    if fs == [] then RootWellFormed(t)
    else WellFormed(t, Path(fs)) && (fs[|fs| - 1].ExtFrame? ==> t.Branch?)
  }

  lemma FitsOne(fs: seq<Frame>, f: Frame, t: Tree)
    requires FramesWellFormed(fs + [f]) && Fits(fs + [f], t)
    ensures FramesWellFormed(fs) && Fits(fs, PlugOne(f, t))
  {
    assert (fs + [f])[..|fs|] == fs;
    Snoc(fs, f);
    if f.BranchFrame? {
      var ch := f.others[f.index := t];
      assert ch.Keys == f.others.Keys + {f.index};
      forall b | b in ch
        ensures WellFormed(ch[b], Path(fs) + [b])
      {
      }
      if fs == [] {
        forall b | b in ch ensures WellFormed(ch[b], [b]) { assert [] + [b] == [b]; }
      }
    }
  }

  /** Well-formed frames around a fitting subtree make a well-formed trie. */
  lemma {:induction false} PlugWellFormed(fs: seq<Frame>, t: Tree)
    requires FramesWellFormed(fs) && Fits(fs, t)
    ensures RootWellFormed(Plug(fs, t))
  {
    if fs != [] {
      var fs', f := fs[..|fs| - 1], fs[|fs| - 1];
      assert fs == fs' + [f];
      FitsOne(fs', f, t);
      PlugWellFormed(fs', PlugOne(f, t));
    }
  }

  /** The children of a fitting node are well-formed below its path. */
  lemma ChildrenFit(fs: seq<Frame>, t: Tree)
    requires Fits(fs, t) && t.Branch?
    ensures forall b | b in t.children :: WellFormed(t.children[b], Path(fs) + [b])
  {
    if fs == [] {
      forall b | b in t.children ensures WellFormed(t.children[b], Path(fs) + [b]) { assert [] + [b] == [b]; }
    }
  }

  /** Stepping down into a child keeps the invariants. */
  lemma DescendBranch(fs: seq<Frame>, t: Tree, i: byte)
    requires FramesWellFormed(fs) && Fits(fs, t) && t.Branch? && i in t.children
    ensures var fs' := fs + [BranchFrame(i, t.children - {i})];
            FramesWellFormed(fs') && Fits(fs', t.children[i]) && Plug(fs', t.children[i]) == Plug(fs, t)
  {
    var f := BranchFrame(i, t.children - {i});
    Snoc(fs, f);
    ChildrenFit(fs, t);
    assert (fs + [f])[..|fs|] == fs;
    assert (t.children - {i})[i := t.children[i]] == t.children;
    assert (t.children - {i}).Keys == t.children.Keys - {i};
    assert |t.children.Keys - {i}| == |t.children.Keys| - 1;
  }

  lemma DescendExt(fs: seq<Frame>, t: Tree)
    requires FramesWellFormed(fs) && Fits(fs, t) && t.Ext?
    ensures var fs' := fs + [ExtFrame(t.affix)];
            FramesWellFormed(fs') && Fits(fs', t.child) && Plug(fs', t.child) == Plug(fs, t)
  {
    Snoc(fs, ExtFrame(t.affix));
    assert (fs + [ExtFrame(t.affix)])[..|fs|] == fs;
  }
}
