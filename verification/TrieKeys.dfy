/**
 The key iterator behind prefix queries: an explicit stack of visited elements, and a
 queue of prefix bytes still to descend.
 */
module TrieKeys {
  import opened Bytes
  import opened TrieTree
  import opened TrieStore

  // ---- the entries of a tree, in key order ----

  ghost function Entries(t: Tree): seq<(Key, Value)>
    decreases t, 257
  {
    match t
    case Leaf(k, v) => [(k, v)]
    case Branch(ch) => EntriesFrom(ch, 0)
    case Ext(_, c) => Entries(c)
  }

  ghost function EntriesFrom(ch: map<byte, Tree>, i: nat): seq<(Key, Value)>
    requires i <= 256
    decreases Branch(ch), 256 - i
  {
    if i == 256 then []
    else (if i as byte in ch then Entries(ch[i as byte]) else []) + EntriesFrom(ch, i + 1)
  }

  ghost function Match(e: (Key, Value), prefix: Bytes): seq<Key> {
    if prefix <= e.0 + e.1 then [e.0] else []
  }

  /** The keys whose leaf bytes, key and then value, start with the prefix. */
  ghost function Matching(es: seq<(Key, Value)>, prefix: Bytes): seq<Key> {
    if es == [] then [] else Match(es[0], prefix) + Matching(es[1..], prefix)
  }

  lemma {:induction false} MatchingConcat(es: seq<(Key, Value)>, fs: seq<(Key, Value)>, prefix: Bytes)
    ensures Matching(es + fs, prefix) == Matching(es, prefix) + Matching(fs, prefix)
  {
    if es == [] {
      assert es + fs == fs;
    } else {
      hide Match;
      MatchingConcat(es[1..], fs, prefix);
      assert (es + fs)[0] == es[0] && (es + fs)[1..] == es[1..] + fs;
      Assoc(Match(es[0], prefix), Matching(es[1..], prefix), Matching(fs, prefix));
    }
  }

  lemma {:induction false} MatchingAll(es: seq<(Key, Value)>, prefix: Bytes, shorter: Bytes)
    requires forall e | e in es :: prefix <= e.0 && shorter <= e.0
    ensures Matching(es, prefix) == Matching(es, shorter)
  {
    if es != [] {
      assert es[0] in es && forall e | e in es[1..] :: e in es;
      assert prefix <= es[0].0 + es[0].1 && shorter <= es[0].0 + es[0].1;
      MatchingAll(es[1..], prefix, shorter);
    }
  }

  lemma {:induction false} MatchingNone(es: seq<(Key, Value)>, prefix: Bytes)
    requires forall e | e in es :: !(prefix <= e.0 + e.1)
    ensures Matching(es, prefix) == []
  {
    if es != [] {
      assert es[0] in es && forall e | e in es[1..] :: e in es;
      MatchingNone(es[1..], prefix);
    }
  }

  lemma {:induction false} EntriesAreLeaves(t: Tree, e: (Key, Value))
    ensures e in Entries(t) <==> e in Leaves(t)
    decreases t, 257
  {
    match t
    case Leaf(_, _) =>
    case Branch(ch) => EntriesFromAreLeaves(ch, 0, e);
    case Ext(_, c) => EntriesAreLeaves(c, e);
  }

  lemma {:induction false} EntriesFromAreLeaves(ch: map<byte, Tree>, i: nat, e: (Key, Value))
    requires i <= 256
    ensures e in EntriesFrom(ch, i) <==> exists b: byte :: b in ch && i <= b as int && e in Leaves(ch[b])
    decreases Branch(ch), 256 - i
  {
    if i < 256 {
      EntriesFromAreLeaves(ch, i + 1, e);
      if i as byte in ch {
        EntriesAreLeaves(ch[i as byte], e);
      }
    }
  }

  /** A tree at its place: below the root, or the root itself. */
  ghost predicate Sits(t: Tree, path: Bytes) {
    if path == [] then RootWellFormed(t) else WellFormed(t, path)
  }

  lemma SitsChildren(t: Tree, path: Bytes)
    requires Sits(t, path)
    ensures t.Branch? ==> forall b | b in t.children :: WellFormed(t.children[b], path + [b]) && Sits(t.children[b], path + [b])
    ensures t.Ext? ==> WellFormed(t.child, path + t.affix) && Sits(t.child, path + t.affix)
  {
    if t.Branch? && path == [] {
      forall b | b in t.children ensures WellFormed(t.children[b], path + [b]) { assert [] + [b] == [b]; }
    }
  }

  lemma EntriesExtendPath(t: Tree, path: Bytes)
    requires WellFormed(t, path)
    ensures forall e | e in Entries(t) :: path <= e.0
  {
    forall e | e in Entries(t) ensures path <= e.0 { EntriesAreLeaves(t, e); LeavesExtendPath(t, path, e); }
  }

  /** Descending into a node: only the child at the next prefix byte can match. */
  lemma {:induction false} MatchingInBranch(ch: map<byte, Tree>, i: nat, path: Bytes, prefix: Bytes)
    requires i <= 256 && forall b | b in ch :: WellFormed(ch[b], path + [b])
    requires path <= prefix && |path| < |prefix|
    ensures var b := prefix[|path|];
            Matching(EntriesFrom(ch, i), prefix) == if b in ch && i <= b as int then Matching(Entries(ch[b]), prefix) else []
    decreases 256 - i
  {
    if i < 256 {
      var c := i as byte;
      MatchingInBranch(ch, i + 1, path, prefix);
      if c in ch {
        MatchingConcat(Entries(ch[c]), EntriesFrom(ch, i + 1), prefix);
        if c != prefix[|path|] {
          forall e | e in Entries(ch[c])
            ensures !(prefix <= e.0 + e.1)
          {
            EntriesAreLeaves(ch[c], e);
            ChildLeaf(ch, c, path, e);
            assert (e.0 + e.1)[|path|] == c;
          }
          MatchingNone(Entries(ch[c]), prefix);
        } else {
          assert Matching(Entries(ch[c]), prefix) + [] == Matching(Entries(ch[c]), prefix);
        }
      } else {
        assert [] + EntriesFrom(ch, i + 1) == EntriesFrom(ch, i + 1);
      }
    }
  }

  lemma {:induction false} MatchingInExt(t: Tree, path: Bytes, descend: Bytes)
    requires WellFormed(t, path) && t.Ext?
    ensures var n := if |descend| < |t.affix| then |descend| else |t.affix|;
            Matching(Entries(t), path + descend) ==
            if descend[..n] <= t.affix then Matching(Entries(t.child), path + t.affix + descend[n..]) else []
  {
    var a, c := t.affix, t.child;
    var n := if |descend| < |a| then |descend| else |a|;
    var prefix := path + descend;
    EntriesExtendPath(c, path + a);
    if descend[..n] <= a {
      if n == |a| {
        assert descend == a + descend[n..];
        assert prefix == path + a + descend[n..];
      } else {
        assert descend[n..] == [] && descend[..n] == descend;
        assert path + a + descend[n..] == path + a;
        forall e | e in Entries(c)
          ensures prefix <= e.0
        {
          assert prefix <= path + a;
          PrefixOfPrefix(prefix, path + a, e.0);
        }
        MatchingAll(Entries(c), prefix, path + a);
      }
    } else {
      var m :| 0 <= m < n && descend[m] != a[m];
      forall e | e in Entries(c)
        ensures !(prefix <= e.0 + e.1)
      {
        assert (path + a)[|path| + m] == a[m] && (e.0 + e.1)[|path| + m] == a[m];
        assert prefix[|path| + m] == descend[m];
      }
      MatchingNone(Entries(c), prefix);
    }
  }

  // ---- the iterator ----

  datatype Visited = Visited(element: Element, index: Option<nat>, path: Bytes)

  ghost function IndexOf(v: Visited): nat {
    if v.index.Some? then v.index.value else 0
  }

  /** The entries a visited element still has to deliver. */
  ghost function Left(v: Visited, t: Tree): seq<(Key, Value)> {
    if t.Branch? && IndexOf(v) <= 256 then EntriesFrom(t.children, IndexOf(v)) else Entries(t)
  }

  ghost function KeysLeft(vs: seq<Visited>, ts: seq<Tree>): seq<Key>
    requires |vs| == |ts|
  {
    if vs == [] then []
    else Matching(Left(vs[|vs| - 1], ts[|vs| - 1]), vs[|vs| - 1].path) + KeysLeft(vs[..|vs| - 1], ts[..|vs| - 1])
  }

  /** What the iterator will deliver: while it descends, the matches below its only element. */
  ghost function Remaining(vs: seq<Visited>, ts: seq<Tree>, descend: Bytes): seq<Key>
    requires |vs| == |ts|
  {
    if descend == [] then KeysLeft(vs, ts)
    else if vs == [] then []
    else Matching(Entries(ts[0]), vs[0].path + descend)
  }

  ghost predicate ValidVisit(s: Store, v: Visited, t: Tree) {
    Shows(s, v.element, t) && Sits(t, v.path) && (v.index.Some? ==> t.Branch? && v.index.value <= 256)
  }

  // Sizes, for termination.

  ghost function Size(t: Tree): nat
    decreases t, 257
  {
    match t
    case Leaf(_, _) => 1
    case Branch(ch) => 1 + SizeFrom(ch, 0)
    case Ext(_, c) => 1 + Size(c)
  }

  ghost function SizeFrom(ch: map<byte, Tree>, i: nat): nat
    requires i <= 256
    decreases Branch(ch), 256 - i
  {
    if i == 256 then 0
    else (if i as byte in ch then 1 + Size(ch[i as byte]) else 0) + SizeFrom(ch, i + 1)
  }

  ghost function VisitSize(v: Visited, t: Tree): nat {
    if t.Branch? && IndexOf(v) <= 256 then 1 + SizeFrom(t.children, IndexOf(v)) else Size(t)
  }

  ghost function StackSize(vs: seq<Visited>, ts: seq<Tree>): nat
    requires |vs| == |ts|
  {
    if vs == [] then 0 else VisitSize(vs[|vs| - 1], ts[|vs| - 1]) + StackSize(vs[..|vs| - 1], ts[..|vs| - 1])
  }

  lemma Push(vs: seq<Visited>, ts: seq<Tree>, v: Visited, t: Tree)
    requires |vs| == |ts|
    ensures KeysLeft(vs + [v], ts + [t]) == Matching(Left(v, t), v.path) + KeysLeft(vs, ts)
    ensures StackSize(vs + [v], ts + [t]) == VisitSize(v, t) + StackSize(vs, ts)
  {
    assert (vs + [v])[..|vs|] == vs && (ts + [t])[..|vs|] == ts;
  }

  lemma LeftOfFresh(e: Element, path: Bytes, t: Tree)
    ensures Left(Visited(e, None, path), t) == Entries(t) && VisitSize(Visited(e, None, path), t) == Size(t)
  {
  }

  lemma OneFresh(e: Element, path: Bytes, t: Tree)
    ensures var v := Visited(e, None, path);
            KeysLeft([v], [t]) == Matching(Entries(t), path) && StackSize([v], [t]) == Size(t)
  {
    var v := Visited(e, None, path);
    LeftOfFresh(e, path, t);
    Push([], [], v, t);
    assert [] + [v] == [v] && [] + [t] == [t];
    assert Matching(Entries(t), path) + [] == Matching(Entries(t), path);
  }

  /** One step of the descent through a node. */
  lemma {:induction false} DescendNode(v: Visited, t: Tree, descend: Bytes, child: Element)
    requires t.Branch? && Sits(t, v.path) && descend != []
    ensures var b := descend[0];
            Remaining([v], [t], descend) ==
            if b in t.children then Remaining([Visited(child, None, v.path + [b])], [t.children[b]], descend[1..]) else []
  {
    var b, rest := descend[0], descend[1..];
    var prefix := v.path + descend;
    SitsChildren(t, v.path);
    MatchingInBranch(t.children, 0, v.path, prefix);
    assert Entries(t) == EntriesFrom(t.children, 0);
    hide KeysLeft, Matching, Entries, EntriesFrom, Sits;
    assert descend == [b] + rest && prefix[|v.path|] == b;
    Assoc(v.path, [b], rest);
    if b in t.children {
      OneFresh(child, v.path + [b], t.children[b]);
      assert rest == [] ==> prefix == v.path + [b];
    }
  }

  /** One step through an extension, descending or not. */
  lemma {:induction false} ThroughExt(vs: seq<Visited>, ts: seq<Tree>, v: Visited, t: Tree, descend: Bytes, child: Element)
    requires |vs| == |ts| && (descend != [] ==> vs == []) && t.Ext? && WellFormed(t, v.path)
    ensures var n := if |descend| < |t.affix| then |descend| else |t.affix|;
            Remaining(vs + [v], ts + [t], descend) ==
            if descend[..n] <= t.affix then Remaining(vs + [Visited(child, None, v.path + t.affix)], ts + [t.child], descend[n..])
            else []
  {
    var n := if |descend| < |t.affix| then |descend| else |t.affix|;
    var w, c := Visited(child, None, v.path + t.affix), t.child;
    MatchingInExt(t, v.path, descend);
    LeftOfFresh(child, v.path + t.affix, c);
    Push(vs, ts, v, t);
    Push(vs, ts, w, c);
    assert descend == [] ==> v.path + descend == v.path && descend[..n] == [];
    assert descend[n..] == [] ==> v.path + t.affix + descend[n..] == v.path + t.affix;
    assert descend != [] ==> vs + [v] == [v] && ts + [t] == [t] && vs + [w] == [w] && ts + [c] == [c];
    assert descend != [] ==> Matching(Entries(c), v.path + t.affix) + [] == Matching(Entries(c), v.path + t.affix);
  }

  /** A leaf is delivered if its bytes start with the path and what is left to descend. */
  lemma {:induction false} AtLeaf(vs: seq<Visited>, ts: seq<Tree>, v: Visited, t: Tree, descend: Bytes)
    requires |vs| == |ts| && (descend != [] ==> vs == []) && t.Leaf?
    ensures Remaining(vs + [v], ts + [t], descend) ==
            (if v.path + descend <= t.key + t.value then [t.key] else []) + Remaining(vs, ts, descend)
    ensures StackSize(vs, ts) < StackSize(vs + [v], ts + [t])
  {
    Push(vs, ts, v, t);
    var es := Entries(t);
    assert es == [(t.key, t.value)] && es[1..] == [];
    assert Matching(es, v.path + descend) == (if v.path + descend <= t.key + t.value then [t.key] else []) + [];
    assert VisitSize(v, t) == 1 && Left(v, t) == es;
    hide KeysLeft, StackSize, VisitSize, Left, Matching;
    assert descend == [] ==> v.path + descend == v.path;
    assert descend != [] ==> vs + [v] == [v] && ts + [t] == [t];
  }

  /** No index of the set lies between `i` and `j`. */
  ghost predicate Vacant(indices: set<byte>, i: nat, j: nat) {
    forall b | b in indices :: !(i <= b as nat < j)
  }

  /** The next child of a node, at the smallest index from `i` on. */
  lemma {:induction false} NextChild(ch: map<byte, Tree>, i: nat, j: nat)
    requires i <= j <= 256 && Vacant(ch.Keys, i, j)
    ensures EntriesFrom(ch, i) == EntriesFrom(ch, j) && SizeFrom(ch, i) == SizeFrom(ch, j)
    decreases j - i
  {
    if i < j {
      NextChild(ch, i + 1, j);
      assert [] + EntriesFrom(ch, i + 1) == EntriesFrom(ch, i + 1);
    }
  }

  lemma {:induction false} IntoChildKeys(v: Visited, t: Tree, j: nat)
    requires t.Branch? && Sits(t, v.path) && IndexOf(v) <= j < 256 && j as byte in t.children
    requires Vacant(t.children.Keys, IndexOf(v), j)
    ensures Matching(Left(v, t), v.path) ==
            Matching(Entries(t.children[j as byte]), v.path + [j as byte]) + Matching(EntriesFrom(t.children, j + 1), v.path)
    ensures VisitSize(v, t) == 1 + (1 + Size(t.children[j as byte])) + SizeFrom(t.children, j + 1)
  {
    var b := j as byte;
    var c := t.children[b];
    NextChild(t.children, IndexOf(v), j);
    SitsChildren(t, v.path);
    MatchingConcat(Entries(c), EntriesFrom(t.children, j + 1), v.path);
    EntriesExtendPath(c, v.path + [b]);
    forall e | e in Entries(c) ensures v.path <= e.0 { PrefixOfPrefix(v.path, v.path + [b], e.0); }
    MatchingAll(Entries(c), v.path + [b], v.path);
  }

  lemma {:induction false} IntoChild(vs: seq<Visited>, ts: seq<Tree>, v: Visited, t: Tree, j: nat, child: Element)
    requires |vs| == |ts| && t.Branch? && Sits(t, v.path) && IndexOf(v) <= j < 256 && j as byte in t.children
    requires Vacant(t.children.Keys, IndexOf(v), j)
    ensures var b := j as byte;
            var back, w := Visited(v.element, Some(j + 1), v.path), Visited(child, None, v.path + [b]);
            && KeysLeft(vs + [v], ts + [t]) == KeysLeft(vs + [back] + [w], ts + [t] + [t.children[b]])
            && StackSize(vs + [back] + [w], ts + [t] + [t.children[b]]) < StackSize(vs + [v], ts + [t])
  {
    var b := j as byte;
    var back, w := Visited(v.element, Some(j + 1), v.path), Visited(child, None, v.path + [b]);
    IntoChildKeys(v, t, j);
    LeftOfFresh(child, v.path + [b], t.children[b]);
    Push(vs, ts, v, t);
    Push(vs, ts, back, t);
    Push(vs + [back], ts + [t], w, t.children[b]);
    LeftOfReturn(back, t);
    Assoc(Matching(Entries(t.children[b]), w.path), Matching(EntriesFrom(t.children, j + 1), v.path), KeysLeft(vs, ts));
  }

  lemma LeftOfReturn(v: Visited, t: Tree)
    requires t.Branch? && v.index.Some? && v.index.value <= 256
    ensures Left(v, t) == EntriesFrom(t.children, v.index.value)
    ensures VisitSize(v, t) == 1 + SizeFrom(t.children, v.index.value)
  {
  }

  lemma {:induction false} NoMoreChildren(vs: seq<Visited>, ts: seq<Tree>, v: Visited, t: Tree)
    requires |vs| == |ts| && t.Branch? && IndexOf(v) <= 256
    requires Vacant(t.children.Keys, IndexOf(v), 256)
    ensures KeysLeft(vs + [v], ts + [t]) == KeysLeft(vs, ts)
  {
    NextChild(t.children, IndexOf(v), 256);
    Push(vs, ts, v, t);
  }

  ghost predicate ValidStack(s: Store, vs: seq<Visited>, ts: seq<Tree>) {
    |vs| == |ts| && forall i | 0 <= i < |vs| :: ValidVisit(s, vs[i], ts[i])
  }

  lemma PushValid(s: Store, vs: seq<Visited>, ts: seq<Tree>, v: Visited, t: Tree)
    requires ValidStack(s, vs, ts) && ValidVisit(s, v, t)
    ensures ValidStack(s, vs + [v], ts + [t])
  {
  }

  lemma ChildVisit(s: Store, v: Visited, t: Tree, b: byte)
    requires ValidVisit(s, v, t) && v.element.ENode? && b in v.element.pointers
    ensures t.Branch? && b in t.children && v.element.pointers.Keys == t.children.Keys && v.element.pointers[b].digest in s
    ensures ValidVisit(s, Visited(s[v.element.pointers[b].digest], None, v.path + [b]), t.children[b])
  {
    assert Shows(s, v.element, t);
    assert Points(s, v.element.pointers[b], t.children[b]);
    SitsChildren(t, v.path);
  }

  class KeysIterator {
    const elements: Store
    var descend: Bytes
    var visited: seq<Visited>
    ghost var trees: seq<Tree>

    ghost predicate Valid()
      reads this
    {
      && |visited| == |trees|
      && (descend != [] ==> visited == [] || (|visited| == 1 && visited[0].index == None))
      && ValidStack(elements, visited, trees)
    }

    ghost function ToCome(): seq<Key>
      requires Valid()
      reads this
    {
      Remaining(visited, trees, descend)
    }

    constructor (elements: Store, root: Digest, prefix: Bytes)
      requires root in elements ==> IsState(elements, root)
      ensures Valid() && this.elements == elements && fresh(this)
      ensures ToCome() == if root in elements then Matching(Entries(StateTree(elements, root)), prefix) else []
    {
      this.elements := elements;
      descend := prefix;
      if root in elements {
        visited := [Visited(elements[root], None, [])];
        trees := [StateTree(elements, root)];
        var t := StateTree(elements, root);
        LeftOfFresh(elements[root], [], t);
        Push([], [], Visited(elements[root], None, []), t);
        assert [] + [Visited(elements[root], None, [])] == [Visited(elements[root], None, [])] && [] + [t] == [t];
        assert [] + prefix == prefix;
        assert Matching(Entries(t), []) + [] == Matching(Entries(t), []);
      } else {
        visited, trees := [], [];
      }
    }

    /** Delivers the next key, or `None` when there is none left. */
    method Next() returns (r: Option<Key>)
      requires Valid()
      modifies this
      ensures Valid()
      ensures old(ToCome()) == [] ==> r == None && ToCome() == []
      ensures old(ToCome()) != [] ==> r == Some(old(ToCome())[0]) && ToCome() == old(ToCome())[1..]
    {
      r := None;
      while visited != []
        invariant Valid() && r == None && ToCome() == old(ToCome())
        decreases StackSize(visited, trees)
      {
        r := VisitTop();
        if r.Some? {
          return;
        }
      }
    }

    /** Takes the top of the stack: a leaf may deliver its key, anything else is opened. */
    method VisitTop() returns (r: Option<Key>)
      requires Valid() && visited != []
      modifies this
      ensures Valid() && StackSize(visited, trees) < old(StackSize(visited, trees))
      ensures old(ToCome()) == (if r.Some? then [r.value] else []) + ToCome()
    {
      r := None;
      var n := |visited| - 1;
      var v := visited[n];
      ghost var t := trees[n];
      assert ValidVisit(elements, v, t);
      assert visited == visited[..n] + [v] && trees == trees[..n] + [t];
      visited, trees := visited[..n], trees[..n];
      match v.element {
        case ELeaf(key, value) =>
          AtLeaf(visited, trees, v, t, descend);
          if v.path + descend <= key + value {
            r := Some(key);
          }
        case ENode(_) =>
          VisitNode(v, t);
        case EExt(_, _) =>
          VisitExt(v, t);
      }
    }

    method VisitNode(v: Visited, ghost t: Tree)
      requires Valid() && ValidVisit(elements, v, t) && v.element.ENode? && (descend != [] ==> visited == [] && v.index == None)
      modifies this
      ensures Valid() && ToCome() == old(Remaining(visited + [v], trees + [t], descend))
      ensures StackSize(visited, trees) < old(StackSize(visited + [v], trees + [t]))
    {
      hide Matching, Entries, ValidStack;
      var pointers := v.element.pointers;
      var start := if descend != [] then descend[0] as nat else if v.index.Some? then v.index.value else 0;
      var index := start;
      Push(visited, trees, v, t);
      while index < 256
        invariant start <= index <= 256 && (descend != [] ==> index == start)
        invariant visited == old(visited) && trees == old(trees) && descend == old(descend)
        invariant Vacant(pointers.Keys, start, index)
      {
        if index as byte in pointers {
          EnterChild(v, t, index);
          return;
        }
        if descend != [] {
          DescendNode(v, t, descend, v.element);
          assert visited + [v] == [v] && trees + [t] == [t];
          return;
        }
        index := index + 1;
      }
      NoMoreChildren(visited, trees, v, t);
    }

    /** Opens a child; while descending it replaces its parent, else the parent waits below it. */
    method EnterChild(v: Visited, ghost t: Tree, index: nat)
      requires Valid() && ValidVisit(elements, v, t) && v.element.ENode? && (descend != [] ==> visited == [] && v.index == None)
      requires index < 256 && index as byte in v.element.pointers
      requires descend != [] ==> descend[0] as nat == index
      requires descend == [] ==> IndexOf(v) <= index && Vacant(v.element.pointers.Keys, IndexOf(v), index)
      modifies this
      ensures Valid() && ToCome() == old(Remaining(visited + [v], trees + [t], descend))
      ensures StackSize(visited, trees) < old(StackSize(visited + [v], trees + [t]))
    {
      var b := index as byte;
      ghost var c := t.children[b];
      ChildVisit(elements, v, t, b);
      var child := elements[v.element.pointers[b].digest];
      var w := Visited(child, None, v.path + [b]);
      if descend == [] {
        IntoChild(visited, trees, v, t, index, child);
        PushBoth(v, t, index, w, c);
      } else {
        DescendNode(v, t, descend, child);
        assert visited + [v] == [v] && trees + [t] == [t];
        SmallerChild(v, t, w, b);
        PushValid(elements, [], [], w, c);
        assert [] + [w] == [w] && [] + [c] == [c];
        hide ValidStack, StackSize, Remaining;
        descend := descend[1..];
        visited, trees := [w], [c];
      }
    }

    method PushBoth(v: Visited, ghost t: Tree, index: nat, w: Visited, ghost c: Tree)
      requires Valid() && descend == [] && ValidVisit(elements, v, t) && t.Branch? && index < 256 && ValidVisit(elements, w, c)
      modifies `visited, `trees
      ensures Valid() && visited == old(visited) + [Visited(v.element, Some(index + 1), v.path)] + [w]
      ensures trees == old(trees) + [t] + [c]
    {
      var back := Visited(v.element, Some(index + 1), v.path);
      PushValid(elements, visited, trees, back, t);
      PushValid(elements, visited + [back], trees + [t], w, c);
      visited, trees := visited + [back] + [w], trees + [t] + [c];
    }

    method VisitExt(v: Visited, ghost t: Tree)
      requires Valid() && ValidVisit(elements, v, t) && v.element.EExt? && (descend != [] ==> visited == [] && v.index == None)
      modifies this
      ensures Valid() && ToCome() == old(Remaining(visited + [v], trees + [t], descend))
      ensures StackSize(visited, trees) < old(StackSize(visited + [v], trees + [t]))
    {
      var affix := v.element.affix;
      var n := if |descend| < |affix| then |descend| else |affix|;
      var check := descend[..n];
      assert Shows(elements, v.element, t);
      assert Points(elements, v.element.pointer, t.child);
      var child := elements[v.element.pointer.digest];
      var w := Visited(child, None, v.path + affix);
      SitsChildren(t, v.path);
      assert ValidVisit(elements, w, t.child);
      ThroughExt(visited, trees, v, t, descend, child);
      ExtIsSmaller(visited, trees, v, t, child);
      assert Remaining([], [], descend[n..]) == [];
      PushValid(elements, visited, trees, w, t.child);
      hide Remaining, StackSize, ValidStack;
      descend := descend[n..];
      if check <= affix {
        visited, trees := visited + [w], trees + [t.child];
      }
    }
  }

  lemma {:induction false} ExtIsSmaller(vs: seq<Visited>, ts: seq<Tree>, v: Visited, t: Tree, child: Element)
    requires |vs| == |ts| && t.Ext?
    ensures StackSize(vs + [Visited(child, None, v.path + t.affix)], ts + [t.child]) < StackSize(vs + [v], ts + [t])
    ensures StackSize(vs, ts) < StackSize(vs + [v], ts + [t])
  {
    LeftOfFresh(child, v.path + t.affix, t.child);
    Push(vs, ts, v, t);
    Push(vs, ts, Visited(child, None, v.path + t.affix), t.child);
  }

  lemma {:induction false} SmallerChild(v: Visited, t: Tree, w: Visited, b: byte)
    requires t.Branch? && b in t.children && w.index == None && (v.index.Some? ==> v.index.value <= b as nat)
    ensures StackSize([w], [t.children[b]]) < StackSize([v], [t])
  {
    SizeOfChild(t.children, IndexOf(v), b);
    Push([], [], v, t);
    Push([], [], w, t.children[b]);
    assert [] + [v] == [v] && [] + [t] == [t] && [] + [w] == [w] && [] + [t.children[b]] == [t.children[b]];
  }

  lemma {:induction false} SizeOfChild(ch: map<byte, Tree>, i: nat, b: byte)
    requires i <= b as nat && b in ch
    ensures Size(ch[b]) < SizeFrom(ch, i)
    decreases 256 - i
  {
    if i < b as nat {
      SizeOfChild(ch, i + 1, b);
    }
  }

  // ---- what a prefix query returns ----

  /** All keys of a state that match a prefix, in key order and each once, by running the iterator to its end. */
  method KeysWithPrefix(elements: Store, root: Digest, prefix: Bytes) returns (keys: seq<Key>)
    requires root in elements ==> IsState(elements, root)
    ensures keys == if root in elements then Matching(Entries(StateTree(elements, root)), prefix) else []
    ensures root in elements ==>
              forall k :: k in keys <==> exists e :: e in Leaves(StateTree(elements, root)) && e.0 == k && prefix <= e.0 + e.1
    ensures KeysAscend(keys) && Distinct(keys)
  {
    hide Matching, Entries, KeysAscend, Distinct, Remaining, ValidStack;
    if root in elements {
      QueryAscends(StateTree(elements, root), prefix);
      forall k ensures k in Matching(Entries(StateTree(elements, root)), prefix) <==>
                       exists e :: e in Leaves(StateTree(elements, root)) && e.0 == k && prefix <= e.0 + e.1
      {
        QueryReturns(StateTree(elements, root), prefix, k);
      }
    }
    NothingAscends();
    var it := new KeysIterator(elements, root, prefix);
    ghost var all := it.ToCome();
    keys := [];
    while true
      invariant it.Valid() && fresh(it) && keys + it.ToCome() == all
      decreases |it.ToCome()|
    {
      var k := it.Next();
      if k.None? {
        assert keys + [] == keys;
        return;
      }
      Assoc(keys, [k.value], it.ToCome());
      keys := keys + [k.value];
    }
  }

  /** Key order: the two part at some byte, and the first has the smaller one. */
  ghost predicate Less(a: Bytes, b: Bytes) {
    exists n: nat :: n < |a| && n < |b| && a[..n] == b[..n] && a[n] < b[n]
  }

  ghost predicate Distinct(ks: seq<Key>) {
    forall i, j | 0 <= i < j < |ks| :: ks[i] != ks[j]
  }

  ghost predicate KeysAscend(ks: seq<Key>) {
    forall i, j | 0 <= i < j < |ks| :: Less(ks[i], ks[j])
  }

  ghost predicate Ascending(es: seq<(Key, Value)>) {
    forall i, j | 0 <= i < j < |es| :: Less(es[i].0, es[j].0)
  }

  lemma {:induction false} EntriesAscend(t: Tree, path: Bytes)
    requires Sits(t, path)
    ensures Ascending(Entries(t))
    decreases t, 257
  {
    SitsChildren(t, path);
    match t
    case Leaf(_, _) =>
    case Branch(ch) => EntriesFromAscend(ch, 0, path);
    case Ext(a, c) => EntriesAscend(c, path + a);
  }

  lemma {:induction false} EntriesFromAscend(ch: map<byte, Tree>, i: nat, path: Bytes)
    requires i <= 256 && forall b | b in ch :: WellFormed(ch[b], path + [b])
    ensures Ascending(EntriesFrom(ch, i))
    decreases Branch(ch), 256 - i
  {
    if i < 256 {
      EntriesFromAscend(ch, i + 1, path);
      var c := i as byte;
      var rest := EntriesFrom(ch, i + 1);
      if c in ch {
        var es := Entries(ch[c]);
        EntriesAscend(ch[c], path + [c]);
        forall e, f | e in es && f in rest
          ensures Less(e.0, f.0)
        {
          EntriesAreLeaves(ch[c], e);
          EntriesFromAreLeaves(ch, i + 1, f);
          var b: byte :| b in ch && i + 1 <= b as int && f in Leaves(ch[b]);
          ChildLeaf(ch, c, path, e);
          ChildLeaf(ch, b, path, f);
          assert e.0[..|path|] == path && f.0[..|path|] == path;
        }
        AscendingConcat(es, rest);
      } else {
        assert [] + rest == rest;
      }
    }
  }

  lemma AscendingConcat(es: seq<(Key, Value)>, fs: seq<(Key, Value)>)
    requires Ascending(es) && Ascending(fs) && forall e, f | e in es && f in fs :: Less(e.0, f.0)
    ensures Ascending(es + fs)
  {
  }

  lemma {:induction false} MatchingAscends(es: seq<(Key, Value)>, prefix: Bytes)
    requires Ascending(es)
    ensures KeysAscend(Matching(es, prefix))
  {
    if es != [] {
      var rest := Matching(es[1..], prefix);
      MatchingAscends(es[1..], prefix);
      forall k | k in rest
        ensures Less(es[0].0, k)
      {
        MatchingSelects(es[1..], prefix, k);
        var e :| e in es[1..] && e.0 == k;
        var m :| 0 <= m < |es[1..]| && es[1..][m] == e;
        assert es[m + 1] == e;
      }
    }
  }

  lemma {:induction false} MatchingSelects(es: seq<(Key, Value)>, prefix: Bytes, k: Key)
    ensures k in Matching(es, prefix) <==> exists e :: e in es && e.0 == k && prefix <= e.0 + e.1
  {
    if es != [] {
      MatchingSelects(es[1..], prefix, k);
      assert es == [es[0]] + es[1..];
    }
  }

  lemma NothingAscends()
    ensures KeysAscend([]) && Distinct([])
  {
  }

  /** What a query of a state returns is in key order, each key once. */
  lemma QueryAscends(t: Tree, prefix: Bytes)
    requires RootWellFormed(t)
    ensures KeysAscend(Matching(Entries(t), prefix)) && Distinct(Matching(Entries(t), prefix))
  {
    EntriesAscend(t, []);
    MatchingAscends(Entries(t), prefix);
    hide Matching, Entries;
  }

  /** A query returns a key exactly if the prefix leads into its leaf bytes. */
  lemma QueryReturns(t: Tree, prefix: Bytes, k: Key)
    ensures k in Matching(Entries(t), prefix) <==> exists e :: e in Leaves(t) && e.0 == k && prefix <= e.0 + e.1
  {
    MatchingSelects(Entries(t), prefix, k);
    forall e ensures e in Entries(t) <==> e in Leaves(t) { EntriesAreLeaves(t, e); }
  }

  ghost predicate ExactQuery(t: Tree, prefix: Bytes) {
    forall k :: k in Matching(Entries(t), prefix) <==> k in Keys(t) && prefix <= k
  }

  /** The prefix runs on from a stored key into the bytes of the value stored there. */
  ghost predicate RunsIntoValue(t: Tree, prefix: Bytes) {
    exists e :: e in Leaves(t) && !(prefix <= e.0) && prefix <= e.0 + e.1
  }

  /** A query returns the keys that start with the prefix, if and only if it runs into no value. */
  lemma PrefixQueryIsExact(t: Tree, prefix: Bytes)
    ensures ExactQuery(t, prefix) <==> !RunsIntoValue(t, prefix)
  {
    if e :| e in Leaves(t) && !(prefix <= e.0) && prefix <= e.0 + e.1 {
      QueryReturns(t, prefix, e.0);
      assert e.0 in Matching(Entries(t), prefix);
    } else {
      forall k
        ensures k in Matching(Entries(t), prefix) <==> k in Keys(t) && prefix <= k
      {
        QueryReturns(t, prefix, k);
        if k in Keys(t) && prefix <= k {
          var e :| e in Leaves(t) && e.0 == k;
          assert prefix <= e.0 + e.1;
        }
      }
    }
  }

  /**
   Asking for the keys below [1, 7] returns the stored key [1], which does not start with
   it, because the value stored under [1] begins with 7.
   */
  lemma PrefixQueryCanOvershoot()
    ensures var t := Branch(map[1 := Leaf([1], [7])]);
            RootWellFormed(t) && RunsIntoValue(t, [1, 7]) && [1] in Matching(Entries(t), [1, 7])
  {
    var k: Key, v: Value := [1], [7];
    var t := Branch(map[1 := Leaf(k, v)]);
    assert (k, v) in Leaves(t) by { assert (k, v) in Leaves(t.children[1]); }
    assert k + v == [1, 7];
    QueryReturns(t, [1, 7], k);
  }
}
