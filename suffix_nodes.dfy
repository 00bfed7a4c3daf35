/** The nodes of the sparse four-level tree (RootNode, SuffixNode, LeafNode in
    src/SuffixTreeImpl.h and in src/SuffixTree.h), as an arena: a node is a
    slot of a sequence, a pointer is its slot number, a null pointer None.
    The root is slot 0; a level-1 or level-2 node lists its children; a leaf
    (level 3) holds the values and presence flags of the key's last token.
    Every node keeps its parent and its own slot in the parent. Both node
    implementations share these definitions and the theory of nextNode. */
module SuffixNodes {
  import opened Wrappers

  /** leaf_Suffix: the level of the leaves. */
  const LeafLevel: nat := 3

  datatype Node =
    | Root(children: seq<Option<nat>>)
    | Inner(level: nat, parent: nat, selfIndex: nat, children: seq<Option<nat>>)
    | Leaf(parent: nat, selfIndex: nat, values: seq<int>, flags: seq<bool>)

  function LevelOf(n: Node): nat
  {
    match n
    case Root(_) => 0
    case Inner(l, _, _, _) => l
    case Leaf(_, _, _, _) => LeafLevel
  }

  // ---------------------------------------------------------------------
  // Well-formedness

  /** Node c, in slot i of p, points back at p and i, one level further down. */
  ghost predicate ChildOk(nodes: seq<Node>, p: nat, i: nat, c: nat)
    requires p < |nodes|
  {
    && c < |nodes| && !nodes[c].Root?
    && nodes[c].parent == p && nodes[c].selfIndex == i
    && LevelOf(nodes[c]) == LevelOf(nodes[p]) + 1
  }

  ghost predicate ChildrenOk(nodes: seq<Node>, p: nat, ch: seq<Option<nat>>)
    requires p < |nodes|
  {
    forall i :: 0 <= i < |ch| && ch[i].Some? ==> ChildOk(nodes, p, i, ch[i].value)
  }

  ghost predicate NodeOk(nodes: seq<Node>, id: nat)
    requires id < |nodes|
  {
    match nodes[id]
    case Root(ch) => id == 0 && ChildrenOk(nodes, id, ch)
    case Inner(l, par, _, ch) =>
      1 <= l < LeafLevel && par < |nodes| && LevelOf(nodes[par]) + 1 == l && ChildrenOk(nodes, id, ch)
    case Leaf(par, _, vs, fs) =>
      par < |nodes| && LevelOf(nodes[par]) + 1 == LeafLevel && |vs| == |fs|
  }

  /** The arena of one tree: the root in slot 0 and nowhere else, every
      parent one level up, every child pointing back at its parent. */
  ghost predicate WellFormed(nodes: seq<Node>)
  {
    && |nodes| >= 1 && nodes[0].Root?
    && forall id :: 0 <= id < |nodes| ==> NodeOk(nodes, id)
  }

  // ---------------------------------------------------------------------
  // Paths

  /** The child in slot i of node n; None for a null slot, a slot past the
      end, or a leaf. */
  function Child(nodes: seq<Node>, n: nat, i: nat): Option<nat>
  {
    if n < |nodes| && !nodes[n].Leaf? && i < |nodes[n].children| then nodes[n].children[i] else None
  }

  /** The node reached from the root by following the child slots of path. */
  function NodeAt(nodes: seq<Node>, path: seq<nat>): Option<nat>
    decreases |path|
  {
    if |path| == 0 then Some(0)
    else
      match NodeAt(nodes, path[..|path| - 1])
      case None => None
      case Some(n) => Child(nodes, n, path[|path| - 1])
  }

  lemma NodeAtAppend(nodes: seq<Node>, path: seq<nat>, i: nat)
    ensures NodeAt(nodes, path + [i]) ==
      (match NodeAt(nodes, path) case None => None case Some(n) => Child(nodes, n, i))
  {
    assert (path + [i])[..|path|] == path;
  }

  /** The slots from the root down to n, read off the parent pointers. */
  ghost function PathOf(nodes: seq<Node>, n: nat): seq<nat>
    requires WellFormed(nodes) && n < |nodes|
    decreases LevelOf(nodes[n])
  {
    assert NodeOk(nodes, n);
    if nodes[n].Root? then [] else PathOf(nodes, nodes[n].parent) + [nodes[n].selfIndex]
  }

  lemma {:induction false} PathOfLength(nodes: seq<Node>, n: nat)
    requires WellFormed(nodes) && n < |nodes|
    ensures |PathOf(nodes, n)| == LevelOf(nodes[n])
    decreases LevelOf(nodes[n])
  {
    assert NodeOk(nodes, n);
    if !nodes[n].Root? {
      PathOfLength(nodes, nodes[n].parent);
    }
  }

  /** A node is live when the root reaches it along its own path. */
  ghost predicate Live(nodes: seq<Node>, n: nat)
    requires WellFormed(nodes)
  {
    n < |nodes| && NodeAt(nodes, PathOf(nodes, n)) == Some(n)
  }

  /** One step down: the child in slot i of m points back at m and i. */
  lemma ChildStep(nodes: seq<Node>, m: nat, i: nat)
    requires WellFormed(nodes) && Child(nodes, m, i).Some?
    ensures var c := Child(nodes, m, i).value;
      && c < |nodes| && !nodes[c].Root? && nodes[c].parent == m && nodes[c].selfIndex == i
      && LevelOf(nodes[c]) == LevelOf(nodes[m]) + 1
      && PathOf(nodes, c) == PathOf(nodes, m) + [i]
  {
    assert NodeOk(nodes, m);
    assert ChildOk(nodes, m, i, Child(nodes, m, i).value);
  }

  /** Whatever a path reaches is one level per step down, and its own path
      is that path: so it is live, and no two paths reach the same node. */
  lemma {:induction false} NodeAtPath(nodes: seq<Node>, path: seq<nat>)
    requires WellFormed(nodes) && NodeAt(nodes, path).Some?
    ensures NodeAt(nodes, path).value < |nodes|
    ensures LevelOf(nodes[NodeAt(nodes, path).value]) == |path|
    ensures PathOf(nodes, NodeAt(nodes, path).value) == path
    ensures Live(nodes, NodeAt(nodes, path).value)
    decreases |path|
  {
    if |path| > 0 {
      var init := path[..|path| - 1];
      var i := path[|path| - 1];
      NodeAtPath(nodes, init);
      var m := NodeAt(nodes, init).value;
      assert NodeAt(nodes, path) == Child(nodes, m, i);
      ChildStep(nodes, m, i);
      assert path == init + [i];
    }
  }

  /** Two live nodes on one path are one node. */
  lemma LiveUnique(nodes: seq<Node>, a: nat, b: nat)
    requires WellFormed(nodes) && Live(nodes, a) && Live(nodes, b)
    requires PathOf(nodes, a) == PathOf(nodes, b)
    ensures a == b
  {
  }

  /** The child in slot j of a live node is live, one slot further along. */
  lemma LiveChild(nodes: seq<Node>, p: nat, j: nat)
    requires WellFormed(nodes) && Live(nodes, p) && Child(nodes, p, j).Some?
    ensures var c := Child(nodes, p, j).value;
      && c < |nodes| && Live(nodes, c) && PathOf(nodes, c) == PathOf(nodes, p) + [j]
      && !nodes[c].Root? && nodes[c].parent == p && nodes[c].selfIndex == j
      && LevelOf(nodes[c]) == LevelOf(nodes[p]) + 1
  {
    NodeAtAppend(nodes, PathOf(nodes, p), j);
    NodeAtPath(nodes, PathOf(nodes, p) + [j]);
    assert NodeOk(nodes, p);
  }

  /** A live node other than the root sits in its parent's slot selfIndex,
      and only there; its parent is live. */
  lemma LiveParent(nodes: seq<Node>, c: nat)
    requires WellFormed(nodes) && Live(nodes, c) && !nodes[c].Root?
    ensures var p := nodes[c].parent;
      && p < |nodes| && Live(nodes, p) && !nodes[p].Leaf?
      && Child(nodes, p, nodes[c].selfIndex) == Some(c)
      && SlotOf(nodes[p].children, c) == Some(nodes[c].selfIndex)
      && LevelOf(nodes[p]) + 1 == LevelOf(nodes[c])
  {
    LiveParentNode(nodes, c);
    SlotOfChild(nodes, nodes[c].parent, c);
  }

  /** The parent of a live node is live and holds it in its selfIndex slot. */
  lemma LiveParentNode(nodes: seq<Node>, c: nat)
    requires WellFormed(nodes) && Live(nodes, c) && !nodes[c].Root?
    ensures var p := nodes[c].parent;
      && p < |nodes| && Live(nodes, p) && !nodes[p].Leaf?
      && Child(nodes, p, nodes[c].selfIndex) == Some(c)
      && LevelOf(nodes[p]) + 1 == LevelOf(nodes[c])
  {
    assert NodeOk(nodes, c);
    var p := nodes[c].parent;
    var s := nodes[c].selfIndex;
    NodeAtAppend(nodes, PathOf(nodes, p), s);
    var m := NodeAt(nodes, PathOf(nodes, p)).value;
    NodeAtPath(nodes, PathOf(nodes, p));
    assert NodeOk(nodes, m);
    assert ChildOk(nodes, m, s, c);
  }

  /** A child sits in exactly one slot of its parent: the one it records. */
  lemma SlotOfChild(nodes: seq<Node>, p: nat, c: nat)
    requires WellFormed(nodes) && p < |nodes| && c < |nodes| && !nodes[p].Leaf? && !nodes[c].Root?
    requires Child(nodes, p, nodes[c].selfIndex) == Some(c)
    ensures SlotOf(nodes[p].children, c) == Some(nodes[c].selfIndex)
  {
    var ch := nodes[p].children;
    var s := nodes[c].selfIndex;
    assert NodeOk(nodes, p);
    forall j | 0 <= j < |ch| && ch[j] == Some(c)
      ensures j == s
    {
      assert ChildOk(nodes, p, j, c);
    }
  }

  // ---------------------------------------------------------------------
  // Scans of a child list and of a flag list

  /** std::find: the first slot holding c. */
  function SlotOf(ch: seq<Option<nat>>, c: nat): (r: Option<nat>)
    ensures r.Some? ==> r.value < |ch| && ch[r.value] == Some(c)
    ensures r.Some? ==> forall j :: 0 <= j < r.value ==> ch[j] != Some(c)
    ensures r.None? ==> forall j :: 0 <= j < |ch| ==> ch[j] != Some(c)
    decreases |ch|
  {
    if |ch| == 0 then None
    else if ch[0] == Some(c) then Some(0)
    else match SlotOf(ch[1..], c)
      case None => None
      case Some(j) => Some(j + 1)
  }

  /** std::find_if from slot from: the first non-null slot at or after it. */
  function FirstFrom(ch: seq<Option<nat>>, from: nat): (r: Option<nat>)
    ensures r.Some? ==> from <= r.value < |ch| && ch[r.value].Some?
    ensures r.Some? ==> forall j :: from <= j < r.value ==> ch[j].None?
    ensures r.None? ==> forall j :: from <= j < |ch| ==> ch[j].None?
    decreases |ch| - from
  {
    if from >= |ch| then None
    else if ch[from].Some? then Some(from)
    else FirstFrom(ch, from + 1)
  }

  /** The first set flag at or after from. */
  function FirstSet(flags: seq<bool>, from: nat): (r: Option<nat>)
    ensures r.Some? ==> from <= r.value < |flags| && flags[r.value]
    ensures r.Some? ==> forall j :: from <= j < r.value ==> !flags[j]
    ensures r.None? ==> forall j :: from <= j < |flags| ==> !flags[j]
    decreases |flags| - from
  {
    if from >= |flags| then None
    else if flags[from] then Some(from)
    else FirstSet(flags, from + 1)
  }

  /** begin() of a root or inner node: its first child, or null. */
  function FirstChild(nodes: seq<Node>, q: nat): Option<nat>
  {
    if q < |nodes| && !nodes[q].Leaf? then
      match FirstFrom(nodes[q].children, 0)
      case None => None
      case Some(j) => nodes[q].children[j]
    else None
  }

  // ---------------------------------------------------------------------
  // nextNode and the order of the tree

  /** nextNode(c) asked of its parent p: the first child after c's slot;
      failing that, on an inner node, the first child of whatever p's own
      parent returns as the node after p; the root gives up. */
  ghost function NextNodeSpec(nodes: seq<Node>, p: nat, c: nat): Option<nat>
    requires WellFormed(nodes) && p < |nodes| && !nodes[p].Leaf?
    decreases LevelOf(nodes[p])
  {
    var ch := nodes[p].children;
    match SlotOf(ch, c)
    case None => None
    case Some(s) =>
      match FirstFrom(ch, s + 1)
      case Some(j) => ch[j]
      case None =>
        if nodes[p].Root? then None
        else
          assert NodeOk(nodes, p);
          match NextNodeSpec(nodes, nodes[p].parent, p)
          case None => None
          case Some(q) => FirstChild(nodes, q)
  }

  /** nextNode returns a node one level below p. */
  lemma {:induction false} NextNodeSpecBounds(nodes: seq<Node>, p: nat, c: nat)
    requires WellFormed(nodes) && p < |nodes| && !nodes[p].Leaf?
    ensures NextNodeSpec(nodes, p, c).Some? ==>
      NextNodeSpec(nodes, p, c).value < |nodes| && LevelOf(nodes[NextNodeSpec(nodes, p, c).value]) == LevelOf(nodes[p]) + 1
    decreases LevelOf(nodes[p])
  {
    assert NodeOk(nodes, p);
    var ch := nodes[p].children;
    match SlotOf(ch, c)
    case None =>
    case Some(s) =>
      match FirstFrom(ch, s + 1)
      case Some(j) =>
        assert ChildOk(nodes, p, j, ch[j].value);
      case None =>
        if !nodes[p].Root? {
          NextNodeSpecBounds(nodes, nodes[p].parent, p);
          match NextNodeSpec(nodes, nodes[p].parent, p)
          case None =>
          case Some(q) =>
            assert NodeOk(nodes, q);
            match FirstFrom(nodes[q].children, 0)
            case None =>
            case Some(j0) =>
              assert ChildOk(nodes, q, j0, nodes[q].children[j0].value);
        }
  }

  /** Lexicographic order of two paths of one length. */
  predicate LessPath(a: seq<nat>, b: seq<nat>)
    decreases |a|
  {
    && |a| == |b| && |a| > 0
    && (|| LessPath(a[..|a| - 1], b[..|b| - 1])
        || (a[..|a| - 1] == b[..|b| - 1] && a[|a| - 1] < b[|b| - 1]))
  }

  lemma LessPathAppend(a: seq<nat>, s: nat, b: seq<nat>, t: nat)
    requires |a| == |b|
    ensures LessPath(a + [s], b + [t]) <==> LessPath(a, b) || (a == b && s < t)
  {
    assert (a + [s])[..|a|] == a;
    assert (b + [t])[..|b|] == b;
  }

  lemma {:induction false} LessPathIrreflexive(a: seq<nat>)
    ensures !LessPath(a, a)
    decreases |a|
  {
    if |a| > 0 {
      LessPathIrreflexive(a[..|a| - 1]);
    }
  }

  lemma {:induction false} LessPathTransitive(a: seq<nat>, b: seq<nat>, c: seq<nat>)
    requires LessPath(a, b) && LessPath(b, c)
    ensures LessPath(a, c)
    decreases |a|
  {
    var n := |a| - 1;
    if LessPath(a[..n], b[..n]) && LessPath(b[..n], c[..n]) {
      LessPathTransitive(a[..n], b[..n], c[..n]);
    }
  }

  lemma LessPathAsymmetric(a: seq<nat>, b: seq<nat>)
    requires LessPath(a, b)
    ensures !LessPath(b, a)
  {
    if LessPath(b, a) {
      LessPathTransitive(a, b, a);
      LessPathIrreflexive(a);
    }
  }

  /** Two paths of one length are equal or ordered one way or the other. */
  lemma {:induction false} LessPathTotal(a: seq<nat>, b: seq<nat>)
    requires |a| == |b|
    ensures a == b || LessPath(a, b) || LessPath(b, a)
    decreases |a|
  {
    if |a| > 0 {
      var n := |a| - 1;
      LessPathTotal(a[..n], b[..n]);
      if a[..n] == b[..n] && a[n] == b[n] {
        assert a == a[..n] + [a[n]] && b == b[..n] + [b[n]];
      }
    }
  }

  /** A live node of c's level after c. */
  ghost predicate LiveAfter(nodes: seq<Node>, c: nat, x: nat)
    requires WellFormed(nodes) && c < |nodes|
  {
    && x < |nodes| && Live(nodes, x) && LevelOf(nodes[x]) == LevelOf(nodes[c])
    && LessPath(PathOf(nodes, c), PathOf(nodes, x))
  }

  /** r is the live node of c's level that comes next after c. */
  ghost predicate Successor(nodes: seq<Node>, c: nat, r: nat)
    requires WellFormed(nodes) && c < |nodes|
  {
    && LiveAfter(nodes, c, r)
    && forall x :: LiveAfter(nodes, c, x) ==> !LessPath(PathOf(nodes, x), PathOf(nodes, r))
  }

  /** No live node of c's level comes after c. */
  ghost predicate LastOfLevel(nodes: seq<Node>, c: nat)
    requires WellFormed(nodes) && c < |nodes|
  {
    forall x :: !LiveAfter(nodes, c, x)
  }

  /** Every live inner node has a child: nodes are only materialised on the
      way down to a leaf. */
  ghost predicate NonEmptyInner(nodes: seq<Node>)
    requires WellFormed(nodes)
  {
    forall n :: 0 <= n < |nodes| && nodes[n].Inner? && Live(nodes, n) ==> FirstFrom(nodes[n].children, 0).Some?
  }

  /** A live node x of c's level after c, c and x not the root: splits x's
      path at its parent. */
  lemma AfterSplit(nodes: seq<Node>, c: nat, x: nat)
    requires WellFormed(nodes) && c < |nodes| && Live(nodes, c) && !nodes[c].Root?
    requires LiveAfter(nodes, c, x)
    ensures !nodes[x].Root? && nodes[c].parent < |nodes|
    ensures var p := nodes[c].parent; var px := nodes[x].parent;
      && px < |nodes| && Live(nodes, px) && !nodes[px].Leaf?
      && Child(nodes, px, nodes[x].selfIndex) == Some(x)
      && LevelOf(nodes[px]) == LevelOf(nodes[p])
      && |PathOf(nodes, px)| == |PathOf(nodes, p)|
      && (|| LessPath(PathOf(nodes, p), PathOf(nodes, px))
          || (px == p && nodes[c].selfIndex < nodes[x].selfIndex))
      && (px == p ==> nodes[c].selfIndex < nodes[x].selfIndex)
      && (px != p ==> LiveAfter(nodes, p, px))
  {
    LiveParent(nodes, c);
    LiveParent(nodes, x);
    var p := nodes[c].parent;
    var px := nodes[x].parent;
    PathOfLength(nodes, p);
    PathOfLength(nodes, px);
    LessPathAppend(PathOf(nodes, p), nodes[c].selfIndex, PathOf(nodes, px), nodes[x].selfIndex);
    if PathOf(nodes, p) == PathOf(nodes, px) {
      LiveUnique(nodes, p, px);
    }
    LessPathIrreflexive(PathOf(nodes, p));
  }

  /** nextNode's first case: a later sibling j of c is the node after c. */
  lemma SiblingIsSuccessor(nodes: seq<Node>, p: nat, c: nat, j: nat)
    requires WellFormed(nodes) && p < |nodes| && !nodes[p].Leaf?
    requires c < |nodes| && Live(nodes, c) && !nodes[c].Root? && nodes[c].parent == p
    requires FirstFrom(nodes[p].children, nodes[c].selfIndex + 1) == Some(j)
    ensures Successor(nodes, c, nodes[p].children[j].value)
  {
    LiveParent(nodes, c);
    var ch := nodes[p].children;
    var s := nodes[c].selfIndex;
    var A := PathOf(nodes, p);
    var r := ch[j].value;
    LiveChild(nodes, p, j);
    LessPathAppend(A, s, A, j);
    forall x: nat | LiveAfter(nodes, c, x)
      ensures !LessPath(PathOf(nodes, x), PathOf(nodes, r))
    {
      AfterSplit(nodes, c, x);
      var px := nodes[x].parent;
      var t := nodes[x].selfIndex;
      var X := PathOf(nodes, px);
      LessPathAppend(X, t, A, j);
      if LessPath(X + [t], A + [j]) {
        if px == p {
          LessPathIrreflexive(A);
        } else if LessPath(X, A) {
          LessPathAsymmetric(A, X);
        } else {
          LessPathIrreflexive(A);
        }
      }
    }
  }

  /** Without a later sibling, the root has no node after c. */
  lemma RootChildIsLast(nodes: seq<Node>, c: nat)
    requires WellFormed(nodes) && c < |nodes| && Live(nodes, c) && !nodes[c].Root?
    requires nodes[c].parent == 0
    requires FirstFrom(nodes[0].children, nodes[c].selfIndex + 1).None?
    ensures LastOfLevel(nodes, c)
  {
    LiveParent(nodes, c);
    forall x: nat | LiveAfter(nodes, c, x)
      ensures false
    {
      AfterSplit(nodes, c, x);
    }
  }

  /** Without a later sibling, when nothing comes after the parent p,
      nothing comes after c either (every inner node having a child). */
  lemma NoNextParentIsLast(nodes: seq<Node>, p: nat, c: nat)
    requires WellFormed(nodes) && p < |nodes| && !nodes[p].Leaf?
    requires c < |nodes| && Live(nodes, c) && !nodes[c].Root? && nodes[c].parent == p
    requires FirstFrom(nodes[p].children, nodes[c].selfIndex + 1).None?
    requires LastOfLevel(nodes, p)
    ensures LastOfLevel(nodes, c)
  {
    LiveParent(nodes, c);
    forall x: nat | LiveAfter(nodes, c, x)
      ensures false
    {
      AfterSplit(nodes, c, x);
    }
  }

  /** Without a later sibling, the first child of the node q after the
      parent p is the node after c. */
  lemma CousinIsSuccessor(nodes: seq<Node>, p: nat, c: nat, q: nat, j0: nat)
    requires WellFormed(nodes) && p < |nodes| && !nodes[p].Leaf?
    requires c < |nodes| && Live(nodes, c) && !nodes[c].Root? && nodes[c].parent == p
    requires FirstFrom(nodes[p].children, nodes[c].selfIndex + 1).None?
    requires Successor(nodes, p, q) && !nodes[q].Leaf?
    requires FirstFrom(nodes[q].children, 0) == Some(j0)
    ensures Successor(nodes, c, nodes[q].children[j0].value)
  {
    LiveParent(nodes, c);
    var ch := nodes[p].children;
    var s := nodes[c].selfIndex;
    var A := PathOf(nodes, p);
    var cq := nodes[q].children;
    var r := cq[j0].value;
    var Q := PathOf(nodes, q);
    LiveChild(nodes, q, j0);
    PathOfLength(nodes, p);
    PathOfLength(nodes, q);
    LessPathAppend(A, s, Q, j0);
    forall x: nat | LiveAfter(nodes, c, x)
      ensures !LessPath(PathOf(nodes, x), PathOf(nodes, r))
    {
      AfterSplit(nodes, c, x);
      var px := nodes[x].parent;
      var t := nodes[x].selfIndex;
      var X := PathOf(nodes, px);
      LessPathAppend(X, t, Q, j0);
      if LessPath(X + [t], Q + [j0]) {
        if px == p {
          LessPathIrreflexive(A);
        } else if px == q {
          LessPathIrreflexive(Q);
        } else if !LessPath(X, Q) {
          LiveUnique(nodes, px, q);
        }
      }
    }
  }

  /** The heart of the iteration: nextNode asked of c's parent returns the
      live node that comes right after c on c's level; and when it returns
      null, no live node comes after c, provided every live inner node has a
      child (an inner node without children makes the search give up early). */
  lemma {:induction false} NextNodeSuccessor(nodes: seq<Node>, p: nat, c: nat)
    requires WellFormed(nodes) && p < |nodes| && !nodes[p].Leaf?
    requires c < |nodes| && Live(nodes, c) && !nodes[c].Root? && nodes[c].parent == p
    ensures NextNodeSpec(nodes, p, c).Some? ==> Successor(nodes, c, NextNodeSpec(nodes, p, c).value)
    ensures NextNodeSpec(nodes, p, c).None? && NonEmptyInner(nodes) ==> LastOfLevel(nodes, c)
    decreases LevelOf(nodes[p])
  {
    if FirstFrom(nodes[p].children, nodes[c].selfIndex + 1).Some? || nodes[p].Root? {
      NextNodeAcross(nodes, p, c);
    } else {
      assert NodeOk(nodes, p);
      LiveParent(nodes, c);
      NextNodeSuccessor(nodes, nodes[p].parent, p);
      NextNodeUp(nodes, p, c);
    }
  }

  /** The steps of NextNodeSuccessor that stay below p: a later sibling of
      c is its successor, and the last child of the root is the last of its
      level. */
  lemma NextNodeAcross(nodes: seq<Node>, p: nat, c: nat)
    requires WellFormed(nodes) && p < |nodes| && !nodes[p].Leaf?
    requires c < |nodes| && Live(nodes, c) && !nodes[c].Root? && nodes[c].parent == p
    requires FirstFrom(nodes[p].children, nodes[c].selfIndex + 1).Some? || nodes[p].Root?
    ensures NextNodeSpec(nodes, p, c).Some? ==> Successor(nodes, c, NextNodeSpec(nodes, p, c).value)
    ensures NextNodeSpec(nodes, p, c).None? && NonEmptyInner(nodes) ==> LastOfLevel(nodes, c)
  {
    LiveParent(nodes, c);
    var ch := nodes[p].children;
    var s := nodes[c].selfIndex;
    assert SlotOf(ch, c) == Some(s);
    match FirstFrom(ch, s + 1)
    case Some(j) =>
      SiblingIsSuccessor(nodes, p, c, j);
    case None =>
      assert NodeOk(nodes, p);
      RootChildIsLast(nodes, c);
  }

  /** The step of NextNodeSuccessor that climbs: c is the last child of
      p, so its successor is the first child of p's successor. */
  lemma NextNodeUp(nodes: seq<Node>, p: nat, c: nat)
    requires WellFormed(nodes) && p < |nodes| && nodes[p].Inner?
    requires c < |nodes| && Live(nodes, c) && !nodes[c].Root? && nodes[c].parent == p
    requires FirstFrom(nodes[p].children, nodes[c].selfIndex + 1).None?
    requires NodeOk(nodes, p)
    requires NextNodeSpec(nodes, nodes[p].parent, p).Some? ==>
      Successor(nodes, p, NextNodeSpec(nodes, nodes[p].parent, p).value)
    requires NextNodeSpec(nodes, nodes[p].parent, p).None? && NonEmptyInner(nodes) ==> LastOfLevel(nodes, p)
    ensures NextNodeSpec(nodes, p, c).Some? ==> Successor(nodes, c, NextNodeSpec(nodes, p, c).value)
    ensures NextNodeSpec(nodes, p, c).None? && NonEmptyInner(nodes) ==> LastOfLevel(nodes, c)
  {
    LiveParent(nodes, c);
    assert SlotOf(nodes[p].children, c) == Some(nodes[c].selfIndex);
    var g := nodes[p].parent;
    match NextNodeSpec(nodes, g, p)
    case None =>
      if NonEmptyInner(nodes) {
        NoNextParentIsLast(nodes, p, c);
      }
    case Some(q) =>
      assert nodes[q].Inner?;
      match FirstFrom(nodes[q].children, 0)
      case None =>
      case Some(j0) =>
        CousinIsSuccessor(nodes, p, c, q, j0);
  }

  // ---------------------------------------------------------------------
  // Stored keys

  /** ValueT(): the default a fresh or erased slot holds. */
  const DefaultValue: int := 0

  /** Key k (four indices) has a value: its first three indices lead to a
      leaf whose flag at the fourth is set. */
  ghost predicate Occupied(nodes: seq<Node>, k: seq<nat>)
  {
    && |k| == 4
    && match NodeAt(nodes, k[..3])
       case None => false
       case Some(l) => l < |nodes| && nodes[l].Leaf? && k[3] < |nodes[l].flags| && nodes[l].flags[k[3]]
  }

  /** The value stored under k, when k is occupied. */
  ghost function ValueAt(nodes: seq<Node>, k: seq<nat>): int
  {
    if Occupied(nodes, k) && NodeAt(nodes, k[..3]).value < |nodes|
       && k[3] < |nodes[NodeAt(nodes, k[..3]).value].values|
    then nodes[NodeAt(nodes, k[..3]).value].values[k[3]]
    else DefaultValue
  }

  /** The occupied keys, one per set flag of a live leaf. */
  ghost function OccupiedKeys(nodes: seq<Node>): set<seq<nat>>
    requires WellFormed(nodes)
  {
    set l, i | 0 <= l < |nodes| && nodes[l].Leaf? && 0 <= i < |nodes[l].flags|
                 && nodes[l].flags[i] && Live(nodes, l) :: PathOf(nodes, l) + [i]
  }

  /** What the tree stores: every occupied key with its value. */
  ghost function Contents(nodes: seq<Node>): map<seq<nat>, int>
    requires WellFormed(nodes)
  {
    map k | k in OccupiedKeys(nodes) :: ValueAt(nodes, k)
  }

  lemma OccupiedKeysIff(nodes: seq<Node>, k: seq<nat>)
    requires WellFormed(nodes)
    ensures k in OccupiedKeys(nodes) <==> Occupied(nodes, k)
  {
    if Occupied(nodes, k) {
      var l := NodeAt(nodes, k[..3]).value;
      NodeAtPath(nodes, k[..3]);
      assert k == PathOf(nodes, l) + [k[3]];
    }
    if k in OccupiedKeys(nodes) {
      var l, i :| 0 <= l < |nodes| && nodes[l].Leaf? && 0 <= i < |nodes[l].flags|
                  && nodes[l].flags[i] && Live(nodes, l) && k == PathOf(nodes, l) + [i];
      PathOfLength(nodes, l);
      assert k[..3] == PathOf(nodes, l);
    }
  }

  // ---------------------------------------------------------------------
  // Changes that keep the shape of the tree

  /** A node with its leaf contents dropped: what the shape depends on. */
  function SkeletonOf(n: Node): Node
  {
    match n
    case Leaf(par, si, _, _) => Leaf(par, si, [], [])
    case _ => n
  }

  /** Only the contents of leaves differ. */
  ghost predicate SameSkeleton(a: seq<Node>, b: seq<Node>)
  {
    |a| == |b| && forall id :: 0 <= id < |a| ==> SkeletonOf(a[id]) == SkeletonOf(b[id])
  }

  lemma SkeletonWellFormed(a: seq<Node>, b: seq<Node>)
    requires WellFormed(a) && SameSkeleton(a, b)
    requires forall id :: 0 <= id < |b| && b[id].Leaf? ==> |b[id].values| == |b[id].flags|
    ensures WellFormed(b)
  {
    assert SkeletonOf(a[0]) == SkeletonOf(b[0]);
    forall id | 0 <= id < |b|
      ensures NodeOk(b, id)
    {
      assert NodeOk(a, id);
      assert SkeletonOf(a[id]) == SkeletonOf(b[id]);
      if !b[id].Leaf? {
        var ch := b[id].children;
        forall i | 0 <= i < |ch| && ch[i].Some?
          ensures ChildOk(b, id, i, ch[i].value)
        {
          assert ChildOk(a, id, i, ch[i].value);
          assert SkeletonOf(a[ch[i].value]) == SkeletonOf(b[ch[i].value]);
        }
      } else {
        assert SkeletonOf(a[b[id].parent]) == SkeletonOf(b[b[id].parent]);
      }
      if b[id].Inner? {
        assert SkeletonOf(a[b[id].parent]) == SkeletonOf(b[b[id].parent]);
      }
    }
  }

  lemma {:induction false} SkeletonNodeAt(a: seq<Node>, b: seq<Node>, path: seq<nat>)
    requires SameSkeleton(a, b)
    ensures NodeAt(a, path) == NodeAt(b, path)
    decreases |path|
  {
    if |path| > 0 {
      SkeletonNodeAt(a, b, path[..|path| - 1]);
      var n := NodeAt(a, path[..|path| - 1]);
      if n.Some? && n.value < |a| {
        assert SkeletonOf(a[n.value]) == SkeletonOf(b[n.value]);
      }
    }
  }

  lemma {:induction false} SkeletonPathOf(a: seq<Node>, b: seq<Node>, n: nat)
    requires WellFormed(a) && WellFormed(b) && SameSkeleton(a, b) && n < |a|
    ensures PathOf(a, n) == PathOf(b, n)
    decreases LevelOf(a[n])
  {
    assert SkeletonOf(a[n]) == SkeletonOf(b[n]);
    assert NodeOk(a, n);
    if !a[n].Root? {
      SkeletonPathOf(a, b, a[n].parent);
    }
  }

  lemma SkeletonLive(a: seq<Node>, b: seq<Node>, n: nat)
    requires WellFormed(a) && WellFormed(b) && SameSkeleton(a, b) && n < |a|
    ensures Live(a, n) <==> Live(b, n)
  {
    SkeletonPathOf(a, b, n);
    SkeletonNodeAt(a, b, PathOf(a, n));
  }

  /** Rewriting leaves keeps every live inner node non-empty. */
  lemma SkeletonNonEmpty(a: seq<Node>, b: seq<Node>)
    requires WellFormed(a) && WellFormed(b) && SameSkeleton(a, b) && NonEmptyInner(a)
    ensures NonEmptyInner(b)
  {
    forall n | 0 <= n < |b| && b[n].Inner? && Live(b, n)
      ensures FirstFrom(b[n].children, 0).Some?
    {
      assert SkeletonOf(a[n]) == SkeletonOf(b[n]);
      SkeletonLive(a, b, n);
    }
  }

  lemma {:induction false} SkeletonNextNode(a: seq<Node>, b: seq<Node>, p: nat, c: nat)
    requires WellFormed(a) && WellFormed(b) && SameSkeleton(a, b)
    requires p < |a| && !a[p].Leaf?
    ensures !b[p].Leaf? && NextNodeSpec(a, p, c) == NextNodeSpec(b, p, c)
    decreases LevelOf(a[p])
  {
    assert SkeletonOf(a[p]) == SkeletonOf(b[p]);
    assert NodeOk(a, p);
    if a[p].Inner? {
      SkeletonNextNode(a, b, a[p].parent, p);
      match NextNodeSpec(a, a[p].parent, p)
      case None =>
      case Some(q) =>
        if q < |a| {
          assert SkeletonOf(a[q]) == SkeletonOf(b[q]);
        }
    }
  }

  // ---------------------------------------------------------------------
  // Rewriting one leaf

  /** Leaf l replaced by a leaf n at the same place in the tree. */
  ghost predicate LeafRewrite(nodes: seq<Node>, l: nat, n: Node)
  {
    && l < |nodes| && nodes[l].Leaf? && n.Leaf?
    && n.parent == nodes[l].parent && n.selfIndex == nodes[l].selfIndex
    && |n.values| == |n.flags|
  }

  lemma LeafRewriteSkeleton(nodes: seq<Node>, l: nat, n: Node)
    requires WellFormed(nodes) && LeafRewrite(nodes, l, n)
    ensures SameSkeleton(nodes, nodes[l := n]) && WellFormed(nodes[l := n])
  {
    var b := nodes[l := n];
    forall id | 0 <= id < |b| && b[id].Leaf?
      ensures |b[id].values| == |b[id].flags|
    {
      assert NodeOk(nodes, id);
    }
    SkeletonWellFormed(nodes, b);
  }

  /** After rewriting live leaf l, a key below l is occupied as n's flags
      say, with n's value; every other key is as before. */
  lemma LeafRewriteKey(nodes: seq<Node>, l: nat, n: Node, k: seq<nat>)
    requires WellFormed(nodes) && LeafRewrite(nodes, l, n) && Live(nodes, l)
    ensures |PathOf(nodes, l)| == 3
    ensures var b := nodes[l := n];
      && (|k| == 4 && k[..3] == PathOf(nodes, l) ==>
            && (Occupied(b, k) <==> k[3] < |n.flags| && n.flags[k[3]])
            && (Occupied(b, k) ==> ValueAt(b, k) == n.values[k[3]]))
      && (!(|k| == 4 && k[..3] == PathOf(nodes, l)) ==>
            && (Occupied(b, k) <==> Occupied(nodes, k))
            && ValueAt(b, k) == ValueAt(nodes, k))
  {
    var b := nodes[l := n];
    LeafRewriteSkeleton(nodes, l, n);
    assert NodeOk(nodes, l);
    PathOfLength(nodes, l);
    if |k| == 4 {
      SkeletonNodeAt(nodes, b, k[..3]);
      if NodeAt(nodes, k[..3]) == Some(l) {
        NodeAtPath(nodes, k[..3]);
      } else if k[..3] == PathOf(nodes, l) {
        assert false;
      }
    }
  }

  /** The keys a leaf at path holds with these flags. */
  ghost function KeysOfLeaf(path: seq<nat>, flags: seq<bool>): set<seq<nat>>
  {
    set i | 0 <= i < |flags| && flags[i] :: path + [i]
  }

  lemma KeysOfLeafIff(path: seq<nat>, flags: seq<bool>, k: seq<nat>)
    ensures k in KeysOfLeaf(path, flags) <==>
      |k| == |path| + 1 && k[..|path|] == path && k[|path|] < |flags| && flags[k[|path|]]
  {
    if |k| == |path| + 1 && k[..|path|] == path {
      assert k == path + [k[|path|]];
    }
  }

  /** LeafRewriteKey in terms of the stored-key sets. */
  lemma LeafRewriteKeyIn(nodes: seq<Node>, l: nat, n: Node, k: seq<nat>)
    requires LeafRewrite(nodes, l, n) && WellFormed(nodes) && WellFormed(nodes[l := n]) && Live(nodes, l)
    ensures k in KeysOfLeaf(PathOf(nodes, l), nodes[l].flags) <==>
      k in OccupiedKeys(nodes) && |k| == 4 && k[..3] == PathOf(nodes, l)
    ensures k in OccupiedKeys(nodes[l := n]) <==>
      (k in OccupiedKeys(nodes) && k !in KeysOfLeaf(PathOf(nodes, l), nodes[l].flags))
      || k in KeysOfLeaf(PathOf(nodes, l), n.flags)
  {
    LeafRewriteSkeleton(nodes, l, n);
    assert NodeOk(nodes, l);
    assert nodes[l := nodes[l]] == nodes;
    var P := PathOf(nodes, l);
    OccupiedKeysIff(nodes, k);
    OccupiedKeysIff(nodes[l := n], k);
    LeafRewriteKey(nodes, l, n, k);
    LeafRewriteKey(nodes, l, nodes[l], k);
    KeysOfLeafIff(P, nodes[l].flags, k);
    KeysOfLeafIff(P, n.flags, k);
  }

  /** LeafRewriteKey for the values: a key of the new flags reads the new
      leaf's value, any other stored key its value before. */
  lemma LeafRewriteValueIn(nodes: seq<Node>, l: nat, n: Node, k: seq<nat>)
    requires LeafRewrite(nodes, l, n) && WellFormed(nodes) && WellFormed(nodes[l := n]) && Live(nodes, l)
    ensures k in KeysOfLeaf(PathOf(nodes, l), n.flags) ==>
      |k| == 4 && k[3] < |n.values| && ValueAt(nodes[l := n], k) == n.values[k[3]]
    ensures k in OccupiedKeys(nodes[l := n]) && k !in KeysOfLeaf(PathOf(nodes, l), n.flags) ==>
      ValueAt(nodes[l := n], k) == ValueAt(nodes, k)
  {
    LeafRewriteSkeleton(nodes, l, n);
    assert NodeOk(nodes, l);
    assert nodes[l := nodes[l]] == nodes;
    var P := PathOf(nodes, l);
    OccupiedKeysIff(nodes, k);
    OccupiedKeysIff(nodes[l := n], k);
    LeafRewriteKey(nodes, l, n, k);
    LeafRewriteKey(nodes, l, nodes[l], k);
    KeysOfLeafIff(P, nodes[l].flags, k);
    KeysOfLeafIff(P, n.flags, k);
  }

  /** Rewriting live leaf l trades the keys of its old flags for the keys of
      its new flags. */
  lemma LeafRewriteKeys(nodes: seq<Node>, l: nat, n: Node)
    requires WellFormed(nodes) && LeafRewrite(nodes, l, n) && Live(nodes, l)
    ensures WellFormed(nodes[l := n]) && SameSkeleton(nodes, nodes[l := n])
    ensures KeysOfLeaf(PathOf(nodes, l), nodes[l].flags) <= OccupiedKeys(nodes)
    ensures OccupiedKeys(nodes[l := n]) ==
      OccupiedKeys(nodes) - KeysOfLeaf(PathOf(nodes, l), nodes[l].flags) + KeysOfLeaf(PathOf(nodes, l), n.flags)
  {
    LeafRewriteSkeleton(nodes, l, n);
    forall k: seq<nat> {
      LeafRewriteKeyIn(nodes, l, n, k);
    }
  }

  /** Flags g are flags f with slot j set (any added slot clear). */
  lemma KeysOfLeafStore(path: seq<nat>, f: seq<bool>, g: seq<bool>, j: nat)
    requires j < |g| && g[j] && |f| <= |g|
    requires forall t :: 0 <= t < |g| && t != j ==> (g[t] <==> t < |f| && f[t])
    ensures KeysOfLeaf(path, g) == KeysOfLeaf(path, f) + {path + [j]}
  {
    forall k: seq<nat>
      ensures k in KeysOfLeaf(path, g) <==> k in KeysOfLeaf(path, f) || k == path + [j]
    {
      KeysOfLeafIff(path, f, k);
      KeysOfLeafIff(path, g, k);
      KeysOfLeafIff(path, g, path + [j]);
      assert (path + [j])[..|path|] == path;
      if |k| == |path| + 1 && k[..|path|] == path {
        assert k == path + [k[|path|]];
      }
    }
  }

  /** Flags g are flags f with slot j clear (no other slot set or lost). */
  lemma KeysOfLeafRemove(path: seq<nat>, f: seq<bool>, g: seq<bool>, j: nat)
    requires !(j < |g| && g[j])
    requires forall t :: 0 <= t < |g| && t != j ==> (g[t] <==> t < |f| && f[t])
    requires forall t :: 0 <= t < |f| && t != j && f[t] ==> t < |g|
    ensures KeysOfLeaf(path, g) == KeysOfLeaf(path, f) - {path + [j]}
  {
    forall k: seq<nat>
      ensures k in KeysOfLeaf(path, g) <==> k in KeysOfLeaf(path, f) && k != path + [j]
    {
      KeysOfLeafIff(path, f, k);
      KeysOfLeafIff(path, g, k);
      if |k| == |path| + 1 && k[..|path|] == path {
        assert k == path + [k[|path|]];
      }
    }
  }

  /** Contents after a key is added or overwritten. */
  lemma ContentsUpdated(a: seq<Node>, b: seq<Node>, key: seq<nat>, v: int)
    requires WellFormed(a) && WellFormed(b)
    requires OccupiedKeys(b) == OccupiedKeys(a) + {key}
    requires forall k | k in OccupiedKeys(b) :: ValueAt(b, k) == if k == key then v else ValueAt(a, k)
    ensures Contents(b) == Contents(a)[key := v]
  {
  }

  /** Contents after a key is removed. */
  lemma ContentsRemoved(a: seq<Node>, b: seq<Node>, key: seq<nat>)
    requires WellFormed(a) && WellFormed(b)
    requires OccupiedKeys(b) == OccupiedKeys(a) - {key}
    requires forall k | k in OccupiedKeys(b) :: ValueAt(b, k) == ValueAt(a, k)
    ensures Contents(b) == Contents(a) - {key}
  {
  }

  /** Removing a key from a set of keys counts one less exactly when it
      was there. */
  lemma CountErase(keys: set<seq<nat>>, k: seq<nat>)
    ensures |keys - {k}| == |keys| - (if k in keys then 1 else 0)
  {
    if k !in keys {
      assert keys - {k} == keys;
    }
  }

  /** Adding a key to a set of keys counts one more exactly when it was
      not there. */
  lemma CountStore(keys: set<seq<nat>>, k: seq<nat>)
    ensures |keys + {k}| == |keys| + (if k in keys then 0 else 1)
  {
    if k in keys {
      assert keys + {k} == keys;
    }
  }

  /** Contents after a set of keys is removed. */
  lemma ContentsRestricted(a: seq<Node>, b: seq<Node>, K: set<seq<nat>>)
    requires WellFormed(a) && WellFormed(b)
    requires OccupiedKeys(b) == OccupiedKeys(a) - K
    requires forall k | k in OccupiedKeys(b) :: ValueAt(b, k) == ValueAt(a, k)
    ensures Contents(b) == Contents(a) - K
  {
  }

  /** The flags of n are those of leaf l with slot j set (others clear or
      as before), the values as before where set. */
  ghost predicate StoresAt(old_: Node, n: Node, j: nat, v: int)
    requires old_.Leaf? && n.Leaf?
  {
    && j < |n.flags| && j < |n.values| && n.flags[j] && n.values[j] == v && |old_.flags| <= |n.flags|
    && (forall t :: 0 <= t < |n.flags| && t != j ==> (n.flags[t] <==> t < |old_.flags| && old_.flags[t]))
    && (forall t :: 0 <= t < |n.flags| && t != j && n.flags[t] ==>
          t < |old_.values| && t < |n.values| && n.values[t] == old_.values[t])
  }

  /** The flags of n are those of leaf l with slot j clear, the values as
      before where set. */
  ghost predicate RemovesAt(old_: Node, n: Node, j: nat)
    requires old_.Leaf? && n.Leaf?
  {
    && !(j < |n.flags| && n.flags[j])
    && (forall t :: 0 <= t < |n.flags| && t != j ==> (n.flags[t] <==> t < |old_.flags| && old_.flags[t]))
    && (forall t :: 0 <= t < |old_.flags| && t != j && old_.flags[t] ==> t < |n.flags|)
    && (forall t :: 0 <= t < |n.flags| && t != j && n.flags[t] ==>
          t < |old_.values| && t < |n.values| && n.values[t] == old_.values[t])
  }

  lemma StoreValue(nodes: seq<Node>, l: nat, n: Node, j: nat, v: int, k: seq<nat>)
    requires WellFormed(nodes) && LeafRewrite(nodes, l, n) && Live(nodes, l) && StoresAt(nodes[l], n, j, v)
    requires WellFormed(nodes[l := n]) && k in OccupiedKeys(nodes[l := n])
    ensures ValueAt(nodes[l := n], k) == if k == PathOf(nodes, l) + [j] then v else ValueAt(nodes, k)
  {
    var P := PathOf(nodes, l);
    LeafRewriteKeyIn(nodes, l, n, k);
    LeafRewriteValueIn(nodes, l, n, k);
    KeysOfLeafIff(P, nodes[l].flags, k);
    KeysOfLeafIff(P, n.flags, k);
    if |k| == 4 && k[..3] == P {
      assert k == P + [j] <==> k[3] == j by { assert k == k[..3] + [k[3]]; }
      if k[3] != j {
        assert NodeOk(nodes, l);
        assert nodes[l := nodes[l]] == nodes;
        LeafRewriteKeyIn(nodes, l, nodes[l], k);
        LeafRewriteValueIn(nodes, l, nodes[l], k);
      }
    }
  }

  /** LeafNode::set: live leaf l rewritten to store v at slot j stores v
      under l's path plus j and changes no other key. */
  lemma StoreContents(nodes: seq<Node>, l: nat, n: Node, j: nat, v: int)
    requires WellFormed(nodes) && LeafRewrite(nodes, l, n) && Live(nodes, l) && StoresAt(nodes[l], n, j, v)
    ensures WellFormed(nodes[l := n]) && SameSkeleton(nodes, nodes[l := n])
    ensures OccupiedKeys(nodes[l := n]) == OccupiedKeys(nodes) + {PathOf(nodes, l) + [j]}
    ensures Contents(nodes[l := n]) == Contents(nodes)[PathOf(nodes, l) + [j] := v]
  {
    var P := PathOf(nodes, l);
    var key := P + [j];
    var b := nodes[l := n];
    LeafRewriteKeys(nodes, l, n);
    KeysOfLeafStore(P, nodes[l].flags, n.flags, j);
    assert OccupiedKeys(b) == OccupiedKeys(nodes) + {key};
    forall k | k in OccupiedKeys(b)
      ensures ValueAt(b, k) == if k == key then v else ValueAt(nodes, k)
    {
      StoreValue(nodes, l, n, j, v, k);
    }
    ContentsUpdated(nodes, b, key, v);
  }

  lemma RemoveValue(nodes: seq<Node>, l: nat, n: Node, j: nat, k: seq<nat>)
    requires WellFormed(nodes) && LeafRewrite(nodes, l, n) && Live(nodes, l) && RemovesAt(nodes[l], n, j)
    requires WellFormed(nodes[l := n]) && k in OccupiedKeys(nodes[l := n])
    ensures ValueAt(nodes[l := n], k) == ValueAt(nodes, k)
  {
    var P := PathOf(nodes, l);
    LeafRewriteKeyIn(nodes, l, n, k);
    LeafRewriteValueIn(nodes, l, n, k);
    KeysOfLeafIff(P, n.flags, k);
    if k in KeysOfLeaf(P, n.flags) {
      assert NodeOk(nodes, l);
      assert nodes[l := nodes[l]] == nodes;
      LeafRewriteKeyIn(nodes, l, nodes[l], k);
      LeafRewriteValueIn(nodes, l, nodes[l], k);
      KeysOfLeafIff(P, nodes[l].flags, k);
    }
  }

  /** LeafNode::erase: live leaf l rewritten with slot j absent loses the
      key at l's path plus j and changes no other key. */
  lemma RemoveContents(nodes: seq<Node>, l: nat, n: Node, j: nat)
    requires WellFormed(nodes) && LeafRewrite(nodes, l, n) && Live(nodes, l) && RemovesAt(nodes[l], n, j)
    ensures WellFormed(nodes[l := n]) && SameSkeleton(nodes, nodes[l := n])
    ensures OccupiedKeys(nodes[l := n]) == OccupiedKeys(nodes) - {PathOf(nodes, l) + [j]}
    ensures Contents(nodes[l := n]) == Contents(nodes) - {PathOf(nodes, l) + [j]}
  {
    var P := PathOf(nodes, l);
    var key := P + [j];
    var b := nodes[l := n];
    LeafRewriteKeys(nodes, l, n);
    PathOfLength(nodes, l);
    KeysOfLeafRemove(P, nodes[l].flags, n.flags, j);
    LeafRewriteKeyIn(nodes, l, n, key);
    assert key[..3] == P;
    assert OccupiedKeys(b) == OccupiedKeys(nodes) - {key};
    forall k | k in OccupiedKeys(b)
      ensures ValueAt(b, k) == ValueAt(nodes, k)
    {
      RemoveValue(nodes, l, n, j, k);
    }
    ContentsRemoved(nodes, b, key);
  }

  /** The keys of a leaf whose flags are all clear: none. */
  lemma KeysOfEmptyLeaf(path: seq<nat>, f: seq<bool>)
    requires forall i :: 0 <= i < |f| ==> !f[i]
    ensures KeysOfLeaf(path, f) == {}
  {
    forall k | k in KeysOfLeaf(path, f)
      ensures false
    {
      KeysOfLeafIff(path, f, k);
    }
  }

  /** LeafNode::clear: live leaf l rewritten with no slot set loses the keys
      it held and changes no other key. */
  lemma EmptyLeafContents(nodes: seq<Node>, l: nat, n: Node)
    requires WellFormed(nodes) && LeafRewrite(nodes, l, n) && Live(nodes, l) && Bare(n)
    ensures WellFormed(nodes[l := n]) && SameSkeleton(nodes, nodes[l := n])
    ensures OccupiedKeys(nodes[l := n]) == OccupiedKeys(nodes) - KeysOfLeaf(PathOf(nodes, l), nodes[l].flags)
    ensures Contents(nodes[l := n]) == Contents(nodes) - KeysOfLeaf(PathOf(nodes, l), nodes[l].flags)
  {
    var P := PathOf(nodes, l);
    var b := nodes[l := n];
    var K := KeysOfLeaf(P, nodes[l].flags);
    LeafRewriteKeys(nodes, l, n);
    KeysOfEmptyLeaf(P, n.flags);
    assert OccupiedKeys(b) == OccupiedKeys(nodes) - K;
    forall k | k in OccupiedKeys(b)
      ensures ValueAt(b, k) == ValueAt(nodes, k)
    {
      LeafRewriteValueIn(nodes, l, n, k);
    }
    ContentsRestricted(nodes, b, K);

  }

  /** A slot of a live leaf is stored exactly when its flag is set, with
      the leaf's value. */
  lemma LeafSlotKey(nodes: seq<Node>, l: nat, i: nat)
    requires WellFormed(nodes) && l < |nodes| && nodes[l].Leaf? && Live(nodes, l)
    ensures |PathOf(nodes, l)| == 3
    ensures PathOf(nodes, l) + [i] in OccupiedKeys(nodes) <==> i < |nodes[l].flags| && nodes[l].flags[i]
    ensures i < |nodes[l].flags| && nodes[l].flags[i] ==>
      i < |nodes[l].values| && Contents(nodes)[PathOf(nodes, l) + [i]] == nodes[l].values[i]
  {
    var k := PathOf(nodes, l) + [i];
    PathOfLength(nodes, l);
    assert k[..3] == PathOf(nodes, l);
    OccupiedKeysIff(nodes, k);
    assert NodeOk(nodes, l);
  }

  /** n null child pointers. */
  function Nulls(n: nat): (r: seq<Option<nat>>)
    ensures |r| == n && AllNull(r)
  {
    seq(n, _ => None)
  }

  /** A node as its constructor makes it at the given level, below p in
      slot i: suffixCount(level) null children, or suffixCount(leaf) absent
      default values. */
  function NewNode(counts: seq<nat>, level: nat, p: nat, i: nat): (r: Node)
    requires |counts| == 4 && 1 <= level
    ensures Bare(r) && !r.Root? && r.parent == p && r.selfIndex == i
    ensures level <= LeafLevel ==> LevelOf(r) == level
    ensures r.Inner? <==> level < LeafLevel
    ensures r.Inner? ==> |r.children| == counts[level]
    ensures r.Leaf? ==> |r.flags| == counts[LeafLevel] && forall t :: 0 <= t < |r.values| ==> r.values[t] == DefaultValue
  {
    if level < LeafLevel then Inner(level, p, i, Nulls(counts[level]))
    else Leaf(p, i, seq(counts[LeafLevel], _ => DefaultValue), seq(counts[LeafLevel], _ => false))
  }

  // ---------------------------------------------------------------------
  // Creating a child (getChild on a null slot)

  /** A node as created: no child yet, or no value yet. */
  ghost predicate Bare(n: Node)
  {
    match n
    case Root(ch) => forall j :: 0 <= j < |ch| ==> ch[j].None?
    case Inner(_, _, _, ch) => forall j :: 0 <= j < |ch| ==> ch[j].None?
    case Leaf(_, _, vs, fs) => |vs| == |fs| && forall j :: 0 <= j < |fs| ==> !fs[j]
  }

  /** The arena after p's child list becomes ch2, whose slot i points at a
      new node appended at the end. */
  function Attach(nodes: seq<Node>, p: nat, ch2: seq<Option<nat>>, born: Node): seq<Node>
    requires p < |nodes| && !nodes[p].Leaf?
  {
    nodes[p := nodes[p].(children := ch2)] + [born]
  }

  /** ch2 keeps p's other slots (any added slot null), slot i was null and
      now holds the new node, which sits below p at slot i with nothing
      in it. */
  ghost predicate AttachOk(nodes: seq<Node>, p: nat, i: nat, ch2: seq<Option<nat>>, born: Node)
  {
    && p < |nodes| && !nodes[p].Leaf?
    && var ch := nodes[p].children;
    && |ch| <= |ch2| && i < |ch2| && ch2[i] == Some(|nodes|)
    && (i < |ch| ==> ch[i].None?)
    && (forall j :: 0 <= j < |ch| && j != i ==> ch2[j] == ch[j])
    && (forall j :: |ch| <= j < |ch2| && j != i ==> ch2[j].None?)
    && !born.Root? && born.parent == p && born.selfIndex == i
    && LevelOf(born) == LevelOf(nodes[p]) + 1
    && (born.Inner? ==> born.level < LeafLevel)
    && Bare(born)
  }

  lemma AttachWellFormed(nodes: seq<Node>, p: nat, i: nat, ch2: seq<Option<nat>>, born: Node)
    requires WellFormed(nodes) && AttachOk(nodes, p, i, ch2, born)
    ensures WellFormed(Attach(nodes, p, ch2, born))
  {
    var b := Attach(nodes, p, ch2, born);
    var c := |nodes|;
    forall id | 0 <= id < |b|
      ensures NodeOk(b, id)
    {
      if id < c {
        assert NodeOk(nodes, id);
        if !b[id].Leaf? {
          var ch := b[id].children;
          forall j | 0 <= j < |ch| && ch[j].Some?
            ensures ChildOk(b, id, j, ch[j].value)
          {
            if id == p && j == i {
            } else if id == p && j >= |nodes[p].children| {
            } else {
              assert ChildOk(nodes, id, j, ch[j].value);
            }
          }
        }
      }
    }
  }

  /** One step down after attaching: slot i of p is the new node, the new
      node has no child, every other slot is as before. */
  lemma AttachChild(nodes: seq<Node>, p: nat, i: nat, ch2: seq<Option<nat>>, born: Node, m: nat, x: nat)
    requires WellFormed(nodes) && AttachOk(nodes, p, i, ch2, born) && m <= |nodes|
    ensures Child(Attach(nodes, p, ch2, born), m, x) ==
      if m == p && x == i then Some(|nodes|)
      else if m == |nodes| then None
      else Child(nodes, m, x)
  {
  }

  /** Attaching changes what a path reaches only at p's slot i, and only
      when p is live. */
  lemma {:induction false} AttachNodeAt(nodes: seq<Node>, p: nat, i: nat, ch2: seq<Option<nat>>, born: Node, path: seq<nat>)
    requires WellFormed(nodes) && AttachOk(nodes, p, i, ch2, born)
    ensures NodeAt(Attach(nodes, p, ch2, born), path) ==
      if Live(nodes, p) && path == PathOf(nodes, p) + [i] then Some(|nodes|) else NodeAt(nodes, path)
    decreases |path|
  {
    var b := Attach(nodes, p, ch2, born);
    if |path| > 0 {
      var init := path[..|path| - 1];
      var x := path[|path| - 1];
      assert path == init + [x];
      AttachNodeAt(nodes, p, i, ch2, born, init);
      if Live(nodes, p) {
        NodeAtAppend(nodes, PathOf(nodes, p), i);
      }
      if NodeAt(nodes, init).Some? {
        NodeAtPath(nodes, init);
      }
      var q := NodeAt(b, init);
      if q.Some? {
        AttachChild(nodes, p, i, ch2, born, q.value, x);
      }
    }
  }

  lemma {:induction false} AttachPathOf(nodes: seq<Node>, p: nat, i: nat, ch2: seq<Option<nat>>, born: Node, n: nat)
    requires WellFormed(nodes) && AttachOk(nodes, p, i, ch2, born) && n <= |nodes|
    ensures WellFormed(Attach(nodes, p, ch2, born))
    ensures PathOf(Attach(nodes, p, ch2, born), n) ==
      if n == |nodes| then PathOf(nodes, p) + [i] else PathOf(nodes, n)
    decreases if n == |nodes| then LeafLevel + 1 else LevelOf(nodes[n])
  {
    AttachWellFormed(nodes, p, i, ch2, born);
    if n == |nodes| {
      AttachPathOf(nodes, p, i, ch2, born, p);
      var b := Attach(nodes, p, ch2, born);
      assert b[n] == born;
      assert PathOf(b, n) == PathOf(b, p) + [i];
      assert PathOf(b, p) == PathOf(nodes, p);
    } else {
      assert NodeOk(nodes, n);
      if !nodes[n].Root? {
        AttachPathOf(nodes, p, i, ch2, born, nodes[n].parent);
      }
    }
  }

  /** Old nodes stay live or dead; the new node is live iff p is. */
  lemma AttachLive(nodes: seq<Node>, p: nat, i: nat, ch2: seq<Option<nat>>, born: Node, n: nat)
    requires WellFormed(nodes) && AttachOk(nodes, p, i, ch2, born) && n <= |nodes|
    ensures WellFormed(Attach(nodes, p, ch2, born))
    ensures Live(Attach(nodes, p, ch2, born), n) <==> if n == |nodes| then Live(nodes, p) else Live(nodes, n)
  {
    AttachWellFormed(nodes, p, i, ch2, born);
    AttachPathOf(nodes, p, i, ch2, born, n);
    if n == |nodes| {
      AttachNodeAt(nodes, p, i, ch2, born, PathOf(nodes, p) + [i]);
      if NodeAt(nodes, PathOf(nodes, p) + [i]).Some? {
        NodeAtPath(nodes, PathOf(nodes, p) + [i]);
      }
    } else {
      AttachNodeAt(nodes, p, i, ch2, born, PathOf(nodes, n));
      if Live(nodes, p) && PathOf(nodes, n) == PathOf(nodes, p) + [i] {
        NodeAtAppend(nodes, PathOf(nodes, p), i);
      }
    }
  }

  lemma AttachOccupied(nodes: seq<Node>, p: nat, i: nat, ch2: seq<Option<nat>>, born: Node, k: seq<nat>)
    requires WellFormed(nodes) && AttachOk(nodes, p, i, ch2, born)
    ensures Occupied(Attach(nodes, p, ch2, born), k) <==> Occupied(nodes, k)
    ensures ValueAt(Attach(nodes, p, ch2, born), k) == ValueAt(nodes, k)
  {
    if |k| == 4 {
      AttachNodeAt(nodes, p, i, ch2, born, k[..3]);
    }
  }

  /** Creating a child stores nothing and loses nothing. */
  lemma AttachContents(nodes: seq<Node>, p: nat, i: nat, ch2: seq<Option<nat>>, born: Node)
    requires WellFormed(nodes) && AttachOk(nodes, p, i, ch2, born)
    ensures WellFormed(Attach(nodes, p, ch2, born))
    ensures OccupiedKeys(Attach(nodes, p, ch2, born)) == OccupiedKeys(nodes)
    ensures Contents(Attach(nodes, p, ch2, born)) == Contents(nodes)
  {
    var b := Attach(nodes, p, ch2, born);
    AttachWellFormed(nodes, p, i, ch2, born);
    forall k: seq<nat>
      ensures k in OccupiedKeys(b) <==> k in OccupiedKeys(nodes)
      ensures ValueAt(b, k) == ValueAt(nodes, k)
    {
      OccupiedKeysIff(nodes, k);
      OccupiedKeysIff(b, k);
      AttachOccupied(nodes, p, i, ch2, born, k);
    }
  }

  // ---------------------------------------------------------------------
  // Inner nodes on the way down

  /** Every live inner node other than e has a child. */
  ghost predicate NonEmptyBut(nodes: seq<Node>, e: nat)
    requires WellFormed(nodes)
  {
    forall n :: 0 <= n < |nodes| && n != e && nodes[n].Inner? && Live(nodes, n) ==>
      FirstFrom(nodes[n].children, 0).Some?
  }

  lemma NonEmptyButRoot(nodes: seq<Node>)
    requires WellFormed(nodes)
    ensures NonEmptyBut(nodes, 0) <==> NonEmptyInner(nodes)
  {
  }

  /** A non-null slot makes FirstFrom succeed. */
  lemma FirstFromSome(ch: seq<Option<nat>>, i: nat)
    requires i < |ch| && ch[i].Some?
    ensures FirstFrom(ch, 0).Some?
  {
  }

  /** Descending into an existing child moves the exception down. */
  lemma NonEmptyMoveDown(nodes: seq<Node>, p: nat, i: nat)
    requires WellFormed(nodes) && NonEmptyBut(nodes, p) && Child(nodes, p, i).Some?
    ensures NonEmptyBut(nodes, Child(nodes, p, i).value)
  {
    FirstFromSome(nodes[p].children, i);
  }

  /** Creating a child in p moves the exception to the new node. */
  lemma AttachNonEmpty(nodes: seq<Node>, p: nat, i: nat, ch2: seq<Option<nat>>, born: Node)
    requires WellFormed(nodes) && AttachOk(nodes, p, i, ch2, born) && NonEmptyBut(nodes, p)
    ensures WellFormed(Attach(nodes, p, ch2, born))
    ensures NonEmptyBut(Attach(nodes, p, ch2, born), |nodes|)
  {
    var b := Attach(nodes, p, ch2, born);
    AttachWellFormed(nodes, p, i, ch2, born);
    forall n | 0 <= n < |b| && n != |nodes| && b[n].Inner? && Live(b, n)
      ensures FirstFrom(b[n].children, 0).Some?
    {
      AttachLive(nodes, p, i, ch2, born, n);
      if n == p {
        FirstFromSome(ch2, i);
      }
    }
  }

  /** Everything the tree's getChild needs to know about a new child:
      the arena stays well formed with the same contents, only slot i of p
      changed, old nodes keep their liveness, and the new node inherits
      p's liveness, path and non-emptiness exception. */
  lemma AttachFacts(nodes: seq<Node>, p: nat, i: nat, ch2: seq<Option<nat>>, born: Node)
    requires WellFormed(nodes) && AttachOk(nodes, p, i, ch2, born)
    ensures WellFormed(Attach(nodes, p, ch2, born))
    ensures OccupiedKeys(Attach(nodes, p, ch2, born)) == OccupiedKeys(nodes)
    ensures Contents(Attach(nodes, p, ch2, born)) == Contents(nodes)
    ensures Child(Attach(nodes, p, ch2, born), p, i) == Some(|nodes|)
    ensures forall j :: j != i ==> Child(Attach(nodes, p, ch2, born), p, j) == Child(nodes, p, j)
    ensures forall n :: 0 <= n < |nodes| ==> (Live(Attach(nodes, p, ch2, born), n) <==> Live(nodes, n))
    ensures Live(nodes, p) ==>
      Live(Attach(nodes, p, ch2, born), |nodes|) && PathOf(Attach(nodes, p, ch2, born), |nodes|) == PathOf(nodes, p) + [i]
    ensures NonEmptyBut(nodes, p) ==> NonEmptyBut(Attach(nodes, p, ch2, born), |nodes|)
  {
    AttachContents(nodes, p, i, ch2, born);
    AttachLive(nodes, p, i, ch2, born, |nodes|);
    AttachPathOf(nodes, p, i, ch2, born, |nodes|);
    forall n | 0 <= n < |nodes|
      ensures Live(Attach(nodes, p, ch2, born), n) <==> Live(nodes, n)
    {
      AttachLive(nodes, p, i, ch2, born, n);
    }
    forall j | j != i
      ensures Child(Attach(nodes, p, ch2, born), p, j) == Child(nodes, p, j)
    {
      AttachChild(nodes, p, i, ch2, born, p, j);
    }
    AttachChild(nodes, p, i, ch2, born, p, i);
    if NonEmptyBut(nodes, p) {
      AttachNonEmpty(nodes, p, i, ch2, born);
    }
  }

  // ---------------------------------------------------------------------
  // Dropping every child of a node (clear)

  /** Node p with its child list replaced by null slots only. */
  function DropChildren(nodes: seq<Node>, p: nat, ch2: seq<Option<nat>>): seq<Node>
    requires p < |nodes| && !nodes[p].Leaf?
  {
    nodes[p := nodes[p].(children := ch2)]
  }

  ghost predicate AllNull(ch: seq<Option<nat>>)
  {
    forall j :: 0 <= j < |ch| ==> ch[j].None?
  }

  /** path passes strictly below p. */
  ghost predicate Below(nodes: seq<Node>, p: nat, path: seq<nat>)
    requires WellFormed(nodes) && p < |nodes|
  {
    && Live(nodes, p)
    && |path| > |PathOf(nodes, p)| && path[..|PathOf(nodes, p)|] == PathOf(nodes, p)
  }

  lemma DropWellFormed(nodes: seq<Node>, p: nat, ch2: seq<Option<nat>>)
    requires WellFormed(nodes) && p < |nodes| && !nodes[p].Leaf? && AllNull(ch2)
    ensures WellFormed(DropChildren(nodes, p, ch2))
  {
    var b := DropChildren(nodes, p, ch2);
    forall id | 0 <= id < |b|
      ensures NodeOk(b, id)
    {
      assert NodeOk(nodes, id);
      if id != p && !b[id].Leaf? {
        var ch := b[id].children;
        forall j | 0 <= j < |ch| && ch[j].Some?
          ensures ChildOk(b, id, j, ch[j].value)
        {
          assert ChildOk(nodes, id, j, ch[j].value);
        }
      }
    }
  }

  lemma {:induction false} DropPathOf(nodes: seq<Node>, p: nat, ch2: seq<Option<nat>>, n: nat)
    requires WellFormed(nodes) && p < |nodes| && !nodes[p].Leaf? && AllNull(ch2) && n < |nodes|
    ensures WellFormed(DropChildren(nodes, p, ch2))
    ensures PathOf(DropChildren(nodes, p, ch2), n) == PathOf(nodes, n)
    decreases LevelOf(nodes[n])
  {
    DropWellFormed(nodes, p, ch2);
    assert NodeOk(nodes, n);
    if !nodes[n].Root? {
      DropPathOf(nodes, p, ch2, nodes[n].parent);
    }
  }

  /** After the drop, exactly the paths through p reach nothing. */
  lemma {:induction false} DropNodeAt(nodes: seq<Node>, p: nat, ch2: seq<Option<nat>>, path: seq<nat>)
    requires WellFormed(nodes) && p < |nodes| && !nodes[p].Leaf? && AllNull(ch2)
    ensures NodeAt(DropChildren(nodes, p, ch2), path) == if Below(nodes, p, path) then None else NodeAt(nodes, path)
    decreases |path|
  {
    var b := DropChildren(nodes, p, ch2);
    var P := PathOf(nodes, p);
    if |path| > 0 {
      var init := path[..|path| - 1];
      var x := path[|path| - 1];
      assert path == init + [x];
      DropNodeAt(nodes, p, ch2, init);
      if Below(nodes, p, init) {
        assert path[..|P|] == init[..|P|];
      } else if NodeAt(nodes, init).Some? {
        NodeAtPath(nodes, init);
        var m := NodeAt(nodes, init).value;
        if m == p {
          assert Below(nodes, p, path);
        }
      }
    }
  }

  lemma DropOccupied(nodes: seq<Node>, p: nat, ch2: seq<Option<nat>>, k: seq<nat>)
    requires WellFormed(nodes) && p < |nodes| && !nodes[p].Leaf? && AllNull(ch2)
    ensures WellFormed(DropChildren(nodes, p, ch2))
    ensures |PathOf(nodes, p)| < 3
    ensures Occupied(DropChildren(nodes, p, ch2), k) <==>
      Occupied(nodes, k) && !(Live(nodes, p) && k[..|PathOf(nodes, p)|] == PathOf(nodes, p))
    ensures ValueAt(DropChildren(nodes, p, ch2), k) ==
      if Occupied(DropChildren(nodes, p, ch2), k) then ValueAt(nodes, k) else DefaultValue
  {
    DropWellFormed(nodes, p, ch2);
    assert NodeOk(nodes, p);
    PathOfLength(nodes, p);
    if |k| == 4 {
      DropNodeAt(nodes, p, ch2, k[..3]);
      var P := PathOf(nodes, p);
      assert k[..3][..|P|] == k[..|P|];
    }
  }

  /** clear() on node p: the keys through p are gone, all others stay. */
  lemma DropContents(nodes: seq<Node>, p: nat, ch2: seq<Option<nat>>)
    requires WellFormed(nodes) && p < |nodes| && !nodes[p].Leaf? && AllNull(ch2)
    ensures WellFormed(DropChildren(nodes, p, ch2)) && |PathOf(nodes, p)| < 3
    ensures OccupiedKeys(DropChildren(nodes, p, ch2)) ==
      set k | k in OccupiedKeys(nodes) && |k| == 4 && !(Live(nodes, p) && k[..|PathOf(nodes, p)|] == PathOf(nodes, p))
    ensures forall k | k in Contents(DropChildren(nodes, p, ch2)) ::
      k in Contents(nodes) && Contents(DropChildren(nodes, p, ch2))[k] == Contents(nodes)[k]
  {
    var b := DropChildren(nodes, p, ch2);
    DropWellFormed(nodes, p, ch2);
    assert NodeOk(nodes, p);
    PathOfLength(nodes, p);
    forall k: seq<nat>
      ensures k in OccupiedKeys(b) <==> k in OccupiedKeys(nodes) && |k| == 4 && !(Live(nodes, p) && k[..|PathOf(nodes, p)|] == PathOf(nodes, p))
      ensures k in OccupiedKeys(b) ==> ValueAt(b, k) == ValueAt(nodes, k)
    {
      OccupiedKeysIff(nodes, k);
      OccupiedKeysIff(b, k);
      DropOccupied(nodes, p, ch2, k);
    }
  }

  /** RootNode::clear: nothing stored, and no inner node is left reachable. */
  lemma DropRoot(nodes: seq<Node>, ch2: seq<Option<nat>>)
    requires WellFormed(nodes) && AllNull(ch2)
    ensures WellFormed(DropChildren(nodes, 0, ch2))
    ensures OccupiedKeys(DropChildren(nodes, 0, ch2)) == {}
    ensures Contents(DropChildren(nodes, 0, ch2)) == map[]
    ensures NonEmptyInner(DropChildren(nodes, 0, ch2))
  {
    var b := DropChildren(nodes, 0, ch2);
    DropContents(nodes, 0, ch2);
    assert Live(nodes, 0) && PathOf(nodes, 0) == [];
    forall n | 0 <= n < |b| && b[n].Inner? && Live(b, n)
      ensures false
    {
      DropPathOf(nodes, 0, ch2, n);
      assert NodeOk(nodes, n);
      DropNodeAt(nodes, 0, ch2, PathOf(nodes, n));
    }
  }

  // ---------------------------------------------------------------------
  // Stored keys in order

  /** k is stored and comes after K. */
  ghost predicate KeyAfter(nodes: seq<Node>, key: seq<nat>, k: seq<nat>)
    requires WellFormed(nodes)
  {
    k in OccupiedKeys(nodes) && LessPath(key, k)
  }

  /** r is the first stored key after K. */
  ghost predicate NextKey(nodes: seq<Node>, key: seq<nat>, r: seq<nat>)
    requires WellFormed(nodes)
  {
    KeyAfter(nodes, key, r) && forall k :: KeyAfter(nodes, key, k) ==> !LessPath(k, r)
  }

  /** No stored key comes after K. */
  ghost predicate NoKeyAfter(nodes: seq<Node>, key: seq<nat>)
    requires WellFormed(nodes)
  {
    forall k :: !KeyAfter(nodes, key, k)
  }

  /** A node on the leaf level is a leaf. */
  lemma LeafLevelIsLeaf(nodes: seq<Node>, n: nat)
    requires WellFormed(nodes) && n < |nodes| && LevelOf(nodes[n]) == LeafLevel
    ensures nodes[n].Leaf?
  {
    assert NodeOk(nodes, n);
  }

  /** The live leaf holding a stored key. */
  lemma OccupiedLeaf(nodes: seq<Node>, k: seq<nat>) returns (m: nat)
    requires WellFormed(nodes) && k in OccupiedKeys(nodes)
    ensures m < |nodes| && nodes[m].Leaf? && Live(nodes, m)
    ensures |k| == 4 && PathOf(nodes, m) == k[..3] && k == PathOf(nodes, m) + [k[3]]
    ensures k[3] < |nodes[m].flags| && nodes[m].flags[k[3]]
  {
    OccupiedKeysIff(nodes, k);
    m := NodeAt(nodes, k[..3]).value;
    NodeAtPath(nodes, k[..3]);
    assert k == k[..3] + [k[3]];
  }

  /** The iterator's key: the leaf's path and the slot. */
  lemma KeyOfLeafSlot(nodes: seq<Node>, l: nat, j: nat)
    requires WellFormed(nodes) && l < |nodes| && nodes[l].Leaf? && Live(nodes, l)
    requires j < |nodes[l].flags| && nodes[l].flags[j]
    ensures |PathOf(nodes, l)| == 3 && PathOf(nodes, l) + [j] in OccupiedKeys(nodes)
  {
    PathOfLength(nodes, l);
  }

  /** The next set flag of the same leaf gives the next stored key. */
  lemma SameLeafNext(nodes: seq<Node>, l: nat, j: nat, j2: nat)
    requires WellFormed(nodes) && l < |nodes| && nodes[l].Leaf? && Live(nodes, l)
    requires FirstSet(nodes[l].flags, j + 1) == Some(j2)
    ensures NextKey(nodes, PathOf(nodes, l) + [j], PathOf(nodes, l) + [j2])
  {
    var P := PathOf(nodes, l);
    KeyOfLeafSlot(nodes, l, j2);
    LessPathAppend(P, j, P, j2);
    forall k | KeyAfter(nodes, P + [j], k)
      ensures !LessPath(k, P + [j2])
    {
      var m := OccupiedLeaf(nodes, k);
      var Q := k[..3];
      var t := k[3];
      LessPathAppend(P, j, Q, t);
      LessPathAppend(Q, t, P, j2);
      LessPathIrreflexive(P);
      if Q == P {
        LiveUnique(nodes, l, m);
        assert !(j < t < j2);
      } else if LessPath(P, Q) {
        LessPathAsymmetric(P, Q);
      }
    }
  }

  /** Every stored key after K lies in a leaf after l; K itself is not
      beyond l. */
  ghost predicate BeyondLeaf(nodes: seq<Node>, key: seq<nat>, l: nat)
    requires WellFormed(nodes)
  {
    && l < |nodes| && nodes[l].Leaf? && Live(nodes, l) && |key| == 4
    && (key[..3] == PathOf(nodes, l) || LessPath(key[..3], PathOf(nodes, l)))
    && forall k :: KeyAfter(nodes, key, k) ==> LessPath(PathOf(nodes, l), k[..3])
  }

  /** No set flag after slot j: every later key lies beyond the leaf. */
  lemma LeafDoneBeyond(nodes: seq<Node>, l: nat, j: nat)
    requires WellFormed(nodes) && l < |nodes| && nodes[l].Leaf? && Live(nodes, l)
    requires FirstSet(nodes[l].flags, j + 1).None?
    ensures BeyondLeaf(nodes, PathOf(nodes, l) + [j], l)
  {
    var P := PathOf(nodes, l);
    PathOfLength(nodes, l);
    assert (P + [j])[..3] == P;
    forall k | KeyAfter(nodes, P + [j], k)
      ensures LessPath(P, k[..3])
    {
      var m := OccupiedLeaf(nodes, k);
      LessPathAppend(P, j, k[..3], k[3]);
      if k[..3] == P {
        LiveUnique(nodes, l, m);
      }
    }
  }

  /** Moving past an empty leaf keeps every later key beyond. */
  lemma SkipEmptyLeaf(nodes: seq<Node>, key: seq<nat>, l: nat, l2: nat)
    requires WellFormed(nodes) && BeyondLeaf(nodes, key, l) && Successor(nodes, l, l2)
    requires nodes[l2].Leaf? && FirstSet(nodes[l2].flags, 0).None?
    ensures BeyondLeaf(nodes, key, l2)
  {
    var P := PathOf(nodes, l);
    var P2 := PathOf(nodes, l2);
    if LessPath(key[..3], P) {
      LessPathTransitive(key[..3], P, P2);
    }
    forall k | KeyAfter(nodes, key, k)
      ensures LessPath(P2, k[..3])
    {
      var m := OccupiedLeaf(nodes, k);
      assert LiveAfter(nodes, l, m);
      PathOfLength(nodes, m);
      PathOfLength(nodes, l2);
      LessPathTotal(PathOf(nodes, m), P2);
      if PathOf(nodes, m) == P2 {
        LiveUnique(nodes, m, l2);
      }
    }
  }

  /** The first set flag of the next non-empty leaf is the next key. */
  lemma FoundInNextLeaf(nodes: seq<Node>, key: seq<nat>, l: nat, l2: nat, j0: nat)
    requires WellFormed(nodes) && BeyondLeaf(nodes, key, l) && Successor(nodes, l, l2)
    requires nodes[l2].Leaf? && FirstSet(nodes[l2].flags, 0) == Some(j0)
    ensures NextKey(nodes, key, PathOf(nodes, l2) + [j0])
  {
    var P := PathOf(nodes, l);
    var P2 := PathOf(nodes, l2);
    var r := P2 + [j0];
    KeyOfLeafSlot(nodes, l2, j0);
    if LessPath(key[..3], P) {
      LessPathTransitive(key[..3], P, P2);
    }
    assert key == key[..3] + [key[3]];
    LessPathAppend(key[..3], key[3], P2, j0);
    forall k | KeyAfter(nodes, key, k)
      ensures !LessPath(k, r)
    {
      var m := OccupiedLeaf(nodes, k);
      assert LiveAfter(nodes, l, m);
      PathOfLength(nodes, m);
      PathOfLength(nodes, l2);
      LessPathTotal(PathOf(nodes, m), P2);
      LessPathAppend(PathOf(nodes, m), k[3], P2, j0);
      if PathOf(nodes, m) == P2 {
        LiveUnique(nodes, m, l2);
        LessPathIrreflexive(P2);
      } else if LessPath(P2, PathOf(nodes, m)) {
        LessPathAsymmetric(P2, PathOf(nodes, m));
      }
    }
  }

  /** With no leaf after l, no key comes after K. */
  lemma NoneAfterLast(nodes: seq<Node>, key: seq<nat>, l: nat)
    requires WellFormed(nodes) && BeyondLeaf(nodes, key, l) && LastOfLevel(nodes, l)
    ensures NoKeyAfter(nodes, key)
  {
    forall k | KeyAfter(nodes, key, k)
      ensures false
    {
      var m := OccupiedLeaf(nodes, k);
      assert LiveAfter(nodes, l, m);
    }
  }

  // ---------------------------------------------------------------------
  // The scans as loops

  /** std::find over a child list. */
  method FindSlot(ch: seq<Option<nat>>, c: nat) returns (r: Option<nat>)
    ensures r == SlotOf(ch, c)
  {
    var i := 0;
    while i < |ch|
      invariant 0 <= i <= |ch|
      invariant forall j :: 0 <= j < i ==> ch[j] != Some(c)
    {
      if ch[i] == Some(c) {
        SlotOfFirst(ch, c, i);
        return Some(i);
      }
      i := i + 1;
    }
    SlotOfNone(ch, c);
    return None;
  }

  lemma {:induction false} SlotOfFirst(ch: seq<Option<nat>>, c: nat, i: nat)
    requires i < |ch| && ch[i] == Some(c) && forall j :: 0 <= j < i ==> ch[j] != Some(c)
    ensures SlotOf(ch, c) == Some(i)
    decreases i
  {
    if i > 0 {
      SlotOfFirst(ch[1..], c, i - 1);
    }
  }

  lemma {:induction false} SlotOfNone(ch: seq<Option<nat>>, c: nat)
    requires forall j :: 0 <= j < |ch| ==> ch[j] != Some(c)
    ensures SlotOf(ch, c) == None
    decreases |ch|
  {
    if |ch| > 0 {
      SlotOfNone(ch[1..], c);
    }
  }

  /** std::find_if for a non-null slot, from slot from. */
  method FindNonNull(ch: seq<Option<nat>>, from: nat) returns (r: Option<nat>)
    ensures r == FirstFrom(ch, from)
  {
    var i := from;
    while i < |ch|
      invariant from <= i
      invariant FirstFrom(ch, from) == FirstFrom(ch, i)
      decreases |ch| - i
    {
      if ch[i].Some? {
        return Some(i);
      }
      i := i + 1;
    }
    return None;
  }

  /** The loop of the older LeafNode::next and begin: the first set flag at
      or after from. */
  method FindSetFlag(flags: seq<bool>, from: nat) returns (r: Option<nat>)
    ensures r == FirstSet(flags, from)
  {
    var i := from;
    while i < |flags|
      invariant from <= i
      invariant FirstSet(flags, from) == FirstSet(flags, i)
      decreases |flags| - i
    {
      if flags[i] {
        return Some(i);
      }
      i := i + 1;
    }
    return None;
  }
}
