/** The newer node implementation (RootNode, SuffixNode, LeafNode in
    src/SuffixTreeImpl.h) over the arena of SuffixNodes. A NodeStore holds
    the nodes of one tree; every node operation takes the node's slot. The
    dictionary sizes a node is created with (metaInfo.suffixCount, read at
    the moment of creation) are passed in as counts, one per level. */
module SuffixTreeImplModel {
  import opened Wrappers
  import opened SuffixNodes

  /** What findChild reads: a slot, or the element one past the end of the
      child vector. */
  datatype ChildRead = Read(child: Option<nat>) | PastEnd

  /** vector::resize(i + 1, fill) when i is out of range; otherwise s. */
  function Grow<T>(s: seq<T>, i: nat, fill: T): (r: seq<T>)
    ensures |r| == if i < |s| then |s| else i + 1
    ensures forall t :: 0 <= t < |r| ==> r[t] == if t < |s| then s[t] else fill
  {
    if i < |s| then s else s + seq(i + 1 - |s|, _ => fill)
  }

  /** Leaf n after set(i, v): both vectors grown to cover i, slot i present
      with v. */
  function StoredLeaf(n: Node, i: nat, v: int): Node
    requires n.Leaf?
  {
    n.(values := Grow(n.values, i, DefaultValue)[i := v], flags := Grow(n.flags, i, false)[i := true])
  }

  /** Keys through p are gone: the drop of clear() seen key by key. */
  lemma DropKeys(nodes: seq<Node>, p: nat, ch2: seq<Option<nat>>)
    requires WellFormed(nodes) && p < |nodes| && !nodes[p].Leaf? && AllNull(ch2)
    ensures WellFormed(DropChildren(nodes, p, ch2))
    ensures forall k :: k in OccupiedKeys(DropChildren(nodes, p, ch2)) <==>
      k in OccupiedKeys(nodes) && !Below(nodes, p, k)
    ensures forall k | k in Contents(DropChildren(nodes, p, ch2)) ::
      Contents(DropChildren(nodes, p, ch2))[k] == Contents(nodes)[k]
  {
    DropContents(nodes, p, ch2);
    forall k
      ensures k in OccupiedKeys(DropChildren(nodes, p, ch2)) <==> k in OccupiedKeys(nodes) && !Below(nodes, p, k)
    {
      OccupiedKeysIff(nodes, k);
    }
  }

  /** What set(i, v) on leaf l does to the tree: same skeleton, v stored
      under the slot's key of a live leaf, one more key exactly when the
      slot was absent. */
  lemma StoredLeafFacts(nodes: seq<Node>, l: nat, i: nat, v: int)
    requires WellFormed(nodes) && l < |nodes| && nodes[l].Leaf?
    ensures WellFormed(nodes[l := StoredLeaf(nodes[l], i, v)])
    ensures SameSkeleton(nodes, nodes[l := StoredLeaf(nodes[l], i, v)])
    ensures forall m | 0 <= m < |nodes| :: Live(nodes[l := StoredLeaf(nodes[l], i, v)], m) <==> Live(nodes, m)
    ensures Live(nodes, l) ==>
      Contents(nodes[l := StoredLeaf(nodes[l], i, v)]) == Contents(nodes)[PathOf(nodes, l) + [i] := v]
    ensures Live(nodes, l) ==>
      |OccupiedKeys(nodes[l := StoredLeaf(nodes[l], i, v)])| ==
      |OccupiedKeys(nodes)| + (if i < |nodes[l].flags| && nodes[l].flags[i] then 0 else 1)
  {
    assert NodeOk(nodes, l);
    var n2 := StoredLeaf(nodes[l], i, v);
    LeafRewriteSkeleton(nodes, l, n2);
    forall m | 0 <= m < |nodes|
      ensures Live(nodes[l := n2], m) <==> Live(nodes, m)
    {
      SkeletonLive(nodes, nodes[l := n2], m);
    }
    if Live(nodes, l) {
      StoreContents(nodes, l, n2, i, v);
      LeafSlotKey(nodes, l, i);
      CountStore(OccupiedKeys(nodes), PathOf(nodes, l) + [i]);
    }
  }

  class NodeStore {
    /** The nodes of the tree; slot 0 is the root. */
    var nodes: seq<Node>

    ghost predicate Valid()
      reads this
    {
      WellFormed(nodes)
    }

    /** RootNode(metaInfo): a root with suffixCount(root) null children. */
    constructor (counts: seq<nat>)
      requires |counts| == 4
      ensures Valid() && nodes == [Root(Nulls(counts[0]))]
      ensures Contents(nodes) == map[] && NonEmptyInner(nodes)
    {
      nodes := [Root(Nulls(counts[0]))];
      new;
      assert NodeOk(nodes, 0);
      assert OccupiedKeys(nodes) == {};
    }

    /** The deep-copy constructors: the same shape, and leaf values and
        flags copied by value; later changes to either tree leave the other
        alone, since the nodes are values. */
    constructor Copy(other: NodeStore)
      requires other.Valid()
      ensures Valid() && nodes == other.nodes
      ensures Contents(nodes) == Contents(other.nodes)
    {
      nodes := other.nodes;
    }

    /** getChild(i) on the root or an inner node: grows the child list to
        cover i, creates the child if slot i is null, and returns it. */
    method GetChild(p: nat, i: nat, counts: seq<nat>) returns (c: nat)
      requires Valid() && p < |nodes| && !nodes[p].Leaf? && |counts| == 4
      modifies this
      ensures Valid()
      ensures Child(nodes, p, i) == Some(c)
      ensures old(Child(nodes, p, i)).Some? ==> c == old(Child(nodes, p, i)).value && nodes == old(nodes)
      ensures old(Child(nodes, p, i)).None? ==>
        && c == old(|nodes|)
        && nodes == Attach(old(nodes), p, Grow(old(nodes[p].children), i, None)[i := Some(c)],
                           NewNode(counts, LevelOf(old(nodes[p])) + 1, p, i))
      ensures forall j :: j != i ==> Child(nodes, p, j) == old(Child(nodes, p, j))
      ensures c < |nodes| && !nodes[c].Root? && nodes[c].parent == p && nodes[c].selfIndex == i
      ensures LevelOf(nodes[c]) == LevelOf(nodes[p]) + 1
      ensures Contents(nodes) == old(Contents(nodes))
      ensures old(Live(nodes, p)) ==> Live(nodes, c) && PathOf(nodes, c) == old(PathOf(nodes, p)) + [i]
      ensures forall n :: 0 <= n < old(|nodes|) ==> (Live(nodes, n) <==> old(Live(nodes, n)))
      ensures old(NonEmptyBut(nodes, p)) ==> NonEmptyBut(nodes, c)
    {
      assert NodeOk(nodes, p);
      var ch := nodes[p].children;
      if |ch| <= i {
        ch := ch + Nulls(i + 1 - |ch|);
      }
      if ch[i].None? {
        ghost var before := nodes;
        c := |nodes|;
        var born := NewNode(counts, LevelOf(nodes[p]) + 1, p, i);
        var ch2 := ch[i := Some(c)];
        assert ch2 == Grow(nodes[p].children, i, None)[i := Some(c)];
        assert AttachOk(before, p, i, ch2, born);
        AttachFacts(before, p, i, ch2, born);
        nodes := Attach(nodes, p, ch2, born);
      } else {
        c := ch[i].value;
        ChildStep(nodes, p, i);
        if Live(nodes, p) {
          LiveChild(nodes, p, i);
        }
        if NonEmptyBut(nodes, p) {
          NonEmptyMoveDown(nodes, p, i);
        }
      }
    }

    /** RootNode::findChild: the child in slot i, null past the end;
        never creates a node. */
    function FindChild(p: nat, i: nat): (r: Option<nat>)
      reads this
      requires Valid() && p < |nodes| && !nodes[p].Leaf?
      ensures i >= |nodes[p].children| ==> r.None?
      ensures i < |nodes[p].children| ==> r == nodes[p].children[i]
      ensures r.Some? ==>
        r.value < |nodes| && !nodes[r.value].Root? && nodes[r.value].parent == p && nodes[r.value].selfIndex == i
      ensures r.Some? && Live(nodes, p) ==> Live(nodes, r.value) && PathOf(nodes, r.value) == PathOf(nodes, p) + [i]
    {
      if i < |nodes[p].children| && nodes[p].children[i].Some? then
        ChildStep(nodes, p, i);
        LiveChildOf(p, i);
        nodes[p].children[i]
      else if i < |nodes[p].children| then nodes[p].children[i]
      else None
    }

    lemma LiveChildOf(p: nat, i: nat)
      requires Valid() && Child(nodes, p, i).Some?
      ensures Live(nodes, p) ==> Live(nodes, Child(nodes, p, i).value)
    {
      if Live(nodes, p) {
        LiveChild(nodes, p, i);
      }
    }

    /** SuffixNode::findChild as written: the guard is size < i, so i equal
        to the size reads the element past the end. */
    function FindChildAsWritten(p: nat, i: nat): (r: ChildRead)
      reads this
      requires Valid() && p < |nodes| && nodes[p].Inner?
      ensures r == PastEnd <==> i == |nodes[p].children|
      ensures r.Read? && i < |nodes[p].children| ==> r.child == FindChild(p, i)
      ensures r.Read? && i > |nodes[p].children| ==> r.child.None?
    {
      if |nodes[p].children| < i then Read(None)
      else if i == |nodes[p].children| then PastEnd
      else Read(nodes[p].children[i])
    }

    /** next(i) on the root or an inner node: the first non-null slot after
        i, INVALID_INDEX (None) when there is none or i is out of range. */
    method Next(p: nat, i: nat) returns (r: Option<nat>)
      requires Valid() && p < |nodes| && !nodes[p].Leaf?
      ensures i >= |nodes[p].children| ==> r.None?
      ensures r.Some? ==> i < r.value < |nodes[p].children| && nodes[p].children[r.value].Some?
      ensures r.Some? ==> forall j :: i < j < r.value ==> nodes[p].children[j].None?
      ensures r.None? ==> forall j :: i < j < |nodes[p].children| ==> nodes[p].children[j].None?
    {
      var ch := nodes[p].children;
      if |ch| <= i {
        return None;
      }
      var k := i + 1;
      while k < |ch|
        invariant i + 1 <= k
        invariant forall j :: i < j < k && j < |ch| ==> ch[j].None?
        decreases |ch| - k
      {
        if ch[k].Some? {
          return Some(k);
        }
        k := k + 1;
      }
      return None;
    }

    /** begin() of the root or an inner node: its first child, null when
        every slot is null. */
    method Begin(p: nat) returns (r: Option<nat>)
      requires Valid() && p < |nodes| && !nodes[p].Leaf?
      ensures r == FirstChild(nodes, p)
      ensures r.None? <==> AllNull(nodes[p].children)
      ensures r.Some? ==> exists j :: 0 <= j < |nodes[p].children| && nodes[p].children[j] == r
    {
      var j := FindNonNull(nodes[p].children, 0);
      if j.None? {
        return None;
      }
      r := nodes[p].children[j.value];
    }

    /** nextNode(c) asked of c's parent p: the live node of c's level right
        after c, or null when c is the last one. */
    method NextNode(p: nat, c: nat) returns (r: Option<nat>)
      requires Valid() && p < |nodes| && !nodes[p].Leaf?
      ensures r == NextNodeSpec(nodes, p, c)
      ensures r.Some? ==> r.value < |nodes| && LevelOf(nodes[r.value]) == LevelOf(nodes[p]) + 1
      ensures c < |nodes| && Live(nodes, c) && !nodes[c].Root? && nodes[c].parent == p ==>
        && (r.Some? ==> Successor(nodes, c, r.value))
        && (r.None? && NonEmptyInner(nodes) ==> LastOfLevel(nodes, c))
    {
      r := NextNodeWalk(p, c);
      NextNodeSpecBounds(nodes, p, c);
      if c < |nodes| && Live(nodes, c) && !nodes[c].Root? && nodes[c].parent == p {
        NextNodeSuccessor(nodes, p, c);
      }
    }

    /** The walk nextNode does: the next non-null sibling after c's slot,
        else the first child of the parent's own next node. */
    method NextNodeWalk(p: nat, c: nat) returns (r: Option<nat>)
      requires Valid() && p < |nodes| && !nodes[p].Leaf?
      ensures r == NextNodeSpec(nodes, p, c)
      decreases LevelOf(nodes[p])
    {
      var ch := nodes[p].children;
      var s := FindSlot(ch, c);
      if s.None? {
        return None;
      }
      var j := FindNonNull(ch, s.value + 1);
      if j.Some? {
        return ch[j.value];
      }
      if nodes[p].Root? {
        return None;
      }
      assert NodeOk(nodes, p);
      var q := NextNodeWalk(nodes[p].parent, p);
      if q.None? {
        return None;
      }
      NextNodeSpecBounds(nodes, nodes[p].parent, p);
      r := Begin(q.value);
    }

    /** clear(): the root's child list becomes empty, an inner node's
        becomes suffixCount(level) nulls; every key through the node is
        gone and every other key keeps its value. */
    method Clear(p: nat, counts: seq<nat>)
      requires Valid() && p < |nodes| && !nodes[p].Leaf? && LevelOf(nodes[p]) < LeafLevel && |counts| == 4
      modifies this
      ensures Valid()
      ensures nodes == old(nodes)[p := old(nodes[p]).(children :=
        if old(nodes[p]).Root? then [] else Nulls(counts[LevelOf(old(nodes[p]))]))]
      ensures forall k :: k in OccupiedKeys(nodes) <==> k in old(OccupiedKeys(nodes)) && !old(Below(nodes, p, k))
      ensures forall k | k in Contents(nodes) :: Contents(nodes)[k] == old(Contents(nodes))[k]
      ensures p == 0 ==> Contents(nodes) == map[] && NonEmptyInner(nodes)
    {
      var ch2: seq<Option<nat>>;
      if nodes[p].Root? {
        ch2 := [];
      } else {
        ch2 := Nulls(counts[LevelOf(nodes[p])]);
      }
      ghost var before := nodes;
      DropKeys(before, p, ch2);
      if p == 0 {
        DropRoot(before, ch2);
      }
      nodes := nodes[p := nodes[p].(children := ch2)];
    }

    // -------------------------------------------------------------------
    // LeafNode

    /** exist(i): slot i is in range and present; for a live leaf, exactly
        when the key of that slot is stored. */
    function LeafExist(l: nat, i: nat): (r: bool)
      reads this
      requires Valid() && l < |nodes| && nodes[l].Leaf?
      ensures r ==> i < |nodes[l].flags| && i < |nodes[l].values|
      ensures Live(nodes, l) ==> (r <==> PathOf(nodes, l) + [i] in OccupiedKeys(nodes))
    {
      assert NodeOk(nodes, l);
      LeafSlotKeyOf(l, i);
      i < |nodes[l].flags| && nodes[l].flags[i]
    }

    lemma LeafSlotKeyOf(l: nat, i: nat)
      requires Valid() && l < |nodes| && nodes[l].Leaf?
      ensures Live(nodes, l) ==> (PathOf(nodes, l) + [i] in OccupiedKeys(nodes) <==> i < |nodes[l].flags| && nodes[l].flags[i])
      ensures Live(nodes, l) && i < |nodes[l].flags| && nodes[l].flags[i] ==>
        i < |nodes[l].values| && Contents(nodes)[PathOf(nodes, l) + [i]] == nodes[l].values[i]
    {
      if Live(nodes, l) {
        LeafSlotKey(nodes, l, i);
      }
    }

    /** get(i): the value of a present slot; the error thrown otherwise.
        It succeeds exactly when exist(i) holds, and for a live leaf gives
        the value stored under the slot's key. */
    function LeafGet(l: nat, i: nat): (r: Result<int, string>)
      reads this
      requires Valid() && l < |nodes| && nodes[l].Leaf?
      ensures r.Ok? <==> LeafExist(l, i)
      ensures r.Ok? && Live(nodes, l) ==> r.value == Contents(nodes)[PathOf(nodes, l) + [i]]
    {
      assert NodeOk(nodes, l);
      LeafSlotKeyOf(l, i);
      if i >= |nodes[l].flags| || !nodes[l].flags[i] then Err("LeafNode::get: element is not exist at index")
      else Ok(nodes[l].values[i])
    }

    /** set(i, v): grows both vectors when i is out of range, stores v in
        slot i and reports whether the slot was absent; a live leaf then
        stores v under the slot's key and nothing else changes. */
    method LeafSet(l: nat, i: nat, v: int) returns (added: bool)
      requires Valid() && l < |nodes| && nodes[l].Leaf?
      modifies this
      ensures Valid() && SameSkeleton(old(nodes), nodes)
      ensures nodes == old(nodes)[l := StoredLeaf(old(nodes[l]), i, v)]
      ensures added <==> !old(LeafExist(l, i))
      ensures LeafGet(l, i) == Ok(v)
      ensures forall n | 0 <= n < |nodes| :: Live(nodes, n) <==> old(Live(nodes, n))
      ensures old(Live(nodes, l)) ==> Contents(nodes) == old(Contents(nodes))[old(PathOf(nodes, l)) + [i] := v]
      ensures old(Live(nodes, l)) ==> |OccupiedKeys(nodes)| == old(|OccupiedKeys(nodes)|) + (if added then 1 else 0)
    {
      assert NodeOk(nodes, l);
      ghost var before := nodes;
      var n := nodes[l];
      var vs := n.values;
      var fs := n.flags;
      if |vs| <= i {
        vs := vs + seq(i + 1 - |vs|, _ => DefaultValue);
        fs := fs + seq(i + 1 - |fs|, _ => false);
        vs := vs[i := v];
        fs := fs[i := true];
        added := true;
      } else {
        vs := vs[i := v];
        if fs[i] {
          added := false;
        } else {
          fs := fs[i := true];
          added := true;
        }
      }
      var n2 := Leaf(n.parent, n.selfIndex, vs, fs);
      assert n2 == StoredLeaf(n, i, v);
      StoredLeafFacts(before, l, i, v);
      nodes := nodes[l := n2];
    }

    /** erase(i): false and no change when slot i is absent; otherwise the
        value is reset to the default, the slot made absent and true
        returned. A live leaf loses exactly the slot's key. */
    method LeafErase(l: nat, i: nat) returns (erased: bool)
      requires Valid() && l < |nodes| && nodes[l].Leaf?
      modifies this
      ensures Valid() && SameSkeleton(old(nodes), nodes)
      ensures erased <==> old(LeafExist(l, i))
      ensures !erased ==> nodes == old(nodes)
      ensures erased ==> nodes == old(nodes)[l := old(nodes[l]).(
        values := old(nodes[l].values)[i := DefaultValue], flags := old(nodes[l].flags)[i := false])]
      ensures !LeafExist(l, i)
      ensures forall n | 0 <= n < |nodes| :: Live(nodes, n) <==> old(Live(nodes, n))
      ensures old(Live(nodes, l)) ==> Contents(nodes) == old(Contents(nodes)) - {old(PathOf(nodes, l)) + [i]}
    {
      assert NodeOk(nodes, l);
      ghost var before := nodes;
      var n := nodes[l];
      if |n.flags| <= i || !n.flags[i] {
        LeafSlotKeyOf(l, i);
        if Live(nodes, l) {
          assert Contents(nodes) == Contents(nodes) - {PathOf(nodes, l) + [i]};
        }
        return false;
      }
      var n2 := n.(values := n.values[i := DefaultValue], flags := n.flags[i := false]);
      LeafRewriteSkeleton(before, l, n2);
      nodes := nodes[l := n2];
      forall m | 0 <= m < |nodes|
        ensures Live(nodes, m) <==> Live(before, m)
      {
        SkeletonLive(before, nodes, m);
      }
      if Live(before, l) {
        RemoveContents(before, l, n2, i);
      }
      erased := true;
    }

    /** next(i) (dynamic_bitset::find_next): the first present slot after
        i; for a live leaf, the slot of the next stored key in the same
        leaf. */
    function LeafNext(l: nat, i: nat): (r: Option<nat>)
      reads this
      requires Valid() && l < |nodes| && nodes[l].Leaf?
      ensures r.Some? ==> i < r.value && LeafExist(l, r.value)
      ensures forall j: nat :: i < j && (r.None? || j < r.value) ==> !LeafExist(l, j)
      ensures r.Some? && Live(nodes, l) ==> NextKey(nodes, PathOf(nodes, l) + [i], PathOf(nodes, l) + [r.value])
    {
      LeafNextKey(l, i);
      FirstSet(nodes[l].flags, i + 1)
    }

    lemma LeafNextKey(l: nat, i: nat)
      requires Valid() && l < |nodes| && nodes[l].Leaf?
      ensures FirstSet(nodes[l].flags, i + 1).Some? && Live(nodes, l) ==>
        NextKey(nodes, PathOf(nodes, l) + [i], PathOf(nodes, l) + [FirstSet(nodes[l].flags, i + 1).value])
    {
      if FirstSet(nodes[l].flags, i + 1).Some? && Live(nodes, l) {
        SameLeafNext(nodes, l, i, FirstSet(nodes[l].flags, i + 1).value);
      }
    }

    /** begin() (dynamic_bitset::find_first): the first present slot. */
    function LeafBegin(l: nat): (r: Option<nat>)
      reads this
      requires Valid() && l < |nodes| && nodes[l].Leaf?
      ensures r.Some? ==> LeafExist(l, r.value)
      ensures forall j: nat :: (r.None? || j < r.value) ==> !LeafExist(l, j)
    {
      FirstSet(nodes[l].flags, 0)
    }

    /** clear(): same slot count, every slot absent with the default value;
        a live leaf loses exactly the keys it held. */
    method LeafClear(l: nat)
      requires Valid() && l < |nodes| && nodes[l].Leaf?
      modifies this
      ensures Valid() && SameSkeleton(old(nodes), nodes)
      ensures nodes == old(nodes)[l := old(nodes[l]).(
        values := seq(|old(nodes[l].flags)|, _ => DefaultValue), flags := seq(|old(nodes[l].flags)|, _ => false))]
      ensures forall j :: !LeafExist(l, j)
      ensures old(Live(nodes, l)) ==>
        Contents(nodes) == old(Contents(nodes)) - KeysOfLeaf(old(PathOf(nodes, l)), old(nodes[l].flags))
    {
      ghost var before := nodes;
      var n := nodes[l];
      var count := |n.flags|;
      var n2 := n.(values := seq(count, _ => DefaultValue), flags := seq(count, _ => false));
      LeafRewriteSkeleton(before, l, n2);
      nodes := nodes[l := n2];
      if Live(before, l) {
        EmptyLeafContents(before, l, n2);
      }
    }
  }

  /** findChild off by one: on an inner node, the index equal to the size
      of the child list makes SuffixNode::findChild read past the end, where
      RootNode::findChild answers null. */
  lemma FindChildReadsPastEnd(s: NodeStore, p: nat)
    requires s.Valid() && p < |s.nodes| && s.nodes[p].Inner?
    ensures s.FindChildAsWritten(p, |s.nodes[p].children|) == PastEnd
    ensures s.FindChild(p, |s.nodes[p].children|) == None
  {
  }
}
