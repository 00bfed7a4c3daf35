/** The older sparse tree (src/SuffixTree.h): its RootNode, SuffixNode and
    LeafNode, whose child lists and leaf vectors have the size the builder
    gave them and are indexed without any growth or range check, the
    SuffixTreeIterator, and the SuffixTree container over a ContBuilder.
    Keys have four levels; the nodes live in the arena of SuffixNodes. */
module SuffixTreeModel {
  import opened Wrappers
  import opened KeyScan
  import opened ContBuilderKeysModel
  import opened SuffixTreeTraitsModel
  import opened ContBuilderModel
  import opened SuffixNodes

  // ---------------------------------------------------------------------
  // Node sizes

  /** A node has the size its constructor gave it: suffixCount of its level
      child slots, or suffixCount(leaf) value slots. */
  predicate NodeSized(n: Node, counts: seq<nat>)
    requires |counts| == 4
  {
    match n
    case Root(ch) => |ch| == counts[0]
    case Inner(l, _, _, ch) => l < 4 && |ch| == counts[l]
    case Leaf(_, _, _, fs) => |fs| == counts[LeafLevel]
  }

  ghost predicate Sized(nodes: seq<Node>, counts: seq<nat>)
    requires |counts| == 4
  {
    forall n :: 0 <= n < |nodes| ==> NodeSized(nodes[n], counts)
  }

  /** A new node of the size its level calls for keeps every node sized. */
  lemma AttachSized(nodes: seq<Node>, p: nat, ch2: seq<Option<nat>>, born: Node, counts: seq<nat>)
    requires |counts| == 4 && p < |nodes| && !nodes[p].Leaf? && Sized(nodes, counts)
    requires |ch2| == |nodes[p].children| && NodeSized(born, counts)
    ensures Sized(Attach(nodes, p, ch2, born), counts)
  {
    var b := Attach(nodes, p, ch2, born);
    forall n | 0 <= n < |b|
      ensures NodeSized(b[n], counts)
    {
      if n < |nodes| {
        assert NodeSized(nodes[n], counts);
      }
    }
  }

  /** The dictionary size of every level: what suffixCount reports. */
  function LevelCounts(meta: seq<map<string, nat>>): (r: seq<nat>)
    requires |meta| == TotalSuffix
    ensures |r| == 4 && forall l :: 0 <= l < 4 ==> r[l] == |meta[l]|
  {
    [|meta[0]|, |meta[1]|, |meta[2]|, |meta[3]|]
  }

  /** A parsed key names a slot of every level: each index is below the
      size of its level's dictionary. */
  lemma ParsedInRange(meta: seq<map<string, nat>>, key: string, d: char)
    requires |meta| == TotalSuffix && AllDense(meta)
    requires Parse(KeysLookup(meta), TotalSuffix, key, d).Some?
    ensures var k := Parse(KeysLookup(meta), TotalSuffix, key, d).value;
      |k| == 4 && forall l :: 0 <= l < 4 ==> k[l] < |meta[l]|
  {
    ParseSound(KeysLookup(meta), TotalSuffix, key, d);
    var k := Parse(KeysLookup(meta), TotalSuffix, key, d).value;
    forall l | 0 <= l < 4
      ensures k[l] < |meta[l]|
    {
      assert KeysLookup(meta)(l, Split(key, d)[l]) == Some(k[l]);
      assert Dense(meta[l]);
    }
  }

  /** The path the walk down builds is the key's first three indices. */
  lemma PathOfKey(k: seq<nat>)
    requires |k| == 4
    ensures [] + [k[0]] + [k[1]] + [k[2]] == k[..3]
  {
  }

  // ---------------------------------------------------------------------
  // Iterators

  /** SuffixTreeIterator: the end (null node) or a leaf slot. */
  datatype Iterator = End | At(node: nat, index: nat)

  /** The protected constructor: INVALID_INDEX makes the end iterator. */
  function MakeIterator(node: nat, index: Option<nat>): (r: Iterator)
    ensures index.None? <==> r == End
    ensures index.Some? ==> r.node == node && r.index == index.value
  {
    if index.None? then End else At(node, index.value)
  }

  /** The iterator names a slot of a live leaf. */
  ghost predicate Points(nodes: seq<Node>, it: Iterator)
    requires WellFormed(nodes)
  {
    it.At? ==> it.node < |nodes| && nodes[it.node].Leaf? && Live(nodes, it.node) && it.index < |nodes[it.node].flags|
  }

  /** The key an iterator stands at: its leaf's path and its slot. */
  ghost function ItKey(nodes: seq<Node>, it: Iterator): seq<nat>
    requires WellFormed(nodes) && it.At? && it.node < |nodes|
  {
    PathOf(nodes, it.node) + [it.index]
  }

  /** Only leaf contents changed, and no leaf changed its slot count. */
  ghost predicate SameShape(a: seq<Node>, b: seq<Node>)
  {
    && WellFormed(a) && WellFormed(b) && SameSkeleton(a, b)
    && forall n :: 0 <= n < |a| && a[n].Leaf? ==> |b[n].flags| == |a[n].flags|
  }

  lemma ShapePoints(a: seq<Node>, b: seq<Node>, it: Iterator)
    requires SameShape(a, b) && Points(a, it)
    ensures Points(b, it)
    ensures NonEmptyInner(a) ==> NonEmptyInner(b)
    ensures it.At? ==> ItKey(b, it) == ItKey(a, it)
  {
    if NonEmptyInner(a) {
      SkeletonNonEmpty(a, b);
    }
    if it.At? {
      SkeletonLive(a, b, it.node);
      SkeletonPathOf(a, b, it.node);
      assert SkeletonOf(a[it.node]) == SkeletonOf(b[it.node]);
    }
  }

  /** Removing key K from the stored keys keeps what comes after K. */
  lemma RemoveKeepsNext(a: seq<Node>, b: seq<Node>, key: seq<nat>)
    requires WellFormed(a) && WellFormed(b) && OccupiedKeys(b) == OccupiedKeys(a) - {key}
    ensures forall x :: NextKey(a, key, x) ==> NextKey(b, key, x)
    ensures NoKeyAfter(a, key) ==> NoKeyAfter(b, key)
  {
    LessPathIrreflexive(key);
    forall k | KeyAfter(b, key, k)
      ensures KeyAfter(a, key, k)
    {
    }
    forall x | NextKey(a, key, x)
      ensures NextKey(b, key, x)
    {
      assert x != key;
    }
  }

  /** The iterator at slot k[3] of the leaf reached by k[..3] stands at k,
      which is stored exactly when that slot is present. */
  lemma SlotIterator(nodes: seq<Node>, l: nat, k: seq<nat>)
    requires WellFormed(nodes) && |k| == 4
    requires l < |nodes| && nodes[l].Leaf? && Live(nodes, l) && PathOf(nodes, l) == k[..3]
    requires k[3] < |nodes[l].flags|
    ensures Points(nodes, At(l, k[3])) && ItKey(nodes, At(l, k[3])) == k
    ensures k in Contents(nodes) <==> nodes[l].flags[k[3]]
    ensures NodeAt(nodes, k[..3]) == Some(l)
  {
    KeySplit(k);
    LeafSlotKey(nodes, l, k[3]);
  }

  /** The key an iterator stands at is stored exactly when its slot's flag
      is set, with the slot's value. */
  lemma ItKeyStored(nodes: seq<Node>, it: Iterator)
    requires WellFormed(nodes) && it.At? && Points(nodes, it)
    ensures ItKey(nodes, it) in Contents(nodes) <==> nodes[it.node].flags[it.index]
    ensures nodes[it.node].flags[it.index] ==>
      it.index < |nodes[it.node].values| && Contents(nodes)[ItKey(nodes, it)] == nodes[it.node].values[it.index]
  {
    LeafSlotKey(nodes, it.node, it.index);
  }

  /** A four-index key is its leaf's path and its slot. */
  lemma KeySplit(k: seq<nat>)
    requires |k| == 4
    ensures k == k[..3] + [k[3]]
  {
  }

  /** The iterator taken before erasing key K is still the next one after
      K once K is gone, and nothing comes after K that did not before. */
  lemma NextAfterErase(a: seq<Node>, b: seq<Node>, key: seq<nat>, r: Iterator)
    requires SameShape(a, b) && OccupiedKeys(b) == OccupiedKeys(a) - {key} && NonEmptyInner(a)
    requires Points(a, r)
    requires r.At? ==> NextKey(a, key, ItKey(a, r))
    ensures NonEmptyInner(b) && Points(b, r)
    ensures r.At? ==> NextKey(b, key, ItKey(b, r))
    ensures NoKeyAfter(a, key) ==> NoKeyAfter(b, key)
  {
    ShapePoints(a, b, r);
    RemoveKeepsNext(a, b, key);
  }

  /** SuffixTreeIterator::next as written: the next present slot of the
      leaf; failing that, begin() of the leaf the parent's nextNode returns,
      which is the end when that leaf is empty. */
  ghost function NextAsWritten(nodes: seq<Node>, it: Iterator): Iterator
    requires WellFormed(nodes) && Points(nodes, it)
  {
    match it
    case End => End
    case At(l, i) =>
      match FirstSet(nodes[l].flags, i + 1)
      case Some(j) => At(l, j)
      case None =>
        assert NodeOk(nodes, l);
        NextNodeSpecBounds(nodes, nodes[l].parent, l);
        match NextNodeSpec(nodes, nodes[l].parent, l)
        case None => End
        case Some(l2) =>
          LeafLevelIsLeaf(nodes, l2);
          MakeIterator(l2, FirstSet(nodes[l2].flags, 0))
  }

  /** As written, next() is right whenever it moves: the slot it lands on
      holds the first stored key after the iterator's. Only the end it
      returns can come too early. */
  lemma NextAsWrittenSound(nodes: seq<Node>, it: Iterator)
    requires WellFormed(nodes) && Points(nodes, it)
    ensures Points(nodes, NextAsWritten(nodes, it))
    ensures it.At? && NextAsWritten(nodes, it).At? ==>
      NextKey(nodes, ItKey(nodes, it), ItKey(nodes, NextAsWritten(nodes, it)))
  {
    if it.At? {
      var l := it.node;
      match FirstSet(nodes[l].flags, it.index + 1)
      case Some(j) =>
        SameLeafNext(nodes, l, it.index, j);
      case None =>
        assert NodeOk(nodes, l);
        var p := nodes[l].parent;
        NextNodeSpecBounds(nodes, p, l);
        NextNodeSuccessor(nodes, p, l);
        match NextNodeSpec(nodes, p, l)
        case None =>
        case Some(l2) =>
          LeafLevelIsLeaf(nodes, l2);
          match FirstSet(nodes[l2].flags, 0)
          case None =>
          case Some(j0) =>
            LeafDoneBeyond(nodes, l, it.index);
            FoundInNextLeaf(nodes, PathOf(nodes, l) + [it.index], l, l2, j0);
    }
  }

  // ---------------------------------------------------------------------
  // The walk down

  /** What getChild(i) on node p leaves behind: the child already in slot
      i, or a new node of the next level, sized by counts, appended to the
      arena and hung in slot i. */
  function ChildAfterGet(nodes: seq<Node>, counts: seq<nat>, p: nat, i: nat): (seq<Node>, nat)
    requires |counts| == 4 && p < |nodes| && !nodes[p].Leaf? && i < |nodes[p].children|
  {
    match nodes[p].children[i]
    case Some(c) => (nodes, c)
    case None =>
      (Attach(nodes, p, nodes[p].children[i := Some(|nodes|)], NewNode(counts, LevelOf(nodes[p]) + 1, p, i)), |nodes|)
  }

  /** The arena and the node that one getChild per index of path leaves,
      starting at node p. A step that cannot be taken (past a leaf or past
      the end of a child list) ends the walk; the tree never asks for one. */
  function WalkDown(nodes: seq<Node>, counts: seq<nat>, p: nat, path: seq<nat>): (seq<Node>, nat)
    requires |counts| == 4
    decreases |path|
  {
    if |path| == 0 || p >= |nodes| || nodes[p].Leaf? || path[0] >= |nodes[p].children| then (nodes, p)
    else
      var (next, c) := ChildAfterGet(nodes, counts, p, path[0]);
      WalkDown(next, counts, c, path[1..])
  }

  /** The arena after set(j, v) on leaf l: the value stored, the slot present. */
  function StoreAt(nodes: seq<Node>, l: nat, j: nat, v: int): seq<Node>
    requires l < |nodes| && nodes[l].Leaf? && j < |nodes[l].values| && j < |nodes[l].flags|
  {
    nodes[l := nodes[l].(values := nodes[l].values[j := v], flags := nodes[l].flags[j := true])]
  }

  /** What insert of the key with indices k leaves: the walk down along
      k[..3], then set(k[3], v) on the leaf reached, where the iterator
      stands. */
  ghost predicate Inserted(before: seq<Node>, counts: seq<nat>, k: seq<nat>, v: int, after: seq<Node>, r: Iterator)
    requires |counts| == 4 && |k| == 4
  {
    var (walked, l) := WalkDown(before, counts, 0, k[..3]);
    && r == At(l, k[3]) && l < |walked| && walked[l].Leaf?
    && k[3] < |walked[l].values| && k[3] < |walked[l].flags|
    && after == StoreAt(walked, l, k[3], v)
  }

  /** What find of the key with indices k leaves: the arena of the walk
      down along k[..3], and the iterator at slot k[3] of the leaf reached
      when that slot is present, the end otherwise. */
  ghost predicate Found(before: seq<Node>, counts: seq<nat>, k: seq<nat>, after: seq<Node>, r: Iterator)
    requires |counts| == 4 && |k| == 4
  {
    var (walked, l) := WalkDown(before, counts, 0, k[..3]);
    && after == walked && l < |walked| && walked[l].Leaf? && k[3] < |walked[l].flags|
    && r == (if walked[l].flags[k[3]] then At(l, k[3]) else End)
  }

  /** What erase of the key with indices k returns: next() as written,
      taken from slot k[3] of the leaf the walk down along k[..3] reaches,
      in the arena of that walk. */
  ghost predicate ErasedNext(before: seq<Node>, counts: seq<nat>, k: seq<nat>, r: Iterator)
    requires |counts| == 4 && |k| == 4
  {
    var (walked, l) := WalkDown(before, counts, 0, k[..3]);
    WellFormed(walked) && Points(walked, At(l, k[3])) && r == NextAsWritten(walked, At(l, k[3]))
  }

  // ---------------------------------------------------------------------
  // The older nodes

  class OldNodes {
    /** The nodes of the tree; slot 0 is the root. */
    var nodes: seq<Node>
    /** metaInfo.suffixCount of every level: the sizes nodes are made with. */
    const counts: seq<nat>

    ghost predicate Valid()
      reads this
    {
      |counts| == 4 && WellFormed(nodes) && Sized(nodes, counts)
    }

    /** RootNode(metaInfo): a root with suffixCount(root) null children. */
    constructor (levelCounts: seq<nat>)
      requires |levelCounts| == 4
      ensures Valid() && counts == levelCounts && nodes == [Root(Nulls(levelCounts[0]))]
      ensures OccupiedKeys(nodes) == {} && NonEmptyInner(nodes)
    {
      counts := levelCounts;
      nodes := [Root(Nulls(levelCounts[0]))];
      new;
      assert NodeOk(nodes, 0);
      assert OccupiedKeys(nodes) == {};
    }

    /** getChild(index): index must lie within the child list; creates the
        child (of the size its level calls for) when the slot is null. */
    method GetChild(p: nat, i: nat) returns (c: nat)
      requires Valid() && p < |nodes| && !nodes[p].Leaf? && i < |nodes[p].children|
      modifies this
      ensures Valid()
      ensures Child(nodes, p, i) == Some(c)
      ensures old(Child(nodes, p, i)).Some? ==> c == old(Child(nodes, p, i)).value && nodes == old(nodes)
      ensures old(Child(nodes, p, i)).None? ==>
        && c == old(|nodes|)
        && nodes == Attach(old(nodes), p, old(nodes[p].children)[i := Some(c)],
                           NewNode(counts, LevelOf(old(nodes[p])) + 1, p, i))
      ensures (nodes, c) == ChildAfterGet(old(nodes), counts, p, i)
      ensures c < |nodes| && !nodes[c].Root? && nodes[c].parent == p && nodes[c].selfIndex == i
      ensures LevelOf(nodes[c]) == LevelOf(nodes[p]) + 1
      ensures OccupiedKeys(nodes) == old(OccupiedKeys(nodes)) && Contents(nodes) == old(Contents(nodes))
      ensures old(Live(nodes, p)) ==> Live(nodes, c) && PathOf(nodes, c) == old(PathOf(nodes, p)) + [i]
      ensures old(NonEmptyBut(nodes, p)) ==> NonEmptyBut(nodes, c)
    {
      assert NodeOk(nodes, p);
      var ch := nodes[p].children;
      if ch[i].None? {
        ghost var before := nodes;
        c := |nodes|;
        var born := NewNode(counts, LevelOf(nodes[p]) + 1, p, i);
        var ch2 := ch[i := Some(c)];
        assert AttachOk(before, p, i, ch2, born);
        assert NodeSized(before[p], counts);
        AttachSized(before, p, ch2, born, counts);
        AttachFacts(before, p, i, ch2, born);
        nodes := Attach(nodes, p, ch2, born);
      } else {
        c := ch[i].value;
        ChildStep(nodes, p, i);
        if Live(nodes, p) {
          LiveChild(nodes, p, i);
        }
        if NonEmptyBut(nodes, p) {
          NonEmptyMoveDown(nodes, p, i);
        }
      }
    }

    /** findChild(index): the slot's child, index within the child list. */
    function FindChild(p: nat, i: nat): (r: Option<nat>)
      reads this
      requires Valid() && p < |nodes| && !nodes[p].Leaf? && i < |nodes[p].children|
      ensures r == Child(nodes, p, i)
      ensures r.Some? ==>
        r.value < |nodes| && !nodes[r.value].Root? && nodes[r.value].parent == p && nodes[r.value].selfIndex == i
      ensures r.Some? && Live(nodes, p) ==> Live(nodes, r.value) && PathOf(nodes, r.value) == PathOf(nodes, p) + [i]
    {
      LiveChildOf(p, i);
      nodes[p].children[i]
    }

    lemma LiveChildOf(p: nat, i: nat)
      requires Valid() && p < |nodes|
      ensures Child(nodes, p, i).Some? ==>
        && Child(nodes, p, i).value < |nodes|
        && PathOf(nodes, Child(nodes, p, i).value) == PathOf(nodes, p) + [i]
        && !nodes[Child(nodes, p, i).value].Root?
        && nodes[Child(nodes, p, i).value].parent == p && nodes[Child(nodes, p, i).value].selfIndex == i
      ensures Child(nodes, p, i).Some? && Live(nodes, p) ==> Live(nodes, Child(nodes, p, i).value)
    {
      if Child(nodes, p, i).Some? {
        ChildStep(nodes, p, i);
        if Live(nodes, p) {
          LiveChild(nodes, p, i);
        }
      }
    }

    /** next(index): the first non-null slot after index, or
        INVALID_INDEX (None); the loop runs to the size, so index must lie
        within the child list. */
    method Next(p: nat, i: nat) returns (r: Option<nat>)
      requires Valid() && p < |nodes| && !nodes[p].Leaf? && i < |nodes[p].children|
      ensures r == FirstFrom(nodes[p].children, i + 1)
      ensures r.Some? ==> i < r.value < |nodes[p].children| && nodes[p].children[r.value].Some?
      ensures r.None? ==> forall j :: i < j < |nodes[p].children| ==> nodes[p].children[j].None?
    {
      var ch := nodes[p].children;
      var k := i + 1;
      while k != |ch|
        invariant i + 1 <= k <= |ch|
        invariant FirstFrom(ch, i + 1) == FirstFrom(ch, k)
        decreases |ch| - k
      {
        if ch[k].Some? {
          return Some(k);
        }
        k := k + 1;
      }
      return None;
    }

    /** begin(): the first child, null when every slot is null. */
    method Begin(p: nat) returns (r: Option<nat>)
      requires Valid() && p < |nodes| && !nodes[p].Leaf?
      ensures r == FirstChild(nodes, p)
      ensures r.None? <==> AllNull(nodes[p].children)
    {
      var j := FindNonNull(nodes[p].children, 0);
      if j.None? {
        return None;
      }
      r := nodes[p].children[j.value];
    }

    /** nextNode(c) asked of c's parent p: the live node of c's level right
        after c, or null when c is the last one. */
    method NextNode(p: nat, c: nat) returns (r: Option<nat>)
      requires Valid() && p < |nodes| && !nodes[p].Leaf?
      ensures r == NextNodeSpec(nodes, p, c)
      ensures r.Some? ==> r.value < |nodes| && LevelOf(nodes[r.value]) == LevelOf(nodes[p]) + 1
      ensures c < |nodes| && Live(nodes, c) && !nodes[c].Root? && nodes[c].parent == p ==>
        && (r.Some? ==> Successor(nodes, c, r.value))
        && (r.None? && NonEmptyInner(nodes) ==> LastOfLevel(nodes, c))
    {
      r := NextNodeWalk(p, c);
      NextNodeSpecBounds(nodes, p, c);
      if c < |nodes| && Live(nodes, c) && !nodes[c].Root? && nodes[c].parent == p {
        NextNodeSuccessor(nodes, p, c);
      }
    }

    /** The walk nextNode does: the next non-null sibling after c's slot,
        else the first child of the parent's own next node. */
    method NextNodeWalk(p: nat, c: nat) returns (r: Option<nat>)
      requires Valid() && p < |nodes| && !nodes[p].Leaf?
      ensures r == NextNodeSpec(nodes, p, c)
      decreases LevelOf(nodes[p])
    {
      var ch := nodes[p].children;
      var s := FindSlot(ch, c);
      if s.None? {
        return None;
      }
      var j := FindNonNull(ch, s.value + 1);
      if j.Some? {
        return ch[j.value];
      }
      if nodes[p].Root? {
        return None;
      }
      assert NodeOk(nodes, p);
      var q := NextNodeWalk(nodes[p].parent, p);
      if q.None? {
        return None;
      }
      NextNodeSpecBounds(nodes, nodes[p].parent, p);
      r := Begin(q.value);
    }

    /** clear(): the child list becomes suffixCount(level) nulls, on the
        root as on an inner node; every key through the node is gone and
        every other key keeps its value. */
    method Clear(p: nat)
      requires Valid() && p < |nodes| && !nodes[p].Leaf?
      modifies this
      ensures Valid()
      ensures |PathOf(old(nodes), p)| < 3
      ensures nodes == old(nodes)[p := old(nodes[p]).(children := Nulls(counts[|PathOf(old(nodes), p)|]))]
      ensures forall k :: k in OccupiedKeys(nodes) <==> k in old(OccupiedKeys(nodes)) && !old(Below(nodes, p, k))
      ensures forall k | k in Contents(nodes) :: Contents(nodes)[k] == old(Contents(nodes))[k]
      ensures p == 0 ==> OccupiedKeys(nodes) == {} && Contents(nodes) == map[] && NonEmptyInner(nodes)
    {
      assert NodeOk(nodes, p);
      PathOfLength(nodes, p);
      var ch2 := Nulls(counts[LevelOf(nodes[p])]);
      ghost var before := nodes;
      DropContents(before, p, ch2);
      forall k
        ensures k in OccupiedKeys(DropChildren(before, p, ch2)) <==> k in OccupiedKeys(before) && !Below(before, p, k)
      {
        OccupiedKeysIff(before, k);
      }
      if p == 0 {
        DropRoot(before, ch2);
      }
      nodes := nodes[p := nodes[p].(children := ch2)];
      forall n | 0 <= n < |nodes|
        ensures NodeSized(nodes[n], counts)
      {
        if n != p {
          assert nodes[n] == before[n];
        }
      }
    }

    // -------------------------------------------------------------------
    // LeafNode: every index must lie within the leaf

    /** exist(index): the slot is present; for a live leaf, exactly when
        its key is stored. */
    function LeafExist(l: nat, i: nat): (r: bool)
      reads this
      requires Valid() && l < |nodes| && nodes[l].Leaf? && i < |nodes[l].flags|
      ensures Live(nodes, l) ==> (r <==> PathOf(nodes, l) + [i] in OccupiedKeys(nodes))
    {
      LeafSlotKeyOf(l, i);
      nodes[l].flags[i]
    }

    lemma LeafSlotKeyOf(l: nat, i: nat)
      requires Valid() && l < |nodes| && nodes[l].Leaf?
      ensures i < |nodes[l].flags| ==> i < |nodes[l].values|
      ensures Live(nodes, l) ==> (PathOf(nodes, l) + [i] in OccupiedKeys(nodes) <==> i < |nodes[l].flags| && nodes[l].flags[i])
      ensures Live(nodes, l) && i < |nodes[l].flags| && nodes[l].flags[i] ==>
        i < |nodes[l].values| && Contents(nodes)[PathOf(nodes, l) + [i]] == nodes[l].values[i]
    {
      assert NodeOk(nodes, l);
      if Live(nodes, l) {
        LeafSlotKey(nodes, l, i);
      }
    }

    /** get(index): the value of a present slot; an absent one throws. */
    function LeafGet(l: nat, i: nat): (r: Result<int, string>)
      reads this
      requires Valid() && l < |nodes| && nodes[l].Leaf? && i < |nodes[l].flags|
      ensures r.Ok? <==> LeafExist(l, i)
      ensures r.Ok? && Live(nodes, l) ==> r.value == Contents(nodes)[PathOf(nodes, l) + [i]]
    {
      LeafSlotKeyOf(l, i);
      if !nodes[l].flags[i] then Err("LeafNode::get: element is not exist at index")
      else Ok(nodes[l].values[i])
    }

    /** set(index, val): stores the value and reports whether the slot was
        absent; a live leaf then stores val under the slot's key and nothing
        else changes. */
    method LeafSet(l: nat, i: nat, v: int) returns (added: bool)
      requires Valid() && l < |nodes| && nodes[l].Leaf? && i < |nodes[l].flags| && i < |nodes[l].values|
      modifies this
      ensures Valid() && SameShape(old(nodes), nodes)
      ensures nodes == old(nodes)[l := old(nodes[l]).(values := old(nodes[l].values)[i := v], flags := old(nodes[l].flags)[i := true])]
      ensures added <==> !old(LeafExist(l, i))
      ensures old(Live(nodes, l)) ==> (added <==> old(PathOf(nodes, l)) + [i] !in old(OccupiedKeys(nodes)))
      ensures LeafGet(l, i) == Ok(v)
      ensures old(Live(nodes, l)) ==> Live(nodes, l) && PathOf(nodes, l) == old(PathOf(nodes, l))
      ensures old(Live(nodes, l)) ==> OccupiedKeys(nodes) == old(OccupiedKeys(nodes)) + {old(PathOf(nodes, l)) + [i]}
      ensures old(Live(nodes, l)) ==> Contents(nodes) == old(Contents(nodes))[old(PathOf(nodes, l)) + [i] := v]
    {
      LeafSlotKeyOf(l, i);
      assert NodeOk(nodes, l);
      ghost var before := nodes;
      var n := nodes[l];
      var vs := n.values[i := v];
      var fs := n.flags;
      if fs[i] {
        added := false;
      } else {
        fs := fs[i := true];
        added := true;
      }
      var n2 := Leaf(n.parent, n.selfIndex, vs, fs);
      assert fs == n.flags[i := true];
      LeafRewriteSkeleton(before, l, n2);
      nodes := nodes[l := n2];
      assert NodeSized(before[l], counts);
      forall m | 0 <= m < |nodes|
        ensures NodeSized(nodes[m], counts)
      {
        if m != l {
          assert nodes[m] == before[m];
        }
      }
      if Live(before, l) {
        StoreContents(before, l, n2, i, v);
        SkeletonLive(before, nodes, l);
        SkeletonPathOf(before, nodes, l);
      }
    }

    /** erase(index): false and no change when the slot is absent;
        otherwise the value is reset to the default, the slot made absent
        and true returned. A live leaf loses exactly the slot's key. */
    method LeafErase(l: nat, i: nat) returns (erased: bool)
      requires Valid() && l < |nodes| && nodes[l].Leaf? && i < |nodes[l].flags| && i < |nodes[l].values|
      modifies this
      ensures Valid() && SameShape(old(nodes), nodes)
      ensures erased <==> old(LeafExist(l, i))
      ensures old(Live(nodes, l)) ==> (erased <==> old(PathOf(nodes, l)) + [i] in old(OccupiedKeys(nodes)))
      ensures !erased ==> nodes == old(nodes)
      ensures erased ==> nodes == old(nodes)[l := old(nodes[l]).(
        values := old(nodes[l].values)[i := DefaultValue], flags := old(nodes[l].flags)[i := false])]
      ensures !LeafExist(l, i)
      ensures old(Live(nodes, l)) ==> OccupiedKeys(nodes) == old(OccupiedKeys(nodes)) - {old(PathOf(nodes, l)) + [i]}
      ensures old(Live(nodes, l)) ==> Contents(nodes) == old(Contents(nodes)) - {old(PathOf(nodes, l)) + [i]}
    {
      LeafSlotKeyOf(l, i);
      assert NodeOk(nodes, l);
      ghost var before := nodes;
      var n := nodes[l];
      if !n.flags[i] {
        if Live(nodes, l) {
          assert OccupiedKeys(nodes) == OccupiedKeys(nodes) - {PathOf(nodes, l) + [i]};
        }
        return false;
      }
      var n2 := n.(values := n.values[i := DefaultValue], flags := n.flags[i := false]);
      LeafRewriteSkeleton(before, l, n2);
      nodes := nodes[l := n2];
      assert NodeSized(before[l], counts);
      forall m | 0 <= m < |nodes|
        ensures NodeSized(nodes[m], counts)
      {
        if m != l {
          assert nodes[m] == before[m];
        }
      }
      if Live(before, l) {
        RemoveContents(before, l, n2, i);
      }
      erased := true;
    }

    /** next(index): the first present slot after index, or INVALID_INDEX;
        for a live leaf, the slot of the next stored key in the same leaf. */
    method LeafNext(l: nat, i: nat) returns (r: Option<nat>)
      requires Valid() && l < |nodes| && nodes[l].Leaf? && i < |nodes[l].flags|
      ensures r == FirstSet(nodes[l].flags, i + 1)
      ensures r.Some? && Live(nodes, l) ==> NextKey(nodes, PathOf(nodes, l) + [i], PathOf(nodes, l) + [r.value])
    {
      r := FindSetFlag(nodes[l].flags, i + 1);
      if r.Some? && Live(nodes, l) {
        SameLeafNext(nodes, l, i, r.value);
      }
    }

    /** begin(): the first present slot, or INVALID_INDEX. */
    method LeafBegin(l: nat) returns (r: Option<nat>)
      requires Valid() && l < |nodes| && nodes[l].Leaf?
      ensures r == FirstSet(nodes[l].flags, 0)
      ensures r.Some? && Live(nodes, l) ==> PathOf(nodes, l) + [r.value] in OccupiedKeys(nodes)
      ensures r.None? && Live(nodes, l) ==> forall j: nat :: PathOf(nodes, l) + [j] !in OccupiedKeys(nodes)
    {
      r := FindSetFlag(nodes[l].flags, 0);
      if Live(nodes, l) {
        forall j: nat
          ensures PathOf(nodes, l) + [j] in OccupiedKeys(nodes) <==> j < |nodes[l].flags| && nodes[l].flags[j]
        {
          LeafSlotKeyOf(l, j);
        }
        if r.None? {
          forall j: nat
            ensures PathOf(nodes, l) + [j] !in OccupiedKeys(nodes)
          {
            LeafSlotKeyOf(l, j);
          }
        }
      }
    }

    /** clear(): the same slot count, every slot absent with the default
        value; a live leaf loses exactly the keys it held. */
    method LeafClear(l: nat)
      requires Valid() && l < |nodes| && nodes[l].Leaf?
      modifies this
      ensures Valid() && SameShape(old(nodes), nodes)
      ensures nodes == old(nodes)[l := old(nodes[l]).(
        values := seq(|old(nodes[l].flags)|, _ => DefaultValue), flags := seq(|old(nodes[l].flags)|, _ => false))]
      ensures old(Live(nodes, l)) ==>
        Contents(nodes) == old(Contents(nodes)) - KeysOfLeaf(old(PathOf(nodes, l)), old(nodes[l].flags))
    {
      ghost var before := nodes;
      var n := nodes[l];
      var count := |n.flags|;
      var n2 := n.(values := seq(count, _ => DefaultValue), flags := seq(count, _ => false));
      LeafRewriteSkeleton(before, l, n2);
      nodes := nodes[l := n2];
      assert NodeSized(before[l], counts);
      forall m | 0 <= m < |nodes|
        ensures NodeSized(nodes[m], counts)
      {
        if m != l {
          assert nodes[m] == before[m];
        }
      }
      if Live(before, l) {
        EmptyLeafContents(before, l, n2);
      }
    }
  }

  // ---------------------------------------------------------------------
  // The container

  class SuffixTree {
    /** builder_: the container's own copy of the builder's dictionaries. */
    const meta: seq<map<string, nat>>
    const delimiter: char
    /** root_: the nodes. */
    const root: OldNodes
    /** size_: the number of stored keys. */
    var size: nat

    ghost predicate Valid()
      reads this, root
    {
      && |meta| == TotalSuffix && AllDense(meta)
      && root.Valid() && root.counts == LevelCounts(meta)
      && NonEmptyInner(root.nodes)
      && size == |OccupiedKeys(root.nodes)|
    }

    /** The indices of a key with one known token per level. */
    function Parsed(key: string): Option<seq<nat>>
    {
      Parse(KeysLookup(meta), TotalSuffix, key, delimiter)
    }

    /** SuffixTree(builder): a copy of the builder and an empty root. */
    constructor (b: ContBuilder)
      requires b.Valid() && AllDense(b.meta)
      ensures Valid() && meta == b.meta && delimiter == b.delimiter && fresh(root)
      ensures size == 0 && Contents(root.nodes) == map[]
      ensures root.nodes == [Root(Nulls(|b.meta[0]|))]
    {
      meta := b.meta;
      delimiter := b.delimiter;
      root := new OldNodes(LevelCounts(b.meta));
      size := 0;
    }

    /** applyFunc: the walk from the root down to the key's leaf through
        getChild, which creates every missing node on the way. Nothing
        stored changes. */
    method Descend(k: seq<nat>) returns (l: nat)
      requires Valid() && |k| == 4 && forall t :: 0 <= t < 4 ==> k[t] < |meta[t]|
      modifies root
      ensures Valid()
      ensures (root.nodes, l) == WalkDown(old(root.nodes), root.counts, 0, k[..3])
      ensures l < |root.nodes| && root.nodes[l].Leaf? && Live(root.nodes, l) && PathOf(root.nodes, l) == k[..3]
      ensures k[3] < |root.nodes[l].flags| && k[3] < |root.nodes[l].values|
      ensures OccupiedKeys(root.nodes) == old(OccupiedKeys(root.nodes))
      ensures Contents(root.nodes) == old(Contents(root.nodes))
    {
      l := DescendPath(root, k);
    }

    /** insert: the end and no change when the key does not parse;
        otherwise the value is stored under the key, the size grows by one
        exactly when the key was not stored, and the iterator stands at the
        key. */
    method Insert(key: string, val: int) returns (r: Iterator)
      requires Valid()
      modifies this, root
      ensures Valid()
      ensures Parsed(key).None? ==> r == End && root.nodes == old(root.nodes) && size == old(size)
      ensures Parsed(key).Some? ==>
        && Contents(root.nodes) == old(Contents(root.nodes))[Parsed(key).value := val]
        && size == old(size) + (if Parsed(key).value in old(Contents(root.nodes)) then 0 else 1)
        && r.At? && Points(root.nodes, r) && ItKey(root.nodes, r) == Parsed(key).value
      ensures Parsed(key).Some? ==>
        |Parsed(key).value| == 4 && Inserted(old(root.nodes), root.counts, Parsed(key).value, val, root.nodes, r)
    {
      var parsed := KeyScan.ParseKey(KeysLookup(meta), TotalSuffix, key, delimiter);
      if parsed.None? {
        return End;
      }
      ParsedInRange(meta, key, delimiter);
      r := InsertKey(parsed.value, val);
    }

    /** The walk down and the store of insert, for a key already parsed. */
    method InsertKey(k: seq<nat>, val: int) returns (r: Iterator)
      requires Valid() && |k| == 4 && forall t :: 0 <= t < 4 ==> k[t] < |meta[t]|
      modifies this, root
      ensures Valid()
      ensures Contents(root.nodes) == old(Contents(root.nodes))[k := val]
      ensures size == old(size) + (if k in old(Contents(root.nodes)) then 0 else 1)
      ensures r.At? && Points(root.nodes, r) && ItKey(root.nodes, r) == k
      ensures Inserted(old(root.nodes), root.counts, k, val, root.nodes, r)
    {
      var l := Descend(k);
      ghost var n0 := |OccupiedKeys(root.nodes)|;
      assert size == n0;
      var added := StoreLeafSlot(root, l, k, val);
      ghost var n1 := |OccupiedKeys(root.nodes)|;
      assert n1 == n0 + (if added then 1 else 0);
      if added {
        size := size + 1;
      }
      assert size == n1;
      r := At(l, k[3]);
    }

    /** find: the end when the key does not parse or is not stored,
        otherwise an iterator at the key. Nothing stored changes, but the
        walk down creates the key's missing nodes. */
    method Find(key: string) returns (r: Iterator)
      requires Valid()
      modifies root
      ensures Valid() && size == old(size)
      ensures Contents(root.nodes) == old(Contents(root.nodes))
      ensures Parsed(key).None? ==> r == End && root.nodes == old(root.nodes)
      ensures Parsed(key).Some? && Parsed(key).value !in Contents(root.nodes) ==> r == End
      ensures Parsed(key).Some? && Parsed(key).value in Contents(root.nodes) ==>
        r.At? && Points(root.nodes, r) && ItKey(root.nodes, r) == Parsed(key).value
      ensures Parsed(key).Some? ==> |Parsed(key).value| == 4 && NodeAt(root.nodes, Parsed(key).value[..3]).Some?
      ensures Parsed(key).Some? ==> Found(old(root.nodes), root.counts, Parsed(key).value, root.nodes, r)
    {
      var parsed := KeyScan.ParseKey(KeysLookup(meta), TotalSuffix, key, delimiter);
      if parsed.None? {
        return End;
      }
      ParsedInRange(meta, key, delimiter);
      r := FindKey(parsed.value);
    }

    /** The walk down of find, for a key already parsed. */
    method FindKey(k: seq<nat>) returns (r: Iterator)
      requires Valid() && |k| == 4 && forall t :: 0 <= t < 4 ==> k[t] < |meta[t]|
      modifies root
      ensures Valid() && size == old(size)
      ensures Contents(root.nodes) == old(Contents(root.nodes))
      ensures k !in Contents(root.nodes) ==> r == End
      ensures k in Contents(root.nodes) ==> r.At? && Points(root.nodes, r) && ItKey(root.nodes, r) == k
      ensures NodeAt(root.nodes, k[..3]).Some?
      ensures Found(old(root.nodes), root.counts, k, root.nodes, r)
    {
      var l := Descend(k);
      SlotIterator(root.nodes, l, k);
      if !root.LeafExist(l, k[3]) {
        return End;
      }
      r := At(l, k[3]);
    }

    /** node->erase(index), then --size_ when it succeeded: the slot's key
        is no longer stored and the size follows. */
    method DropSlot(it: Iterator)
      requires Valid() && Points(root.nodes, it) && it.At?
      modifies this, root
      ensures Valid() && SameShape(old(root.nodes), root.nodes)
      ensures OccupiedKeys(root.nodes) == old(OccupiedKeys(root.nodes)) - {old(ItKey(root.nodes, it))}
      ensures Contents(root.nodes) == old(Contents(root.nodes)) - {old(ItKey(root.nodes, it))}
      ensures size == old(size) - (if old(ItKey(root.nodes, it)) in old(Contents(root.nodes)) then 1 else 0)
    {
      ghost var before := root.nodes;
      ghost var k := ItKey(before, it);
      ghost var keys := OccupiedKeys(before);
      var erased := EraseLeafSlot(root, it);
      CountErase(keys, k);
      if erased {
        size := size - 1;
      }
      ShapePoints(before, root.nodes, it);
    }

    /** The body shared by both erases: next() as written is taken first,
        then the slot is erased. The iterator returned, when not the end,
        stands at the first key after the erased one. */
    method EraseSlot(it: Iterator) returns (r: Iterator)
      requires Valid() && Points(root.nodes, it) && it.At?
      modifies this, root
      ensures Valid()
      ensures r == old(NextAsWritten(root.nodes, it))
      ensures var k := old(ItKey(root.nodes, it));
        && Contents(root.nodes) == old(Contents(root.nodes)) - {k}
        && size == old(size) - (if k in old(Contents(root.nodes)) then 1 else 0)
        && Points(root.nodes, r)
        && (r.At? ==> NextKey(root.nodes, k, ItKey(root.nodes, r)))
    {
      ghost var before := root.nodes;
      ghost var k := ItKey(before, it);
      r := IteratorNextAsWritten(it);
      DropSlot(it);
      NextAfterErase(before, root.nodes, k, r);
    }

    /** The erase body as intended: the corrected next() is taken first, so
        the end comes back only when no stored key follows the erased one. */
    method EraseSlotIntended(it: Iterator) returns (r: Iterator)
      requires Valid() && Points(root.nodes, it) && it.At?
      modifies this, root
      ensures Valid()
      ensures var k := old(ItKey(root.nodes, it));
        && Contents(root.nodes) == old(Contents(root.nodes)) - {k}
        && size == old(size) - (if k in old(Contents(root.nodes)) then 1 else 0)
        && Points(root.nodes, r)
        && (r.At? ==> NextKey(root.nodes, k, ItKey(root.nodes, r)))
        && (r.End? ==> NoKeyAfter(root.nodes, k))
    {
      ghost var before := root.nodes;
      ghost var k := ItKey(before, it);
      r := IteratorNext(it);
      DropSlot(it);
      NextAfterErase(before, root.nodes, k, r);
    }

    /** erase(key): the end and no change when the key does not parse;
        otherwise next() as written from the key's slot (taken whether or
        not the key was stored), and the key is no longer stored; the size
        drops by one exactly when it was. */
    method EraseKey(key: string) returns (r: Iterator)
      requires Valid()
      modifies this, root
      ensures Valid()
      ensures Parsed(key).None? ==> r == End && root.nodes == old(root.nodes) && size == old(size)
      ensures Parsed(key).Some? ==> var k := Parsed(key).value;
        && |k| == 4 && ErasedNext(old(root.nodes), root.counts, k, r)
        && Contents(root.nodes) == old(Contents(root.nodes)) - {k}
        && size == old(size) - (if k in old(Contents(root.nodes)) then 1 else 0)
        && Points(root.nodes, r)
        && (r.At? ==> NextKey(root.nodes, k, ItKey(root.nodes, r)))
    {
      var parsed := KeyScan.ParseKey(KeysLookup(meta), TotalSuffix, key, delimiter);
      if parsed.None? {
        return End;
      }
      var k := parsed.value;
      ParsedInRange(meta, key, delimiter);
      var l := Descend(k);
      SlotIterator(root.nodes, l, k);
      r := EraseSlot(At(l, k[3]));
    }

    /** erase(iterator): the end erases nothing; otherwise next() as
        written from the iterator, and the iterator's key is erased. */
    method EraseAt(it: Iterator) returns (r: Iterator)
      requires Valid() && Points(root.nodes, it)
      modifies this, root
      ensures Valid()
      ensures it.End? ==> r == End && root.nodes == old(root.nodes) && size == old(size)
      ensures it.At? ==> r == old(NextAsWritten(root.nodes, it))
      ensures it.At? ==> var k := old(ItKey(root.nodes, it));
        && Contents(root.nodes) == old(Contents(root.nodes)) - {k}
        && size == old(size) - (if k in old(Contents(root.nodes)) then 1 else 0)
        && Points(root.nodes, r)
        && (r.At? ==> NextKey(root.nodes, k, ItKey(root.nodes, r)))
    {
      if it.End? {
        return End;
      }
      r := EraseSlot(it);
    }

    /** size(): the number of stored keys. */
    function Size(): (r: nat)
      reads this, root
      requires Valid()
      ensures r == |OccupiedKeys(root.nodes)| && r == |Contents(root.nodes)|
    {
      assert Contents(root.nodes).Keys == OccupiedKeys(root.nodes);
      size
    }

    /** clear(): size 0 and the root's children reset; nothing is stored. */
    method Clear()
      requires Valid()
      modifies this, root
      ensures Valid() && size == 0 && Contents(root.nodes) == map[]
      ensures root.nodes == old(root.nodes)[0 := Root(Nulls(|meta[0]|))]
    {
      size := 0;
      assert old(root.nodes)[0].Root?;
      root.Clear(0);
      assert PathOf(old(root.nodes), 0) == [];
    }

    /** value() / operator*: the end throws; otherwise get of the slot,
        which succeeds exactly when the iterator's key is stored. */
    function Value(it: Iterator): (r: Result<int, string>)
      reads this, root
      requires Valid() && Points(root.nodes, it)
      ensures it.End? ==> r.Err?
      ensures it.At? ==> (r.Ok? <==> ItKey(root.nodes, it) in Contents(root.nodes))
      ensures it.At? && r.Ok? ==> r.value == Contents(root.nodes)[ItKey(root.nodes, it)]
    {
      if it.End? then Err("SuffixTreeIterator::value: Invalid level at SuffixTreeIterator!")
      else
        ItKeyStored(root.nodes, it);
        root.LeafGet(it.node, it.index)
    }

    /** `*it = v`: operator* hands out the leaf's get reference, so the end
        and an absent slot throw; otherwise the value stored under the
        iterator's key becomes v. The slot is already present, so the leaf's
        set writes exactly that value and nothing else changes. */
    method SetValue(it: Iterator, v: int) returns (r: Result<int, string>)
      requires Valid() && Points(root.nodes, it)
      modifies root
      ensures Valid() && SameShape(old(root.nodes), root.nodes) && size == old(size)
      ensures r.Ok? <==> it.At? && old(ItKey(root.nodes, it)) in old(Contents(root.nodes))
      ensures r.Err? ==> root.nodes == old(root.nodes)
      ensures r.Ok? ==> Points(root.nodes, it) && ItKey(root.nodes, it) == old(ItKey(root.nodes, it))
      ensures r.Ok? ==> Contents(root.nodes) == old(Contents(root.nodes))[ItKey(root.nodes, it) := v]
      ensures r.Ok? ==> r == Ok(v) && Value(it) == Ok(v)
    {
      if it.End? {
        return Err("SuffixTreeIterator::op*: Invalid level at SuffixTreeIterator!");
      }
      ItKeyStored(root.nodes, it);
      if !root.LeafExist(it.node, it.index) {
        return Err("LeafNode::get: element is not exist at index");
      }
      WriteLeafSlot(root, it, v);
      r := Ok(v);
    }

    /** SuffixTreeIterator::next as written. */
    method IteratorNextAsWritten(it: Iterator) returns (r: Iterator)
      requires Valid() && Points(root.nodes, it)
      ensures r == NextAsWritten(root.nodes, it)
      ensures Points(root.nodes, r)
      ensures it.At? && r.At? ==> NextKey(root.nodes, ItKey(root.nodes, it), ItKey(root.nodes, r))
    {
      NextAsWrittenSound(root.nodes, it);
      if it.End? {
        return End;
      }
      var l := it.node;
      var nextIdx := root.LeafNext(l, it.index);
      if nextIdx.Some? {
        return At(l, nextIdx.value);
      }
      assert NodeOk(root.nodes, l);
      var nextNode := root.NextNodeWalk(root.nodes[l].parent, l);
      if nextNode.None? {
        return End;
      }
      NextNodeSpecBounds(root.nodes, root.nodes[l].parent, l);
      LeafLevelIsLeaf(root.nodes, nextNode.value);
      var first := root.LeafBegin(nextNode.value);
      r := MakeIterator(nextNode.value, first);
    }

    /** SuffixTreeIterator::next as intended: the iterator at the first
        stored key after the iterator's key, skipping leaves that hold no
        value; the end when no key comes after. */
    method IteratorNext(it: Iterator) returns (r: Iterator)
      requires Valid() && Points(root.nodes, it)
      ensures Points(root.nodes, r)
      ensures it.End? ==> r == End
      ensures it.At? && r.At? ==> NextKey(root.nodes, ItKey(root.nodes, it), ItKey(root.nodes, r))
      ensures it.At? && r.End? ==> NoKeyAfter(root.nodes, ItKey(root.nodes, it))
    {
      if it.End? {
        return End;
      }
      var nodes := root.nodes;
      var l := it.node;
      var nextIdx := root.LeafNext(l, it.index);
      if nextIdx.Some? {
        r := At(l, nextIdx.value);
        return;
      }
      ghost var key := ItKey(nodes, it);
      LeafDoneBeyond(nodes, l, it.index);
      var cur := l;
      while true
        invariant WellFormed(nodes) && BeyondLeaf(nodes, key, cur)
        decreases |LeavesAfter(nodes, cur)|
      {
        assert NodeOk(nodes, cur);
        var nextNode := root.NextNode(nodes[cur].parent, cur);
        if nextNode.None? {
          assert LastOfLevel(nodes, cur);
          NoneAfterLast(nodes, key, cur);
          return End;
        }
        var l2 := nextNode.value;
        assert Successor(nodes, cur, l2);
        LeafLevelIsLeaf(nodes, l2);
        var first := root.LeafBegin(l2);
        if first.Some? {
          FoundInNextLeaf(nodes, key, cur, l2, first.value);
          assert Points(nodes, At(l2, first.value));
          return At(l2, first.value);
        }
        SkipEmptyLeaf(nodes, key, cur, l2);
        LeavesAfterShrink(nodes, cur, l2);
        cur := l2;
      }
    }

    /** operator++ as written: calls next() and drops its result, so the
        iterator does not move. */
    method IncrementAsWritten(it: Iterator) returns (r: Iterator)
      requires Valid() && Points(root.nodes, it)
      ensures r == it
    {
      var ignored := IteratorNextAsWritten(it);
      r := it;
    }

    /** operator++ as intended: the iterator becomes next(). */
    method Increment(it: Iterator) returns (r: Iterator)
      requires Valid() && Points(root.nodes, it)
      ensures Points(root.nodes, r)
      ensures it.End? ==> r == End
      ensures it.At? && r.At? ==> NextKey(root.nodes, ItKey(root.nodes, it), ItKey(root.nodes, r))
      ensures it.At? && r.End? ==> NoKeyAfter(root.nodes, ItKey(root.nodes, it))
    {
      r := IteratorNext(it);
    }
  }

  /** One getChild on the walk down from the root: the child exists
      afterwards, one level further down the path, with the size its level
      calls for; nothing stored changes. */
  method DescendStep(root: OldNodes, p: nat, i: nat) returns (c: nat)
    requires root.Valid() && p < |root.nodes| && !root.nodes[p].Leaf? && Live(root.nodes, p)
    requires NonEmptyBut(root.nodes, p) && i < |root.nodes[p].children|
    modifies root
    ensures (root.nodes, c) == ChildAfterGet(old(root.nodes), root.counts, p, i)
    ensures root.Valid() && c < |root.nodes| && Live(root.nodes, c) && NonEmptyBut(root.nodes, c)
    ensures PathOf(root.nodes, c) == old(PathOf(root.nodes, p)) + [i]
    ensures LevelOf(root.nodes[c]) == old(LevelOf(root.nodes[p])) + 1
    ensures !root.nodes[c].Leaf? ==> |root.nodes[c].children| == root.counts[LevelOf(root.nodes[c])]
    ensures root.nodes[c].Leaf? ==> |root.nodes[c].flags| == root.counts[LeafLevel] && |root.nodes[c].values| == |root.nodes[c].flags|
    ensures LevelOf(root.nodes[c]) == LeafLevel ==> root.nodes[c].Leaf?
    ensures OccupiedKeys(root.nodes) == old(OccupiedKeys(root.nodes))
    ensures Contents(root.nodes) == old(Contents(root.nodes))
  {
    c := root.GetChild(p, i);
    assert NodeSized(root.nodes[c], root.counts);
    assert NodeOk(root.nodes, c);
  }

  /** The three getChild calls of the walk down, from the root to the leaf
      of the key's first three indices. */
  method DescendPath(root: OldNodes, k: seq<nat>) returns (l: nat)
    requires root.Valid() && NonEmptyInner(root.nodes) && |k| == 4
    requires forall t :: 0 <= t < 4 ==> k[t] < root.counts[t]
    modifies root
    ensures (root.nodes, l) == WalkDown(old(root.nodes), root.counts, 0, k[..3])
    ensures root.Valid() && NonEmptyInner(root.nodes)
    ensures l < |root.nodes| && root.nodes[l].Leaf? && Live(root.nodes, l) && PathOf(root.nodes, l) == k[..3]
    ensures k[3] < |root.nodes[l].flags| && k[3] < |root.nodes[l].values|
    ensures OccupiedKeys(root.nodes) == old(OccupiedKeys(root.nodes))
    ensures Contents(root.nodes) == old(Contents(root.nodes))
  {
    PathOfKey(k);
    assert Live(root.nodes, 0) && PathOf(root.nodes, 0) == [];
    NonEmptyButRoot(root.nodes);
    assert NodeSized(root.nodes[0], root.counts);
    ghost var n0 := root.nodes;
    var c1 := DescendStep(root, 0, k[0]);
    ghost var n1 := root.nodes;
    var c2 := DescendStep(root, c1, k[1]);
    ghost var n2 := root.nodes;
    l := DescendStep(root, c2, k[2]);
    NonEmptyButRoot(root.nodes);
    WalkDownSteps(n0, n1, n2, root.nodes, root.counts, c1, c2, l, k);
  }

  /** Three getChild steps are the walk down along k[..3]. */
  lemma WalkDownSteps(n0: seq<Node>, n1: seq<Node>, n2: seq<Node>, n3: seq<Node>, counts: seq<nat>,
                      c1: nat, c2: nat, l: nat, k: seq<nat>)
    requires |counts| == 4 && |k| == 4
    requires 0 < |n0| && !n0[0].Leaf? && k[0] < |n0[0].children| && (n1, c1) == ChildAfterGet(n0, counts, 0, k[0])
    requires c1 < |n1| && !n1[c1].Leaf? && k[1] < |n1[c1].children| && (n2, c2) == ChildAfterGet(n1, counts, c1, k[1])
    requires c2 < |n2| && !n2[c2].Leaf? && k[2] < |n2[c2].children| && (n3, l) == ChildAfterGet(n2, counts, c2, k[2])
    ensures (n3, l) == WalkDown(n0, counts, 0, k[..3])
  {
    assert k[..3][1..] == [k[1], k[2]] && [k[1], k[2]][1..] == [k[2]] && [k[2]][1..] == [];
    assert WalkDown(n2, counts, c2, [k[2]]) == WalkDown(n3, counts, l, []);
    assert WalkDown(n1, counts, c1, [k[1], k[2]]) == WalkDown(n2, counts, c2, [k[2]]);
    assert WalkDown(n0, counts, 0, k[..3]) == WalkDown(n1, counts, c1, [k[1], k[2]]);
  }

  /** The leaf store seen from the container: leaf l holds the keys with
      prefix k[..3]; the value is stored under k, the iterator at k points
      to it, and the result says whether k is new. */
  method StoreLeafSlot(root: OldNodes, l: nat, k: seq<nat>, v: int) returns (added: bool)
    requires root.Valid() && NonEmptyInner(root.nodes) && |k| == 4
    requires l < |root.nodes| && root.nodes[l].Leaf? && Live(root.nodes, l) && PathOf(root.nodes, l) == k[..3]
    requires k[3] < |root.nodes[l].flags| && k[3] < |root.nodes[l].values|
    modifies root
    ensures root.Valid() && NonEmptyInner(root.nodes)
    ensures added <==> k !in old(Contents(root.nodes))
    ensures |OccupiedKeys(root.nodes)| == old(|OccupiedKeys(root.nodes)|) + (if added then 1 else 0)
    ensures Contents(root.nodes) == old(Contents(root.nodes))[k := v]
    ensures Points(root.nodes, At(l, k[3])) && ItKey(root.nodes, At(l, k[3])) == k
    ensures root.nodes == StoreAt(old(root.nodes), l, k[3], v)
  {
    ghost var before := root.nodes;
    ghost var keys := OccupiedKeys(before);
    var it := At(l, k[3]);
    KeySplit(k);
    assert ItKey(before, it) == k;
    assert k in keys <==> k in Contents(before);
    root.LeafSlotKeyOf(l, k[3]);
    added := root.LeafSet(l, k[3], v);
    CountStore(keys, k);
    ShapePoints(before, root.nodes, it);
  }

  /** A write through the reference get hands out for a present slot: the
      value under the iterator's key becomes v, and the keys stored stay. */
  method WriteLeafSlot(root: OldNodes, it: Iterator, v: int)
    requires root.Valid() && Points(root.nodes, it) && it.At? && root.nodes[it.node].flags[it.index]
    modifies root
    ensures root.Valid() && SameShape(old(root.nodes), root.nodes)
    ensures NonEmptyInner(old(root.nodes)) ==> NonEmptyInner(root.nodes)
    ensures Points(root.nodes, it) && ItKey(root.nodes, it) == old(ItKey(root.nodes, it))
    ensures OccupiedKeys(root.nodes) == old(OccupiedKeys(root.nodes))
    ensures Contents(root.nodes) == old(Contents(root.nodes))[ItKey(root.nodes, it) := v]
    ensures root.nodes[it.node].flags[it.index] && it.index < |root.nodes[it.node].values|
    ensures root.nodes[it.node].values[it.index] == v
  {
    ghost var before := root.nodes;
    root.LeafSlotKeyOf(it.node, it.index);
    var added := root.LeafSet(it.node, it.index, v);
    ShapePoints(before, root.nodes, it);
  }

  /** The leaf erase seen from the container: the iterator's key is no
      longer stored, and the result says whether it was. */
  method EraseLeafSlot(root: OldNodes, it: Iterator) returns (erased: bool)
    requires root.Valid() && Points(root.nodes, it) && it.At?
    modifies root
    ensures root.Valid() && SameShape(old(root.nodes), root.nodes)
    ensures erased <==> old(ItKey(root.nodes, it)) in old(OccupiedKeys(root.nodes))
    ensures OccupiedKeys(root.nodes) == old(OccupiedKeys(root.nodes)) - {old(ItKey(root.nodes, it))}
    ensures Contents(root.nodes) == old(Contents(root.nodes)) - {old(ItKey(root.nodes, it))}
  {
    root.LeafSlotKeyOf(it.node, it.index);
    erased := root.LeafErase(it.node, it.index);
  }

  /** The live nodes of c's level after c. */
  ghost function LeavesAfter(nodes: seq<Node>, c: nat): set<nat>
    requires WellFormed(nodes) && c < |nodes|
  {
    set x | 0 <= x < |nodes| && LiveAfter(nodes, c, x)
  }

  /** Moving to the successor leaves fewer nodes after. */
  lemma LeavesAfterShrink(nodes: seq<Node>, c: nat, r: nat)
    requires WellFormed(nodes) && c < |nodes| && Successor(nodes, c, r)
    ensures |LeavesAfter(nodes, r)| < |LeavesAfter(nodes, c)|
  {
    forall x | x in LeavesAfter(nodes, r)
      ensures x in LeavesAfter(nodes, c)
    {
      LessPathTransitive(PathOf(nodes, c), PathOf(nodes, r), PathOf(nodes, x));
    }
    LessPathIrreflexive(PathOf(nodes, r));
    assert r in LeavesAfter(nodes, c) && r !in LeavesAfter(nodes, r);
    SmallerWithout(LeavesAfter(nodes, r), LeavesAfter(nodes, c), r);
  }

  /** A subset of C that misses one of its elements is smaller than C. */
  lemma SmallerWithout(A: set<nat>, C: set<nat>, r: nat)
    requires A <= C && r in C && r !in A
    ensures |A| < |C|
  {
    assert A <= C - {r};
    assert |C - {r}| == |C| - 1;
    assert |A| <= |C - {r}| by {
      assert A + (C - {r} - A) == C - {r};
    }
  }

  /** Erasing the same key twice: the second erase finds nothing to erase
      and leaves the size as the first left it. */
  method EraseTwice(t: SuffixTree, key: string) returns (first: Iterator, second: Iterator)
    requires t.Valid()
    modifies t, t.root
    ensures t.Valid()
    ensures t.Parsed(key).Some? ==> t.Parsed(key).value !in Contents(t.root.nodes)
    ensures t.size == old(t.size) - (if t.Parsed(key).Some? && t.Parsed(key).value in old(Contents(t.root.nodes)) then 1 else 0)
  {
    first := t.EraseKey(key);
    second := t.EraseKey(key);
  }

  /** With a stored key after the iterator's, operator++ as written leaves
      the iterator where it was, while next() moves on. */
  method IncrementStalls(t: SuffixTree, it: Iterator) returns (stalled: Iterator, moved: Iterator)
    requires t.Valid() && Points(t.root.nodes, it) && it.At?
    requires exists k :: KeyAfter(t.root.nodes, ItKey(t.root.nodes, it), k)
    ensures stalled == it && moved.At? && moved != it
  {
    stalled := t.IncrementAsWritten(it);
    moved := t.Increment(it);
    if moved.At? {
      LessPathIrreflexive(ItKey(t.root.nodes, it));
    }
  }

  // ---------------------------------------------------------------------
  // Iteration that stops at an empty leaf

  /** The dictionaries of the run below: "a" at level 0, "b" at level 1,
      "c", "d", "e" in that order at level 2, "x" at level 3. */
  function RunMeta(): seq<map<string, nat>>
  {
    [SeedMap(["a"]), SeedMap(["b"]), SeedMap(["c", "d", "e"]), SeedMap(["x"])]
  }

  /** Every level of the run's dictionaries is dense, the levels have 1, 1,
      3 and 1 tokens, and its three keys parse to their tokens' positions. */
  lemma RunMetaFacts()
    ensures |RunMeta()| == TotalSuffix && AllDense(RunMeta())
    ensures LevelCounts(RunMeta()) == [1, 1, 3, 1]
    ensures Parse(KeysLookup(RunMeta()), TotalSuffix, "a-b-c-x", '-') == Some([0, 0, 0, 0])
    ensures Parse(KeysLookup(RunMeta()), TotalSuffix, "a-b-d-x", '-') == Some([0, 0, 1, 0])
    ensures Parse(KeysLookup(RunMeta()), TotalSuffix, "a-b-e-x", '-') == Some([0, 0, 2, 0])
  {
    var meta := RunMeta();
    RunMetaLevels();
    RunKeyParses(meta, "c", 0);
    RunKeyParses(meta, "d", 1);
    RunKeyParses(meta, "e", 2);
    assert "a-b-" + "c" + "-x" == "a-b-c-x";
    assert "a-b-" + "d" + "-x" == "a-b-d-x";
    assert "a-b-" + "e" + "-x" == "a-b-e-x";
  }

  /** Each level of the run's dictionaries numbers its seeds from 0. */
  lemma RunMetaLevels()
    ensures |RunMeta()| == TotalSuffix && AllDense(RunMeta())
    ensures |RunMeta()[0]| == 1 && |RunMeta()[1]| == 1 && |RunMeta()[2]| == 3 && |RunMeta()[3]| == 1
    ensures "a" in RunMeta()[0] && RunMeta()[0]["a"] == 0 && "b" in RunMeta()[1] && RunMeta()[1]["b"] == 0
    ensures "x" in RunMeta()[3] && RunMeta()[3]["x"] == 0
    ensures "c" in RunMeta()[2] && RunMeta()[2]["c"] == 0 && "d" in RunMeta()[2] && RunMeta()[2]["d"] == 1
    ensures "e" in RunMeta()[2] && RunMeta()[2]["e"] == 2
  {
    var lvl2 := ["c", "d", "e"];
    SeedMapDistinct(["a"]);
    SeedMapDistinct(["b"]);
    SeedMapDistinct(lvl2);
    SeedMapDistinct(["x"]);
    assert ["a"][0] == "a" && ["b"][0] == "b" && ["x"][0] == "x";
    assert lvl2[0] == "c" && lvl2[1] == "d" && lvl2[2] == "e";
  }

  /** The key "a-b-<t>-x", with t at position i of level 2, parses to
      [0, 0, i, 0]. */
  lemma RunKeyParses(meta: seq<map<string, nat>>, t: string, i: nat)
    requires |meta| == TotalSuffix && |t| == 1 && t[0] != '-'
    requires "a" in meta[0] && meta[0]["a"] == 0 && "b" in meta[1] && meta[1]["b"] == 0
    requires "x" in meta[3] && meta[3]["x"] == 0 && t in meta[2] && meta[2][t] == i
    ensures Parse(KeysLookup(meta), TotalSuffix, "a-b-" + t + "-x", '-') == Some([0, 0, i, 0])
  {
    var ts := ["a", "b", t, "x"];
    var key := "a-b-" + t + "-x";
    RunKeyJoin(t);
    SplitJoin(ts, '-');
    assert Split(key, '-') == ts;
    forall k | 0 <= k < TotalSuffix
      ensures KeysLookup(meta)(k, Split(key, '-')[k]) == Some([0, 0, i, 0][k])
    {
      assert Split(key, '-')[k] == ts[k];
    }
    ParseComplete(KeysLookup(meta), TotalSuffix, key, '-', [0, 0, i, 0]);
  }

  /** The key "a-b-<t>-x" is the join of its four tokens. */
  lemma RunKeyJoin(t: string)
    ensures Join(["a", "b", t, "x"], '-') == "a-b-" + t + "-x"
  {
    var ts := ["a", "b", t, "x"];
    assert ["a", "b"][..1] == ["a"];
    assert Join(["a", "b"], '-') == "a" + ['-'] + "b" == "a-b";
    assert ["a", "b", t][..2] == ["a", "b"];
    assert Join(["a", "b", t], '-') == "a-b" + ['-'] + t == "a-b-" + t;
    assert ts[..3] == ["a", "b", t];
    assert Join(ts, '-') == "a-b-" + t + ['-'] + "x" == "a-b-" + t + "-x";
  }

  /** The arena after inserting "a-b-c-x" with 7 and "a-b-e-x" with 9 and
      then finding "a-b-d-x": the find creates the leaf of "a-b-d" (node 5)
      and leaves it empty, between the leaves of "a-b-c" and "a-b-e". */
  function EmptyLeafArena(): seq<Node>
  {
    [ Root([Some(1)]),
      Inner(1, 0, 0, [Some(2)]),
      Inner(2, 1, 0, [Some(3), Some(5), Some(4)]),
      Leaf(2, 0, [7], [true]),
      Leaf(2, 2, [9], [true]),
      Leaf(2, 1, [0], [false]) ]
  }

  /** The first insert creates the whole path of "a-b-c". */
  lemma FirstWalk()
    ensures WalkDown([Root([None])], [1, 1, 3, 1], 0, [0, 0, 0]) ==
      ([ Root([Some(1)]), Inner(1, 0, 0, [Some(2)]), Inner(2, 1, 0, [Some(3), None, None]),
         Leaf(2, 0, [0], [false]) ], 3)
  {
    var counts := [1, 1, 3, 1];
    var n1 := [Root([Some(1)]), Inner(1, 0, 0, [None])];
    var n2 := [Root([Some(1)]), Inner(1, 0, 0, [Some(2)]), Inner(2, 1, 0, [None, None, None])];
    var n3 := [ Root([Some(1)]), Inner(1, 0, 0, [Some(2)]), Inner(2, 1, 0, [Some(3), None, None]),
                Leaf(2, 0, [0], [false]) ];
    assert Nulls(1) == [None] && Nulls(3) == [None, None, None];
    assert NewNode(counts, 1, 0, 0) == Inner(1, 0, 0, [None]);
    assert [None][0 := Some(1)] == [Some(1)];
    assert [Root([None])][0 := Root([Some(1)])] == [Root([Some(1)])];
    assert Attach([Root([None])], 0, [Some(1)], Inner(1, 0, 0, [None])) == n1;
    assert ChildAfterGet([Root([None])], counts, 0, 0) == (n1, 1);
    assert NewNode(counts, 2, 1, 0) == Inner(2, 1, 0, [None, None, None]);
    assert [None][0 := Some(2)] == [Some(2)];
    assert n1[1 := Inner(1, 0, 0, [Some(2)])] == [Root([Some(1)]), Inner(1, 0, 0, [Some(2)])];
    assert Attach(n1, 1, [Some(2)], Inner(2, 1, 0, [None, None, None])) == n2;
    assert ChildAfterGet(n1, counts, 1, 0) == (n2, 2);
    assert seq(1, _ => DefaultValue) == [0] && seq(1, _ => false) == [false];
    assert NewNode(counts, 3, 2, 0) == Leaf(2, 0, [0], [false]);
    assert [None, None, None][0 := Some(3)] == [Some(3), None, None];
    assert n2[2 := Inner(2, 1, 0, [Some(3), None, None])] == n3[..3];
    assert Attach(n2, 2, [Some(3), None, None], Leaf(2, 0, [0], [false])) == n3;
    assert ChildAfterGet(n2, counts, 2, 0) == (n3, 3);
    WalkThree([Root([None])], n1, n2, n3, counts, 1, 2, 3, [0, 0, 0]);
  }

  /** Three getChild steps along path make the walk down along path. */
  lemma WalkThree(n0: seq<Node>, n1: seq<Node>, n2: seq<Node>, n3: seq<Node>, counts: seq<nat>,
                  c1: nat, c2: nat, l: nat, path: seq<nat>)
    requires |counts| == 4 && |path| == 3
    requires 0 < |n0| && !n0[0].Leaf? && path[0] < |n0[0].children| && (n1, c1) == ChildAfterGet(n0, counts, 0, path[0])
    requires c1 < |n1| && !n1[c1].Leaf? && path[1] < |n1[c1].children| && (n2, c2) == ChildAfterGet(n1, counts, c1, path[1])
    requires c2 < |n2| && !n2[c2].Leaf? && path[2] < |n2[c2].children| && (n3, l) == ChildAfterGet(n2, counts, c2, path[2])
    ensures WalkDown(n0, counts, 0, path) == (n3, l)
  {
    WalkDownSteps(n0, n1, n2, n3, counts, c1, c2, l, path + [0]);
    assert (path + [0])[..3] == path;
  }

  /** The second insert adds the leaf of "a-b-e" in slot 2 of node 2. */
  lemma SecondWalk()
    ensures WalkDown(FirstArena(), [1, 1, 3, 1], 0, [0, 0, 2]) ==
      ([ Root([Some(1)]), Inner(1, 0, 0, [Some(2)]), Inner(2, 1, 0, [Some(3), None, Some(4)]),
         Leaf(2, 0, [7], [true]), Leaf(2, 2, [0], [false]) ], 4)
  {
    var counts := [1, 1, 3, 1];
    var n0 := FirstArena();
    var n3 := [ Root([Some(1)]), Inner(1, 0, 0, [Some(2)]), Inner(2, 1, 0, [Some(3), None, Some(4)]),
                Leaf(2, 0, [7], [true]), Leaf(2, 2, [0], [false]) ];
    assert seq(1, _ => DefaultValue) == [0] && seq(1, _ => false) == [false];
    assert NewNode(counts, 3, 2, 2) == Leaf(2, 2, [0], [false]);
    assert [Some(3), None, None][2 := Some(4)] == [Some(3), None, Some(4)];
    assert n0[2 := Inner(2, 1, 0, [Some(3), None, Some(4)])] + [Leaf(2, 2, [0], [false])] == n3;
    assert ChildAfterGet(n0, counts, 2, 2) == (n3, 4);
    WalkThree(n0, n0, n0, n3, counts, 1, 2, 4, [0, 0, 2]);
  }

  /** The find of "a-b-d-x" adds the empty leaf of "a-b-d" in slot 1. */
  lemma ThirdWalk()
    ensures WalkDown(SecondArena(), [1, 1, 3, 1], 0, [0, 0, 1]) ==
      (EmptyLeafArena(), 5)
  {
    var counts := [1, 1, 3, 1];
    var n0 := SecondArena();
    assert seq(1, _ => DefaultValue) == [0] && seq(1, _ => false) == [false];
    assert NewNode(counts, 3, 2, 1) == Leaf(2, 1, [0], [false]);
    assert [Some(3), None, Some(4)][1 := Some(5)] == [Some(3), Some(5), Some(4)];
    assert n0[2 := Inner(2, 1, 0, [Some(3), Some(5), Some(4)])] + [Leaf(2, 1, [0], [false])] == EmptyLeafArena();
    assert ChildAfterGet(n0, counts, 2, 1) == (EmptyLeafArena(), 5);
    WalkThree(n0, n0, n0, EmptyLeafArena(), counts, 1, 2, 5, [0, 0, 1]);
  }

  /** The walk to "a-b-c" in the final arena creates nothing. */
  lemma FourthWalk()
    ensures WalkDown(EmptyLeafArena(), [1, 1, 3, 1], 0, [0, 0, 0]) == (EmptyLeafArena(), 3)
  {
    var n := EmptyLeafArena();
    WalkThree(n, n, n, n, [1, 1, 3, 1], 1, 2, 3, [0, 0, 0]);
  }

  /** next() as written from the only slot of the leaf of "a-b-c": no later
      slot, the node after it is the empty leaf of "a-b-d", whose begin()
      finds nothing. */
  lemma StopsAtEmptyLeaf()
    requires WellFormed(EmptyLeafArena()) && Points(EmptyLeafArena(), At(3, 0))
    ensures NextAsWritten(EmptyLeafArena(), At(3, 0)) == End
  {
    var nodes := EmptyLeafArena();
    assert FirstSet(nodes[3].flags, 1) == None;
    assert SlotOf(nodes[2].children, 3) == Some(0);
    assert FirstFrom(nodes[2].children, 1) == Some(1);
    assert NextNodeSpec(nodes, 2, 3) == Some(5);
    assert FirstSet(nodes[5].flags, 0) == None;
  }

  /** The arena after the first insert of the run. */
  function FirstArena(): seq<Node>
  {
    [ Root([Some(1)]), Inner(1, 0, 0, [Some(2)]), Inner(2, 1, 0, [Some(3), None, None]),
      Leaf(2, 0, [7], [true]) ]
  }

  /** The arena after the second insert of the run. */
  function SecondArena(): seq<Node>
  {
    [ Root([Some(1)]), Inner(1, 0, 0, [Some(2)]), Inner(2, 1, 0, [Some(3), None, Some(4)]),
      Leaf(2, 0, [7], [true]), Leaf(2, 2, [9], [true]) ]
  }

  /** Inserting "a-b-c-x" with 7 into the empty tree gives FirstArena. */
  lemma FirstInsert(after: seq<Node>, r: Iterator)
    requires Inserted([Root([None])], [1, 1, 3, 1], [0, 0, 0, 0], 7, after, r)
    ensures after == FirstArena()
  {
    FirstWalk();
    assert [0, 0, 0, 0][..3] == [0, 0, 0];
    var walked := [ Root([Some(1)]), Inner(1, 0, 0, [Some(2)]), Inner(2, 1, 0, [Some(3), None, None]),
                    Leaf(2, 0, [0], [false]) ];
    assert [0][0 := 7] == [7] && [false][0 := true] == [true];
    assert StoreAt(walked, 3, 0, 7) == FirstArena();
  }

  /** Inserting "a-b-e-x" with 9 then gives SecondArena. */
  lemma SecondInsert(after: seq<Node>, r: Iterator)
    requires Inserted(FirstArena(), [1, 1, 3, 1], [0, 0, 2, 0], 9, after, r)
    ensures after == SecondArena()
  {
    SecondWalk();
    assert [0, 0, 2, 0][..3] == [0, 0, 2];
    var walked := [ Root([Some(1)]), Inner(1, 0, 0, [Some(2)]), Inner(2, 1, 0, [Some(3), None, Some(4)]),
                    Leaf(2, 0, [7], [true]), Leaf(2, 2, [0], [false]) ];
    assert [0][0 := 9] == [9] && [false][0 := true] == [true];
    assert StoreAt(walked, 4, 0, 9) == SecondArena();
  }

  /** Finding "a-b-d-x" then creates the empty leaf and returns the end. */
  lemma ThirdFind(after: seq<Node>, r: Iterator)
    requires Found(SecondArena(), [1, 1, 3, 1], [0, 0, 1, 0], after, r)
    ensures after == EmptyLeafArena() && r == End
  {
    ThirdWalk();
    assert [0, 0, 1, 0][..3] == [0, 0, 1];
  }

  /** Finding "a-b-c-x" in EmptyLeafArena changes nothing and stands at
      slot 0 of node 3. */
  lemma FourthFind(after: seq<Node>, r: Iterator)
    requires Found(EmptyLeafArena(), [1, 1, 3, 1], [0, 0, 0, 0], after, r)
    ensures after == EmptyLeafArena() && r == At(3, 0)
  {
    FourthWalk();
    assert [0, 0, 0, 0][..3] == [0, 0, 0];
  }

  /** erase("a-b-c-x") in EmptyLeafArena creates nothing and returns
      next() as written from slot 0 of node 3. */
  lemma EraseFromFirst(r: Iterator)
    requires ErasedNext(EmptyLeafArena(), [1, 1, 3, 1], [0, 0, 0, 0], r)
    ensures WellFormed(EmptyLeafArena()) && Points(EmptyLeafArena(), At(3, 0))
    ensures r == NextAsWritten(EmptyLeafArena(), At(3, 0))
  {
    FourthWalk();
    assert [0, 0, 0, 0][..3] == [0, 0, 0];
  }

  /** The tree of the run: a builder seeded with the run's dictionaries
      and "-" as the delimiter, and an empty tree over it. */
  method RunTree() returns (t: SuffixTree)
    ensures fresh(t) && fresh(t.root) && t.Valid()
    ensures t.meta == RunMeta() && t.delimiter == '-' && t.root.counts == [1, 1, 3, 1]
    ensures t.root.nodes == [Root([None])] && Contents(t.root.nodes) == map[]
  {
    var b := new ContBuilder.Seeded(["a"], ["b"], ["c", "d", "e"], ["x"], '-');
    RunMetaFacts();
    assert b.meta == RunMeta();
    t := new SuffixTree(b);
    assert Nulls(1) == [None];
  }

  /** Inserting "a-b-c-x" with 7 and "a-b-e-x" with 9 leaves SecondArena. */
  method InsertTwo(t: SuffixTree)
    requires t.Valid() && t.meta == RunMeta() && t.delimiter == '-' && t.root.counts == [1, 1, 3, 1]
    requires t.root.nodes == [Root([None])] && Contents(t.root.nodes) == map[]
    modifies t, t.root
    ensures t.Valid() && t.root.nodes == SecondArena()
    ensures Contents(t.root.nodes) == map[[0, 0, 0, 0] := 7, [0, 0, 2, 0] := 9]
  {
    RunMetaFacts();
    var r1 := t.Insert("a-b-c-x", 7);
    FirstInsert(t.root.nodes, r1);
    var r2 := t.Insert("a-b-e-x", 9);
    SecondInsert(t.root.nodes, r2);
  }

  /** Finding "a-b-d-x" creates the empty leaf; finding "a-b-c-x" then
      gives the iterator at slot 0 of node 3. */
  method FindTwo(t: SuffixTree) returns (it: Iterator)
    requires t.Valid() && t.meta == RunMeta() && t.delimiter == '-' && t.root.counts == [1, 1, 3, 1]
    requires t.root.nodes == SecondArena()
    requires Contents(t.root.nodes) == map[[0, 0, 0, 0] := 7, [0, 0, 2, 0] := 9]
    modifies t.root
    ensures t.Valid() && t.root.nodes == EmptyLeafArena() && it == At(3, 0)
    ensures Points(t.root.nodes, it) && ItKey(t.root.nodes, it) == [0, 0, 0, 0]
    ensures Contents(t.root.nodes) == map[[0, 0, 0, 0] := 7, [0, 0, 2, 0] := 9]
  {
    RunMetaFacts();
    var missing := t.Find("a-b-d-x");
    ThirdFind(t.root.nodes, missing);
    it := t.Find("a-b-c-x");
    FourthFind(t.root.nodes, it);
    FirstKeyIterator(t.root.nodes);
  }

  /** Iteration as written stops at an empty leaf. The dictionaries know
      "c", "d", "e" in that order at level 2. Inserting "a-b-c-x" and
      "a-b-e-x" and then finding "a-b-d-x" leaves the empty leaf of "a-b-d"
      between the other two. next() from "a-b-c-x" then returns the end,
      and so does erase("a-b-c-x"), although "a-b-e-x" is stored after it;
      the intended next() moves on. */
  method IterationStopsAtEmptyLeaf() returns (t: SuffixTree, stopped: Iterator, moved: Iterator, erased: Iterator)
    ensures t.Valid() && t.Parsed("a-b-c-x") == Some([0, 0, 0, 0]) && t.Parsed("a-b-e-x") == Some([0, 0, 2, 0])
    ensures stopped == End && moved.At? && erased == End
    ensures Contents(t.root.nodes) == map[[0, 0, 2, 0] := 9]
    ensures KeyAfter(t.root.nodes, [0, 0, 0, 0], [0, 0, 2, 0])
  {
    t := RunTree();
    InsertTwo(t);
    var it := FindTwo(t);
    stopped, moved, erased := NextThenErase(t, it);
  }

  /** From "a-b-c-x" in EmptyLeafArena: next() as written, the intended
      next(), then erase("a-b-c-x"). */
  method NextThenErase(t: SuffixTree, it: Iterator) returns (stopped: Iterator, moved: Iterator, erased: Iterator)
    requires t.Valid() && t.meta == RunMeta() && t.delimiter == '-' && t.root.counts == [1, 1, 3, 1]
    requires t.root.nodes == EmptyLeafArena() && it == At(3, 0)
    requires Points(t.root.nodes, it) && ItKey(t.root.nodes, it) == [0, 0, 0, 0]
    requires Contents(t.root.nodes) == map[[0, 0, 0, 0] := 7, [0, 0, 2, 0] := 9]
    modifies t, t.root
    ensures t.Valid() && t.Parsed("a-b-c-x") == Some([0, 0, 0, 0]) && t.Parsed("a-b-e-x") == Some([0, 0, 2, 0])
    ensures stopped == End && moved.At? && erased == End
    ensures Contents(t.root.nodes) == map[[0, 0, 2, 0] := 9]
    ensures KeyAfter(t.root.nodes, [0, 0, 0, 0], [0, 0, 2, 0])
  {
    RunMetaFacts();
    stopped := t.IteratorNextAsWritten(it);
    StopsAtEmptyLeaf();
    RunKeyAfter(t.root.nodes);
    moved := t.IteratorNext(it);
    erased := t.EraseKey("a-b-c-x");
    EraseFromFirst(erased);
    ErasedContents();
    RunKeyAfter(t.root.nodes);
  }

  /** The iterator at slot 0 of node 3 stands at "a-b-c-x". */
  lemma FirstKeyIterator(nodes: seq<Node>)
    requires nodes == EmptyLeafArena() && WellFormed(nodes)
    ensures Points(nodes, At(3, 0)) && ItKey(nodes, At(3, 0)) == [0, 0, 0, 0]
  {
    assert nodes[0].Root? && nodes[1].parent == 0 && nodes[2].parent == 1 && nodes[3].parent == 2;
    assert PathOf(nodes, 1) == [0];
    assert PathOf(nodes, 2) == [0, 0];
    assert PathOf(nodes, 3) == [0, 0, 0];
    NodeAtAppend(nodes, [], 0);
    assert [] + [0] == [0] && [0] + [0] == [0, 0] && [0, 0] + [0] == [0, 0, 0];
    assert Child(nodes, 0, 0) == Some(1);
    assert NodeAt(nodes, [0]) == Some(1);
    NodeAtAppend(nodes, [0], 0);
    assert Child(nodes, 1, 0) == Some(2);
    assert NodeAt(nodes, [0, 0]) == Some(2);
    NodeAtAppend(nodes, [0, 0], 0);
    assert Child(nodes, 2, 0) == Some(3);
    assert NodeAt(nodes, [0, 0, 0]) == Some(3);
  }

  /** Erasing "a-b-c-x" leaves "a-b-e-x" alone. */
  lemma ErasedContents()
    ensures map[[0, 0, 0, 0] := 7, [0, 0, 2, 0] := 9] - {[0, 0, 0, 0]} == map[[0, 0, 2, 0] := 9]
  {
    var m := map[[0, 0, 0, 0] := 7, [0, 0, 2, 0] := 9] - {[0, 0, 0, 0]};
    assert [0, 0, 0, 0] != [0, 0, 2, 0];
    assert m.Keys == {[0, 0, 2, 0]};
  }

  /** With "a-b-e-x" stored, it comes after "a-b-c-x". */
  lemma RunKeyAfter(nodes: seq<Node>)
    requires WellFormed(nodes) && [0, 0, 2, 0] in Contents(nodes)
    ensures KeyAfter(nodes, [0, 0, 0, 0], [0, 0, 2, 0])
  {
    LessPathAppend([0, 0, 0], 0, [0, 0, 2], 0);
    LessPathAppend([0, 0], 0, [0, 0], 2);
  }
}
