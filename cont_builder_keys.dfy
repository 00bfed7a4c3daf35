/** ContBuilderKeys (src/ContBuilderKeys.cpp): one token-to-index dictionary
    per level, with the tokens' characters copied into a string arena owned
    by the object. */
module ContBuilderKeysModel {
  import opened Wrappers
  import opened StringArenaModel
  import opened KeyScan

  /** A level's dictionary is dense when its indices are distinct and all
      below its size, so they number its tokens 0 .. size - 1. */
  ghost predicate Dense(m: map<string, nat>)
  {
    && (forall t :: t in m ==> m[t] < |m|)
    && (forall a, b :: a in m && b in m && m[a] == m[b] ==> a == b)
  }

  /** The indices a dictionary uses. */
  ghost function Indices(m: map<string, nat>): set<nat>
  {
    set t | t in m :: m[t]
  }

  /** The indices 0 .. n - 1. */
  ghost function IndexRange(n: nat): set<nat>
  {
    if n == 0 then {} else IndexRange(n - 1) + {n - 1}
  }

  lemma {:induction false} IndexRangeSize(n: nat)
    ensures |IndexRange(n)| == n
    ensures forall i: nat :: i in IndexRange(n) <==> i < n
  {
    if n > 0 {
      IndexRangeSize(n - 1);
      assert IndexRange(n) == IndexRange(n - 1) + {n - 1};
    }
  }

  /** Distinct indices: as many indices as tokens. */
  lemma {:induction false} IndicesSize(m: map<string, nat>)
    requires forall a, b :: a in m && b in m && m[a] == m[b] ==> a == b
    ensures |Indices(m)| == |m|
    decreases |m|
  {
    if |m| == 0 {
      assert Indices(m) == {};
    } else {
      var t :| t in m;
      var m' := m - {t};
      assert m'.Keys == m.Keys - {t};
      IndicesSize(m');
      forall x
        ensures x in Indices(m) <==> x in Indices(m') + {m[t]}
      {
        if x in Indices(m) {
          var u :| u in m && m[u] == x;
          if u != t {
            assert u in m' && m'[u] == x;
          }
        }
      }
      assert Indices(m) == Indices(m') + {m[t]};
      assert m[t] !in Indices(m');
    }
  }

  /** A dense dictionary uses exactly the indices 0 .. size - 1: the next
      free index is its size. */
  lemma DenseIndices(m: map<string, nat>)
    ensures Dense(m) ==> Indices(m) == IndexRange(|m|)
  {
    if !Dense(m) {
      return;
    }
    IndicesSize(m);
    IndexRangeSize(|m|);
    assert Indices(m) <= IndexRange(|m|);
    var rest := IndexRange(|m|) - Indices(m);
    assert |rest| == 0;
  }

  /** Adding an absent token with index = the previous size keeps a level
      dense and grows it by one. */
  lemma AddAbsentKeepsDense(m: map<string, nat>, t: string)
    requires Dense(m) && t !in m
    ensures |m[t := |m|]| == |m| + 1
    ensures Dense(m[t := |m|])
  {
    assert m[t := |m|].Keys == m.Keys + {t};
  }

  /** The dictionary toKey2IndexT builds from a seed list: res[copy] =
      res.size(), the size being read before the insertion (C++17 order of
      evaluation for assignment). */
  function SeedMap(vals: seq<string>): map<string, nat>
  {
    if |vals| == 0 then map[]
    else
      var m := SeedMap(vals[..|vals| - 1]);
      m[vals[|vals| - 1] := |m|]
  }

  predicate Distinct(vals: seq<string>)
  {
    forall i, j :: 0 <= i < j < |vals| ==> vals[i] != vals[j]
  }

  /** The seeded tokens are exactly the dictionary's tokens. */
  lemma {:induction false} SeedMapKeys(vals: seq<string>)
    ensures forall t :: t in SeedMap(vals) <==> t in vals
  {
    if |vals| > 0 {
      var init := vals[..|vals| - 1];
      SeedMapKeys(init);
      assert vals == init + [vals[|vals| - 1]];
    }
  }

  /** With distinct seeds, the i-th seed gets index i, the dictionary has one
      entry per seed and is dense. */
  lemma {:induction false} SeedMapDistinct(vals: seq<string>)
    requires Distinct(vals)
    ensures |SeedMap(vals)| == |vals|
    ensures forall i :: 0 <= i < |vals| ==> vals[i] in SeedMap(vals) && SeedMap(vals)[vals[i]] == i
    ensures Dense(SeedMap(vals))
  {
    if |vals| > 0 {
      var init := vals[..|vals| - 1];
      var last := vals[|vals| - 1];
      SeedMapDistinct(init);
      SeedMapKeys(init);
      assert last !in init;
      AddAbsentKeepsDense(SeedMap(init), last);
      forall i | 0 <= i < |vals|
        ensures vals[i] in SeedMap(vals) && SeedMap(vals)[vals[i]] == i
      {
        if i < |init| {
          assert vals[i] == init[i] != last;
        }
      }
    }
  }

  /** A repeated seed is re-assigned the current size, which no token owns:
      seeding ["a", "b", "a"] gives "a" the index 2 in a dictionary of two
      tokens. */
  lemma SeedMapRepeated()
    ensures SeedMap(["a", "b", "a"]) == map["a" := 2, "b" := 1]
    ensures !Dense(SeedMap(["a", "b", "a"]))
  {
    assert ["a", "b", "a"][..2] == ["a", "b"];
    assert ["a", "b"][..1] == ["a"];
    assert ["a"][..0] == [];
    assert SeedMap(["a", "b"]) == map["a" := 0, "b" := 1];
    var m := map["a" := 2, "b" := 1];
    assert m.Keys == {"a", "b"};
    assert |m| == 2;
  }

  /** The token lookup of a set of level dictionaries: level l must exist and
      hold the token. */
  function KeysLookup(meta: seq<map<string, nat>>): Lookup
  {
    (l: nat, t: string) => if l < |meta| && t in meta[l] then Some(meta[l][t]) else None
  }

  /** The arena every ContBuilderKeys constructor makes: 32-byte alignment
      (shift 5), 1024-byte blocks growing by 2, limit INT_MAX. */
  method NewKeyArena() returns (a: StringArena)
    ensures fresh(a) && a.Valid() && a.issued == [] && a.align == 5
  {
    a := new StringArena.Init(5, 1024, 2, IntMax);
  }

  class ContBuilderKeys {
    /** meta_: the dictionary of every level. */
    var meta: seq<map<string, nat>>
    /** stringAllocator_: where the tokens' characters are copied. */
    var arena: StringArena

    ghost predicate Valid()
      reads this, arena
    {
      arena.Valid()
    }

    /** ContBuilderKeys(levelCount): levelCount empty dictionaries. */
    constructor (levelCount: nat)
      ensures Valid() && fresh(arena)
      ensures |meta| == levelCount
      ensures forall l :: 0 <= l < levelCount ==> meta[l] == map[]
    {
      var a := NewKeyArena();
      arena := a;
      meta := [];
      new;
      var i := 0;
      while i < levelCount
        invariant 0 <= i <= levelCount
        invariant arena == a && a.Valid()
        invariant |meta| == i
        invariant forall l :: 0 <= l < i ==> meta[l] == map[]
      {
        meta := meta + [map[]];
        i := i + 1;
      }
    }

    /** The seeded constructors (two to seven levels): level l is built from
        seeds[l] by toKey2IndexT. */
    constructor Seeded(seeds: seq<seq<string>>)
      ensures Valid() && fresh(arena)
      ensures |meta| == |seeds|
      ensures forall l :: 0 <= l < |seeds| ==> meta[l] == SeedMap(seeds[l])
    {
      var a := NewKeyArena();
      arena := a;
      meta := [];
      new;
      var l := 0;
      while l < |seeds|
        invariant 0 <= l <= |seeds|
        invariant arena == a && fresh(a) && Valid()
        invariant |meta| == l
        invariant forall k :: 0 <= k < l ==> meta[k] == SeedMap(seeds[k])
      {
        var m := ToKey2Index(seeds[l], arena);
        meta := meta + [m];
        l := l + 1;
      }
    }

    /** suffixCount(level): the number of tokens of that level; on a dense
        level the indices in use are exactly 0 .. count - 1. */
    function SuffixCount(level: nat): (r: nat)
      reads this
      requires level < |meta|
      ensures Dense(meta[level]) ==> Indices(meta[level]) == IndexRange(r)
    {
      DenseIndices(meta[level]);
      |meta[level]|
    }

    /** level(level): that level's dictionary. */
    function Level(level: nat): (r: map<string, nat>)
      reads this
      requires level < |meta|
      ensures Dense(meta[level]) ==> Dense(r) && Indices(r) == IndexRange(SuffixCount(level))
    {
      meta[level]
    }

    /** addKey(level, val): copies val into the arena and records it with the
        level's previous size as index. It does not look for val first; the
        callers do. */
    method AddKey(level: nat, val: string) returns (index: nat)
      requires Valid() && level < |meta|
      modifies this, arena
      ensures Valid() && arena == old(arena)
      ensures index == old(SuffixCount(level))
      ensures |meta| == |old(meta)| && meta[level] == old(meta[level])[val := index]
      ensures forall l :: 0 <= l < |meta| && l != level ==> meta[l] == old(meta[l])
      ensures val !in old(meta[level]) ==> SuffixCount(level) == index + 1
      ensures val !in old(meta[level]) && Dense(old(meta[level])) ==> Dense(meta[level])
    {
      ghost var before := meta[level];
      index := |meta[level]|;
      var cpy := arena.Allocate(val);
      var levelKeys: map<string, nat> := meta[level][val := index];
      meta := meta[level := levelKeys];
      if val !in before && Dense(before) {
        AddAbsentKeepsDense(before, val);
      }
    }

    /** The copy constructor: the same dictionaries, their tokens copied into
        a fresh arena. */
    constructor Copy(other: ContBuilderKeys)
      ensures Valid() && fresh(arena)
      ensures meta == other.meta
    {
      var a := NewKeyArena();
      arena := a;
      meta := [];
      new;
      var l := 0;
      while l < |other.meta|
        invariant 0 <= l <= |other.meta|
        invariant arena == a && fresh(a) && Valid()
        invariant meta == other.meta[..l]
      {
        var m := CopyLevel(other.meta[l], arena);
        meta := meta + [m];
        l := l + 1;
      }
    }

    /** operator=: nothing on self-assignment; otherwise a copy of other
        replaces the dictionaries and the arena. */
    method Assign(other: ContBuilderKeys)
      requires Valid()
      modifies this
      ensures Valid()
      ensures meta == old(other.meta)
      ensures this == other ==> arena == old(arena)
      ensures this != other ==> fresh(arena)
    {
      if this == other {
        return;
      }
      var tmp := new ContBuilderKeys.Copy(other);
      meta, arena := tmp.meta, tmp.arena;
    }
  }

  /** toKey2IndexT: copies each seed into the arena and records it under the
      dictionary's size before the insertion. */
  method ToKey2Index(vals: seq<string>, storage: StringArena) returns (res: map<string, nat>)
    requires storage.Valid()
    modifies storage
    ensures storage.Valid()
    ensures res == SeedMap(vals)
  {
    res := map[];
    var i := 0;
    while i < |vals|
      invariant 0 <= i <= |vals|
      invariant storage.Valid()
      invariant res == SeedMap(vals[..i])
    {
      var cpy := storage.Allocate(vals[i]);
      res := res[vals[i] := |res|];
      assert vals[..i + 1][..i] == vals[..i];
      i := i + 1;
    }
    assert vals[..i] == vals;
  }

  /** The inner loop of the copy constructor: every entry of a level copied
      into the arena with the same index, in the map's own (unspecified)
      order. */
  method CopyLevel(src: map<string, nat>, storage: StringArena) returns (level: map<string, nat>)
    requires storage.Valid()
    modifies storage
    ensures storage.Valid()
    ensures level == src
  {
    level := map[];
    var left := src.Keys;
    while left != {}
      invariant storage.Valid()
      invariant left <= src.Keys
      invariant level.Keys == src.Keys - left
      invariant forall t :: t in level ==> level[t] == src[t]
      decreases |left|
    {
      var t :| t in left;
      var cpy := storage.Allocate(t);
      level := level[t := src[t]];
      left := left - {t};
    }
  }
}
