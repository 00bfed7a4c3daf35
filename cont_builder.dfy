/** ContBuilder (src/ContBuilder.cpp): the older dynamic key codec of the
    four-level tree in src/SuffixTree.h. It keeps one token-to-index
    dictionary per level directly (no arena) and parses keys the same way as
    SuffixTreeTraits; its assembleKey is an unimplemented stub. */
module ContBuilderModel {
  import opened Wrappers
  import opened KeyScan
  import opened ContBuilderKeysModel
  import opened SuffixTreeTraitsModel

  /** total_Suffix: root, first, second and leaf level. */
  const TotalSuffix: nat := 4

  class ContBuilder {
    /** meta_: the dictionary of every level. */
    var meta: seq<map<string, nat>>
    /** delimeter_. */
    const delimiter: char

    ghost predicate Valid()
      reads this
    {
      |meta| == TotalSuffix
    }

    /** ContBuilder(delimiter): total_Suffix empty dictionaries. */
    constructor (d: char)
      ensures Valid() && delimiter == d
      ensures forall l :: 0 <= l < TotalSuffix ==> meta[l] == map[]
    {
      delimiter := d;
      meta := [];
      new;
      var i := 0;
      while i < TotalSuffix
        invariant 0 <= i <= TotalSuffix
        invariant |meta| == i
        invariant forall l :: 0 <= l < i ==> meta[l] == map[]
      {
        meta := meta + [map[]];
        i := i + 1;
      }
    }

    /** The seeded constructor: level l numbers the tokens of its seed list,
        res[token] = res.size() as in ContBuilderKeys. */
    constructor Seeded(lvl1: seq<string>, lvl2: seq<string>, lvl3: seq<string>, lvl4: seq<string>, d: char)
      ensures Valid() && delimiter == d
      ensures meta == [SeedMap(lvl1), SeedMap(lvl2), SeedMap(lvl3), SeedMap(lvl4)]
    {
      delimiter := d;
      meta := [SeedMap(lvl1), SeedMap(lvl2), SeedMap(lvl3), SeedMap(lvl4)];
    }

    /** levels(): the number of dictionaries. */
    function Levels(): (r: nat)
      reads this
      requires Valid()
      ensures r == TotalSuffix
    {
      |meta|
    }

    /** suffixCount(level): the number of tokens known at that level; on a
        dense level the indices in use are exactly 0 .. count - 1. */
    function SuffixCount(level: nat): (r: nat)
      reads this
      requires Valid() && level < TotalSuffix
      ensures Dense(meta[level]) ==> Indices(meta[level]) == IndexRange(r)
    {
      DenseIndices(meta[level]);
      |meta[level]|
    }

    /** getKeyIndex: the token's index at the level, if known. */
    function GetKeyIndex(level: nat, token: string): (r: Option<nat>)
      reads this
      requires Valid() && level < TotalSuffix
      ensures r.Some? <==> token in meta[level]
      ensures r.Some? ==> r.value == meta[level][token]
    {
      KeysLookup(meta)(level, token)
    }

    /** getNewKeyIndex: the token's index, or the level's size recorded as
        its new index. */
    method GetNewKeyIndex(level: nat, token: string) returns (index: nat)
      requires Valid() && level < TotalSuffix
      modifies this
      ensures Valid()
      ensures token in meta[level] && meta[level][token] == index
      ensures token in old(meta[level]) ==> meta == old(meta)
      ensures token !in old(meta[level]) ==> index == |old(meta[level])| && |meta[level]| == index + 1
      ensures meta == old(meta)[level := WithToken(old(meta[level]), token)]
      ensures Extends(old(meta), meta)
      ensures forall l :: 0 <= l < TotalSuffix && l != level ==> meta[l] == old(meta[l])
      ensures AllDense(old(meta)) ==> AllDense(meta)
    {
      var levelKeys := meta[level];
      if token in levelKeys {
        index := levelKeys[token];
        return;
      }
      index := |levelKeys|;
      if Dense(levelKeys) {
        AddAbsentKeepsDense(levelKeys, token);
      }
      assert levelKeys[token := index].Keys == levelKeys.Keys + {token};
      var grown: map<string, nat> := levelKeys[token := index];
      meta := meta[level := grown];
    }

    /** parseKey: the read-only character loop, as written (no arity check). */
    method ParseKey(key: string) returns (r: ScanOutcome)
      requires Valid()
      ensures r == ScanAsWritten(KeysLookup(meta), TotalSuffix, key, delimiter)
    {
      r := ScanKey(KeysLookup(meta), TotalSuffix, key, delimiter);
    }

    /** parseKey as intended: exactly one token per level, each known. */
    method ParseKeyExact(key: string) returns (r: Option<seq<nat>>)
      requires Valid()
      ensures r == Parse(KeysLookup(meta), TotalSuffix, key, delimiter)
    {
      r := KeyScan.ParseKey(KeysLookup(meta), TotalSuffix, key, delimiter);
    }

    /** parseNewKey: fails, changing nothing, unless the key has exactly four
        tokens; otherwise registers every token and afterwards the key parses
        to the indices returned. */
    method ParseNewKey(key: string) returns (r: Option<seq<nat>>)
      requires Valid()
      modifies this
      ensures Valid()
      ensures r.None? <==> |Split(key, delimiter)| != TotalSuffix
      ensures r.None? ==> meta == old(meta)
      ensures r.Some? ==> Parse(KeysLookup(meta), TotalSuffix, key, delimiter) == r
      ensures r.Some? ==> |Split(key, delimiter)| == TotalSuffix
      ensures r.Some? ==> forall l :: 0 <= l < TotalSuffix ==> meta[l] == WithToken(old(meta[l]), Split(key, delimiter)[l])
      ensures Extends(old(meta), meta)
      ensures AllDense(old(meta)) ==> AllDense(meta)
    {
      var ends := TokenEnds(key, delimiter, TotalSuffix);
      if ends.None? {
        return None;
      }
      var pos := ends.value;
      var res := RegisterTokens(key, pos);
      RegisteredParses(meta, key, delimiter, res);
      r := Some(res);
    }

    /** The second loop of parseNewKey: the slice before each recorded
        delimiter position is registered at its level. */
    method RegisterTokens(key: string, pos: seq<nat>) returns (res: seq<nat>)
      requires Valid() && |pos| == TotalSuffix && EndsWithin(pos, |key|)
      modifies this
      ensures Valid()
      ensures |res| == TotalSuffix && Registered(meta, Slices(key, pos), res)
      ensures forall l :: 0 <= l < TotalSuffix ==> meta[l] == WithToken(old(meta[l]), Slices(key, pos)[l])
      ensures Extends(old(meta), meta)
      ensures AllDense(old(meta)) ==> AllDense(meta)
    {
      ghost var ts := Slices(key, pos);
      res := [];
      var startIdx := 0;
      var i := 0;
      while i < TotalSuffix
        invariant 0 <= i <= TotalSuffix
        invariant Valid()
        invariant |res| == i
        invariant startIdx == TokenStart(pos, i)
        invariant Registered(meta, ts, res)
        invariant forall l :: 0 <= l < i ==> meta[l] == WithToken(old(meta[l]), ts[l])
        invariant forall l :: i <= l < TotalSuffix ==> meta[l] == old(meta[l])
        invariant Extends(old(meta), meta)
        invariant AllDense(old(meta)) ==> AllDense(meta)
      {
        var lastIdx := pos[i];
        SlicesAt(key, pos, i);
        ghost var before := meta;
        var index := GetNewKeyIndex(i, key[startIdx..lastIdx]);
        WithTokenStep(old(meta), before, meta, ts, i);
        RegisteredStep(before, meta, ts, res, index);
        res := res + [index];
        startIdx := lastIdx + 1;
        i := i + 1;
      }
    }

    /** assembleKey: an unimplemented stub returning the empty key, which
        never parses back since four levels need three delimiters. */
    method AssembleKey(key: seq<nat>) returns (r: string)
      requires Valid()
      ensures r == ""
      ensures Parse(KeysLookup(meta), TotalSuffix, r, delimiter) == None
    {
      r := "";
    }
  }
}
