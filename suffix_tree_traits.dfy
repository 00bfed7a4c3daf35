/** SuffixTreeTraits (src/SuffixTreeTraits.h): the dynamic key codec of the
    sparse tree. It owns one dictionary per level (a ContBuilderKeys) and the
    delimiter; it parses a compound key into one index per level, registers
    unknown tokens, and assembles a key back from its indices. The number of
    levels is the template parameter LevelsT, here a constant of the object. */
module SuffixTreeTraitsModel {
  import opened Wrappers
  import opened KeyScan
  import opened ContBuilderKeysModel

  /** Every entry of before is still in after with the same index. */
  ghost predicate Extends(before: seq<map<string, nat>>, after: seq<map<string, nat>>)
  {
    && |before| == |after|
    && (forall l, t :: 0 <= l < |before| && t in before[l] ==> t in after[l] && after[l][t] == before[l][t])
  }

  /** A level after getNewKeyIndex(t): unchanged when t is known, otherwise
      t added with the level's previous size as its index. */
  function WithToken(m: map<string, nat>, t: string): map<string, nat>
  {
    if t in m then m else m[t := |m|]
  }

  /** One more level of a registration loop: levels below i + 1 hold their
      token, the others are still as they were. */
  lemma WithTokenStep(m0: seq<map<string, nat>>, before: seq<map<string, nat>>, after: seq<map<string, nat>>,
                      ts: seq<string>, i: nat)
    requires |m0| == |before| <= |ts| && i < |before|
    requires forall l :: 0 <= l < i ==> before[l] == WithToken(m0[l], ts[l])
    requires forall l :: i <= l < |before| ==> before[l] == m0[l]
    requires after == before[i := WithToken(before[i], ts[i])]
    ensures |after| == |m0|
    ensures forall l :: 0 <= l < i + 1 ==> after[l] == WithToken(m0[l], ts[l])
    ensures forall l :: i + 1 <= l < |after| ==> after[l] == m0[l]
  {
  }

  ghost predicate AllDense(meta: seq<map<string, nat>>)
  {
    forall l :: 0 <= l < |meta| ==> Dense(meta[l])
  }

  /** The first |res| tokens of ts are registered, level by level, with the
      indices res. */
  ghost predicate Registered(meta: seq<map<string, nat>>, ts: seq<string>, res: seq<nat>)
  {
    && |res| <= |ts| && |res| <= |meta|
    && forall k :: 0 <= k < |res| ==> ts[k] in meta[k] && meta[k][ts[k]] == res[k]
  }

  /** Registering the next token keeps the earlier ones registered. */
  lemma RegisteredStep(m1: seq<map<string, nat>>, m2: seq<map<string, nat>>, ts: seq<string>, res: seq<nat>, index: nat)
    requires Registered(m1, ts, res) && Extends(m1, m2)
    requires |res| < |ts| && |res| < |m2| && ts[|res|] in m2[|res|] && m2[|res|][ts[|res|]] == index
    ensures Registered(m2, ts, res + [index])
  {
    forall k | 0 <= k < |res| + 1
      ensures ts[k] in m2[k] && m2[k][ts[k]] == (res + [index])[k]
    {
      if k < |res| {
        assert ts[k] in m1[k];
      }
    }
  }

  /** Once every token is registered, the key parses to the indices. */
  lemma RegisteredParses(meta: seq<map<string, nat>>, s: string, d: char, res: seq<nat>)
    requires Registered(meta, Split(s, d), res) && |res| == |meta| == |Split(s, d)|
    ensures Parse(KeysLookup(meta), |meta|, s, d) == Some(res)
  {
    ParseComplete(KeysLookup(meta), |meta|, s, d, res);
  }

  // ---------------------------------------------------------------------
  // assembleKey

  /** Some token of m with index id, when there is one (find_if over the
      dictionary; when the dictionary is dense the token is unique). */
  ghost function TokenOf(m: map<string, nat>, id: nat): (r: Option<string>)
    ensures r.Some? ==> r.value in m && m[r.value] == id
    ensures r.None? <==> forall t :: t in m ==> m[t] != id
  {
    if exists t :: t in m && m[t] == id then Some(var t :| t in m && m[t] == id; t) else None
  }

  /** The token of each index at its level, or None when one has none. */
  ghost function TokensOf(meta: seq<map<string, nat>>, key: seq<nat>): (r: Option<seq<string>>)
    requires |key| <= |meta|
    ensures r.Some? ==> |r.value| == |key|
    decreases |key|
  {
    if |key| == 0 then Some([])
    else match (TokensOf(meta, key[..|key| - 1]), TokenOf(meta[|key| - 1], key[|key| - 1]))
      case (Some(ts), Some(t)) => Some(ts + [t])
      case _ => None
  }

  lemma {:induction false} TokensOfSound(meta: seq<map<string, nat>>, key: seq<nat>)
    requires |key| <= |meta|
    ensures TokensOf(meta, key).Some? <==> forall l :: 0 <= l < |key| ==> TokenOf(meta[l], key[l]).Some?
    ensures TokensOf(meta, key).Some? ==> forall l :: 0 <= l < |key| ==>
      TokensOf(meta, key).value[l] in meta[l] && meta[l][TokensOf(meta, key).value[l]] == key[l]
    decreases |key|
  {
    if |key| > 0 {
      var init := key[..|key| - 1];
      TokensOfSound(meta, init);
      if TokensOf(meta, init).None? {
        var l :| 0 <= l < |init| && TokenOf(meta[l], init[l]).None?;
        assert key[l] == init[l];
      } else {
        assert forall l :: 0 <= l < |init| ==> key[l] == init[l];
      }
    }
  }

  /** Each token preceded by the delimiter, as assembleKey emits them. */
  function Prefixed(ts: seq<string>, d: char): string
    decreases |ts|
  {
    if |ts| == 0 then [] else Prefixed(ts[..|ts| - 1], d) + [d] + ts[|ts| - 1]
  }

  /** assembleKey as written: throws (None) when an index has no token at its
      level, otherwise emits the delimiter before every token. */
  ghost function AssembleKeyAsWritten(meta: seq<map<string, nat>>, d: char, key: seq<nat>): Option<string>
    requires |key| <= |meta|
  {
    match TokensOf(meta, key)
    case Some(ts) => Some(Prefixed(ts, d))
    case None => None
  }

  /** assembleKey as intended: the tokens joined with the delimiter between
      them, so that parseKey reads them back. */
  ghost function AssembleKey(meta: seq<map<string, nat>>, d: char, key: seq<nat>): Option<string>
    requires 1 <= |key| <= |meta|
  {
    match TokensOf(meta, key)
    case Some(ts) => Some(Join(ts, d))
    case None => None
  }

  lemma {:induction false} PrefixedIsJoin(ts: seq<string>, d: char)
    requires |ts| >= 1
    ensures Prefixed(ts, d) == [d] + Join(ts, d)
    decreases |ts|
  {
    if |ts| > 1 {
      PrefixedIsJoin(ts[..|ts| - 1], d);
    }
  }

  lemma {:induction false} OccurrencesPrepend(s: string, d: char)
    ensures Occurrences([d] + s, d) == Occurrences(s, d) + 1
    decreases |s|
  {
    if |s| > 0 {
      OccurrencesPrepend(s[..|s| - 1], d);
      assert ([d] + s)[..|s|] == [d] + s[..|s| - 1];
    }
  }

  /** The assembled key as written has a leading delimiter, hence one token
      more than there are levels, so it never parses back. */
  lemma AssembleKeyAsWrittenNeverParses(meta: seq<map<string, nat>>, d: char, key: seq<nat>)
    requires |key| == |meta| >= 1
    requires AssembleKeyAsWritten(meta, d, key).Some?
    ensures AssembleKeyAsWritten(meta, d, key).value[0] == d
    ensures Parse(KeysLookup(meta), |meta|, AssembleKeyAsWritten(meta, d, key).value, d) == None
  {
    var ts := TokensOf(meta, key).value;
    PrefixedIsJoin(ts, d);
    OccurrencesPrepend(Join(ts, d), d);
    JoinSplitLength(ts, d);
  }

  lemma {:induction false} JoinSplitLength(ts: seq<string>, d: char)
    requires |ts| >= 1
    ensures |Split(Join(ts, d), d)| >= |ts|
    decreases |ts|
  {
    if |ts| > 1 {
      var init := ts[..|ts| - 1];
      JoinSplitLength(init, d);
      assert Join(ts, d) == Join(init, d) + ([d] + ts[|ts| - 1]);
      OccurrencesAppend(Join(init, d), [d] + ts[|ts| - 1], d);
      OccurrencesPrepend(ts[|ts| - 1], d);
    }
  }

  lemma {:induction false} OccurrencesAppend(s: string, t: string, d: char)
    ensures Occurrences(s + t, d) >= Occurrences(s, d) + Occurrences(t, d)
    decreases |t|
  {
    if |t| > 0 {
      OccurrencesAppend(s, t[..|t| - 1], d);
      assert (s + t)[..|s + t| - 1] == s + t[..|t| - 1];
    } else {
      assert s + t == s;
    }
  }

  /** The corrected assembleKey is undone by parsing: for indices that all
      have tokens, none containing the delimiter, the assembled key parses
      back to the same indices. */
  lemma AssembleKeyRoundTrip(meta: seq<map<string, nat>>, d: char, key: seq<nat>)
    requires |key| == |meta| >= 1
    requires AssembleKey(meta, d, key).Some?
    requires forall l :: 0 <= l < |key| ==> d !in TokensOf(meta, key).value[l]
    ensures Parse(KeysLookup(meta), |meta|, AssembleKey(meta, d, key).value, d) == Some(key)
  {
    var ts := TokensOf(meta, key).value;
    TokensOfSound(meta, key);
    SplitJoin(ts, d);
    ParseComplete(KeysLookup(meta), |meta|, Join(ts, d), d, key);
  }

  /** The other direction: a key that parses, over dense dictionaries, is
      what the corrected assembleKey builds from its indices, and that
      assembled key parses back to the same indices. */
  lemma ParseThenAssemble(meta: seq<map<string, nat>>, d: char, key: string, indices: seq<nat>)
    requires |meta| >= 1 && AllDense(meta)
    requires Parse(KeysLookup(meta), |meta|, key, d) == Some(indices)
    ensures |indices| == |meta|
    ensures AssembleKey(meta, d, indices) == Some(key)
    ensures Parse(KeysLookup(meta), |meta|, AssembleKey(meta, d, indices).value, d) == Some(indices)
  {
    var ts := Split(key, d);
    ParseSound(KeysLookup(meta), |meta|, key, d);
    forall l | 0 <= l < |meta|
      ensures TokenOf(meta[l], indices[l]) == Some(ts[l])
    {
      assert KeysLookup(meta)(l, ts[l]) == Some(indices[l]);
      assert ts[l] in meta[l] && meta[l][ts[l]] == indices[l];
      var t := TokenOf(meta[l], indices[l]);
      assert t.Some?;
      assert t.value in meta[l] && meta[l][t.value] == indices[l];
    }
    TokensOfSound(meta, indices);
    assert TokensOf(meta, indices).value == ts;
    JoinSplit(key, d);
    SplitTokensFree(key, d);
    AssembleKeyRoundTrip(meta, d, indices);
  }

  /** The tokens of a split never contain the delimiter. */
  lemma {:induction false} SplitTokensFree(s: string, d: char)
    ensures forall k :: 0 <= k < |Split(s, d)| ==> d !in Split(s, d)[k]
    decreases |s|
  {
    if |s| > 0 {
      SplitTokensFree(s[..|s| - 1], d);
    }
  }

  // ---------------------------------------------------------------------
  // The codec object

  class SuffixTreeTraits {
    /** keys_: the per-level dictionaries. */
    var keys: ContBuilderKeys
    /** delimeter_. */
    var delimiter: char
    /** total_Suffix: the number of levels. */
    const levelCount: nat

    ghost predicate Valid()
      reads this, keys, keys.arena
    {
      keys.Valid() && |keys.meta| == levelCount
    }

    /** The default constructor: empty dictionaries, '-' unless given. */
    constructor (levels: nat, d: char)
      ensures Valid() && fresh(keys) && fresh(keys.arena)
      ensures levelCount == levels && delimiter == d
      ensures forall l :: 0 <= l < levels ==> keys.meta[l] == map[]
    {
      levelCount := levels;
      delimiter := d;
      keys := new ContBuilderKeys(levels);
    }

    /** The seeded constructors: level l numbers the tokens of seeds[l]. */
    constructor Seeded(seeds: seq<seq<string>>, d: char)
      ensures Valid() && fresh(keys) && fresh(keys.arena)
      ensures levelCount == |seeds| && delimiter == d
      ensures forall l :: 0 <= l < |seeds| ==> keys.meta[l] == SeedMap(seeds[l])
    {
      levelCount := |seeds|;
      delimiter := d;
      keys := new ContBuilderKeys.Seeded(seeds);
    }

    /** The copy constructor: the same delimiter and dictionaries, copied. */
    constructor Copy(other: SuffixTreeTraits)
      requires other.Valid()
      ensures Valid() && fresh(keys) && fresh(keys.arena)
      ensures levelCount == other.levelCount && delimiter == other.delimiter
      ensures keys.meta == other.keys.meta
    {
      levelCount := other.levelCount;
      delimiter := other.delimiter;
      keys := new ContBuilderKeys.Copy(other.keys);
    }

    /** operator= (by value): takes other's delimiter and a copy of its
        dictionaries. */
    method Assign(other: SuffixTreeTraits)
      requires Valid() && other.Valid() && other.levelCount == levelCount
      modifies this
      ensures Valid() && fresh(keys)
      ensures delimiter == old(other.delimiter) && keys.meta == old(other.keys.meta)
    {
      var cont := new ContBuilderKeys.Copy(other.keys);
      delimiter := other.delimiter;
      keys := cont;
    }

    /** levels(): the fixed number of levels. */
    function Levels(): (r: nat)
      reads this, keys, keys.arena
      requires Valid()
      ensures r == |keys.meta|
    {
      levelCount
    }

    /** suffixCount(level): the number of tokens known at that level; on a
        dense level the indices in use are exactly 0 .. count - 1. */
    function SuffixCount(level: nat): (r: nat)
      reads this, keys, keys.arena
      requires Valid() && level < Levels()
      ensures Dense(keys.meta[level]) ==> Indices(keys.meta[level]) == IndexRange(r)
    {
      keys.SuffixCount(level)
    }

    /** getKeyIndex: the index of a token at a level, if known. */
    function GetKeyIndex(level: nat, token: string): (r: Option<nat>)
      reads this, keys, keys.arena
      requires Valid()
      ensures r.Some? <==> level < levelCount && token in keys.meta[level]
      ensures r.Some? ==> r.value == keys.meta[level][token]
    {
      KeysLookup(keys.meta)(level, token)
    }

    /** parseKey: the read-only character loop, as written (no arity check). */
    method ParseKey(key: string) returns (r: ScanOutcome)
      requires Valid()
      ensures r == ScanAsWritten(KeysLookup(keys.meta), levelCount, key, delimiter)
    {
      r := ScanKey(KeysLookup(keys.meta), levelCount, key, delimiter);
    }

    /** getNewKeyIndex: the token's index at the level, registering it with
        the next free index when it is unknown. */
    method GetNewKeyIndex(level: nat, token: string) returns (index: nat)
      requires Valid() && level < levelCount
      modifies keys, keys.arena
      ensures Valid() && keys.arena == old(keys.arena)
      ensures token in keys.meta[level] && keys.meta[level][token] == index
      ensures token in old(keys.meta[level]) ==> keys.meta == old(keys.meta)
      ensures token !in old(keys.meta[level]) ==> index == |old(keys.meta[level])| && |keys.meta[level]| == index + 1
      ensures keys.meta == old(keys.meta)[level := WithToken(old(keys.meta[level]), token)]
      ensures Extends(old(keys.meta), keys.meta)
      ensures forall l :: 0 <= l < levelCount && l != level ==> keys.meta[l] == old(keys.meta[l])
      ensures AllDense(old(keys.meta)) ==> AllDense(keys.meta)
    {
      if token in keys.meta[level] {
        index := keys.meta[level][token];
        return;
      }
      index := keys.AddKey(level, token);
    }

    /** parseNewKey: fails, changing nothing, unless the key has exactly one
        token per level; otherwise every token gets its existing index or a
        new one, and afterwards the key parses to those indices. */
    method ParseNewKey(key: string) returns (r: Option<seq<nat>>)
      requires Valid()
      modifies keys, keys.arena
      ensures Valid()
      ensures r.None? <==> |Split(key, delimiter)| != levelCount
      ensures r.None? ==> keys.meta == old(keys.meta)
      ensures r.Some? ==> Parse(KeysLookup(keys.meta), levelCount, key, delimiter) == r
      ensures r.Some? ==> |Split(key, delimiter)| == levelCount
      ensures r.Some? ==> forall l :: 0 <= l < levelCount ==> keys.meta[l] == WithToken(old(keys.meta[l]), Split(key, delimiter)[l])
      ensures Extends(old(keys.meta), keys.meta)
      ensures AllDense(old(keys.meta)) ==> AllDense(keys.meta)
    {
      var ends := TokenEnds(key, delimiter, levelCount);
      if ends.None? {
        return None;
      }
      var pos := ends.value;
      var res := RegisterTokens(key, pos);
      RegisteredParses(keys.meta, key, delimiter, res);
      r := Some(res);
    }

    /** The second loop of parseNewKey: the slice before each recorded
        delimiter position is registered at its level. */
    method RegisterTokens(key: string, pos: seq<nat>) returns (res: seq<nat>)
      requires Valid() && |pos| == levelCount && EndsWithin(pos, |key|)
      modifies keys, keys.arena
      ensures Valid()
      ensures |res| == levelCount && Registered(keys.meta, Slices(key, pos), res)
      ensures forall l :: 0 <= l < levelCount ==> keys.meta[l] == WithToken(old(keys.meta[l]), Slices(key, pos)[l])
      ensures Extends(old(keys.meta), keys.meta)
      ensures AllDense(old(keys.meta)) ==> AllDense(keys.meta)
    {
      ghost var ts := Slices(key, pos);
      res := [];
      var startIdx := 0;
      var i := 0;
      while i < levelCount
        invariant 0 <= i <= levelCount
        invariant Valid() && keys.arena == old(keys.arena)
        invariant |res| == i
        invariant startIdx == TokenStart(pos, i)
        invariant Registered(keys.meta, ts, res)
        invariant forall l :: 0 <= l < i ==> keys.meta[l] == WithToken(old(keys.meta[l]), ts[l])
        invariant forall l :: i <= l < levelCount ==> keys.meta[l] == old(keys.meta[l])
        invariant Extends(old(keys.meta), keys.meta)
        invariant AllDense(old(keys.meta)) ==> AllDense(keys.meta)
      {
        var lastIdx := pos[i];
        SlicesAt(key, pos, i);
        ghost var before := keys.meta;
        var index := GetNewKeyIndex(i, key[startIdx..lastIdx]);
        WithTokenStep(old(keys.meta), before, keys.meta, ts, i);
        RegisteredStep(before, keys.meta, ts, res, index);
        res := res + [index];
        startIdx := lastIdx + 1;
        i := i + 1;
      }
    }
  }

  /** After parseNewKey succeeds, the read-only parse of a key whose last
      token is not empty succeeds with the same indices. */
  lemma ParseNewKeyThenParseKey(meta: seq<map<string, nat>>, key: string, d: char, indices: seq<nat>)
    requires Parse(KeysLookup(meta), |meta|, key, d) == Some(indices)
    requires Pending(key, d) != ""
    ensures ScanAsWritten(KeysLookup(meta), |meta|, key, d) == Scanned(indices)
  {
    ParseSound(KeysLookup(meta), |meta|, key, d);
    ScanAgreesWithParse(KeysLookup(meta), |meta|, key, d);
  }
}
