/** StaticSuffixTree (src/StaticSuffixTree.h): the dense container. Every
    combination of the four levels' tokens has a slot in one flat pair of
    arrays, values and occupied flags, addressed by the mixed-radix number
    the parsed key spells; a counter tracks how many slots are occupied. */
module StaticSuffixTreeModel {
  import opened Wrappers
  import opened KeyScan
  import opened StaticContBuilderModel

  // ---------------------------------------------------------------------
  // Sizing and addressing

  /** The product of the level sizes: the number of slots. */
  function Product(counts: seq<nat>): nat
    decreases |counts|
  {
    if |counts| == 0 then 1 else Product(counts[..|counts| - 1]) * counts[|counts| - 1]
  }

  /** The slot of a parsed key: key[0] is the most significant digit and
      level l has counts[l] digits. */
  function MixedRadix(key: seq<nat>, counts: seq<nat>): nat
    requires |key| == |counts| >= 1
    decreases |key|
  {
    if |key| == 1 then key[0]
    else MixedRadix(key[..|key| - 1], counts[..|counts| - 1]) * counts[|counts| - 1] + key[|key| - 1]
  }

  /** Every digit below its level's size. */
  predicate InRange(key: seq<nat>, counts: seq<nat>)
  {
    |key| == |counts| && forall l :: 0 <= l < |key| ==> key[l] < counts[l]
  }

  lemma MulMono(a: nat, b: nat, c: nat)
    requires a <= b
    ensures a * c <= b * c
  {
  }

  /** A digit below c added to a multiple of c stays below the next one. */
  lemma DigitBound(q: nat, p: nat, c: nat, x: nat)
    requires q < p && x < c
    ensures q * c + x < p * c
  {
    MulMono(q + 1, p, c);
  }

  /** The slot of an in-range key is below the number of slots. */
  lemma {:induction false} MixedRadixBound(key: seq<nat>, counts: seq<nat>)
    requires |key| >= 1 && InRange(key, counts)
    ensures MixedRadix(key, counts) < Product(counts)
    decreases |key|
  {
    var n := |key|;
    if n == 1 {
      assert counts[..0] == [];
    } else {
      MixedRadixBound(key[..n - 1], counts[..n - 1]);
      DigitBound(MixedRadix(key[..n - 1], counts[..n - 1]), Product(counts[..n - 1]), counts[n - 1], key[n - 1]);
    }
  }

  /** A number times c plus a digit below c determines both. */
  lemma DigitUnique(a: nat, x: nat, b: nat, y: nat, c: nat)
    requires x < c && y < c && a * c + x == b * c + y
    ensures a == b && x == y
  {
    if a < b {
      DigitBound(a, b, c, x);
    } else if b < a {
      DigitBound(b, a, c, y);
    }
  }

  /** Distinct in-range keys have distinct slots. */
  lemma {:induction false} MixedRadixInjective(k1: seq<nat>, k2: seq<nat>, counts: seq<nat>)
    requires |counts| >= 1 && InRange(k1, counts) && InRange(k2, counts)
    requires MixedRadix(k1, counts) == MixedRadix(k2, counts)
    ensures k1 == k2
    decreases |counts|
  {
    var n := |counts|;
    if n > 1 {
      var c := counts[..n - 1];
      DigitUnique(MixedRadix(k1[..n - 1], c), k1[n - 1], MixedRadix(k2[..n - 1], c), k2[n - 1], counts[n - 1]);
      MixedRadixInjective(k1[..n - 1], k2[..n - 1], c);
      assert k1 == k1[..n - 1] + [k1[n - 1]] && k2 == k2[..n - 1] + [k2[n - 1]];
    }
  }

  /** The level sizes of a builder. */
  function Counts(b: StaticContBuilder): (r: seq<nat>)
    ensures |r| == |b.meta|
    ensures forall l :: 0 <= l < |r| ==> r[l] == |b.meta[l]|
  {
    seq(|b.meta|, l requires 0 <= l < |b.meta| => |b.meta[l]|)
  }

  /** Parsing succeeds only with indices below their level's size. */
  lemma ParsedInRange(b: StaticContBuilder, key: string)
    requires Parse(StaticLookup(b.meta), |b.meta|, key, b.delimiter).Some?
    ensures InRange(Parse(StaticLookup(b.meta), |b.meta|, key, b.delimiter).value, Counts(b))
  {
    ParseSound(StaticLookup(b.meta), |b.meta|, key, b.delimiter);
  }

  // ---------------------------------------------------------------------
  // Occupancy

  function CountTrue(s: seq<bool>): nat
    decreases |s|
  {
    if |s| == 0 then 0 else CountTrue(s[..|s| - 1]) + (if s[|s| - 1] then 1 else 0)
  }

  /** Setting one flag changes the count by the flag's change. */
  lemma {:induction false} CountTrueUpdate(s: seq<bool>, i: nat, v: bool)
    requires i < |s|
    ensures CountTrue(s[i := v]) == CountTrue(s) - (if s[i] then 1 else 0) + (if v then 1 else 0)
    decreases |s|
  {
    var n := |s|;
    if i < n - 1 {
      CountTrueUpdate(s[..n - 1], i, v);
      assert s[i := v][..n - 1] == s[..n - 1][i := v];
    } else {
      assert s[i := v][..n - 1] == s[..n - 1];
    }
  }

  lemma {:induction false} CountTrueNone(s: seq<bool>)
    requires forall i :: 0 <= i < |s| ==> !s[i]
    ensures CountTrue(s) == 0
    decreases |s|
  {
    if |s| > 0 {
      CountTrueNone(s[..|s| - 1]);
    }
  }

  /** An iterator: the end, or a slot of the container it was made from. */
  datatype Iterator = End | At(index: nat)

  class StaticSuffixTree {
    /** builder_: the codec, fixed after construction. */
    const builder: StaticContBuilder
    /** values_. */
    var values: array<int>
    /** optional_: which slots hold a value. */
    var optional: array<bool>
    /** size_: the number of occupied slots. */
    var size: nat

    ghost predicate Valid()
      reads this, optional, values
    {
      && |builder.meta| == Levels
      && values.Length == optional.Length == Product(Counts(builder))
      && size == CountTrue(optional[..])
    }

    /** The slot of a key, when it parses. */
    function Slot(key: string): (r: Option<nat>)
      requires |builder.meta| == Levels
      ensures r.Some? ==> r.value < Product(Counts(builder))
    {
      match Parse(StaticLookup(builder.meta), |builder.meta|, key, builder.delimiter)
      case None => None
      case Some(k) =>
        ParsedInRange(builder, key);
        MixedRadixBound(k, Counts(builder));
        Some(MixedRadix(k, Counts(builder)))
    }

    /** The constructor: one slot per combination of tokens, all empty. */
    constructor (b: StaticContBuilder)
      requires |b.meta| == Levels
      ensures Valid() && builder == b && fresh(values) && fresh(optional)
      ensures size == 0
      ensures forall i :: 0 <= i < optional.Length ==> !optional[i] && values[i] == 0
    {
      builder := b;
      var counts := Counts(b);
      var totalSize := 1;
      var lvl := 0;
      while lvl < Levels
        invariant 0 <= lvl <= Levels
        invariant totalSize == Product(counts[..lvl])
      {
        assert counts[..lvl + 1][..lvl] == counts[..lvl];
        totalSize := totalSize * counts[lvl];
        lvl := lvl + 1;
      }
      assert counts[..Levels] == counts;
      optional := new bool[totalSize](_ => false);
      values := new int[totalSize](_ => 0);
      size := 0;
      new;
      CountTrueNone(optional[..]);
    }

    /** The copy constructor: the same builder, and copies of the arrays, so
        later changes to either container do not reach the other. */
    constructor Copy(other: StaticSuffixTree)
      requires other.Valid()
      ensures Valid() && fresh(values) && fresh(optional)
      ensures builder == other.builder && size == other.size
      ensures values[..] == other.values[..] && optional[..] == other.optional[..]
    {
      builder := other.builder;
      var vs := CopyArray(other.values);
      var os := CopyArray(other.optional);
      values, optional := vs, os;
      size := other.size;
    }

    /** calcIndex: the mixed-radix slot of a parsed key. */
    method CalcIndex(key: seq<nat>) returns (index: nat)
      requires |builder.meta| == Levels && InRange(key, Counts(builder))
      ensures index == MixedRadix(key, Counts(builder))
      ensures index < Product(Counts(builder))
    {
      var counts := Counts(builder);
      index := key[0];
      var lvl := 1;
      while lvl < Levels
        invariant 1 <= lvl <= Levels
        invariant index == MixedRadix(key[..lvl], counts[..lvl])
      {
        assert key[..lvl + 1][..lvl] == key[..lvl] && counts[..lvl + 1][..lvl] == counts[..lvl];
        index := index * counts[lvl] + key[lvl];
        lvl := lvl + 1;
      }
      assert key[..Levels] == key && counts[..Levels] == counts;
      MixedRadixBound(key, counts);
    }

    /** begin(): the first occupied slot, or the end. */
    method Begin() returns (r: Iterator)
      requires Valid()
      ensures r.At? ==> r.index < optional.Length && optional[r.index]
      ensures r.At? ==> forall j :: 0 <= j < r.index ==> !optional[j]
      ensures r.End? ==> forall j :: 0 <= j < optional.Length ==> !optional[j]
    {
      var i := 0;
      while i < optional.Length
        invariant 0 <= i <= optional.Length
        invariant forall j :: 0 <= j < i ==> !optional[j]
      {
        if optional[i] {
          return At(i);
        }
        i := i + 1;
      }
      return End;
    }

    /** next(index): the first occupied slot after index, or the end. */
    method Next(index: nat) returns (r: Iterator)
      requires Valid()
      ensures r.At? ==> index < r.index < optional.Length && optional[r.index]
      ensures r.At? ==> forall j :: index < j < r.index ==> !optional[j]
      ensures r.End? ==> forall j :: index < j < optional.Length ==> !optional[j]
    {
      var i := index + 1;
      while i < optional.Length
        invariant index + 1 <= i
        invariant forall j :: index < j < i && j < optional.Length ==> !optional[j]
      {
        if optional[i] {
          return At(i);
        }
        i := i + 1;
      }
      return End;
    }

    /** insert: nothing when the key does not parse; otherwise stores the
        value in the key's slot, counting the slot if it was empty. */
    method Insert(key: string, val: int) returns (r: Iterator)
      requires Valid()
      modifies this, values, optional
      ensures Valid() && values == old(values) && optional == old(optional)
      ensures Slot(key).None? ==>
        r == End && values[..] == old(values[..]) && optional[..] == old(optional[..]) && size == old(size)
      ensures Slot(key).Some? ==> var i := Slot(key).value;
        && r == At(i)
        && values[..] == old(values[..])[i := val]
        && optional[..] == old(optional[..])[i := true]
        && size == old(size) + (if old(optional[i]) then 0 else 1)
    {
      var parsed := builder.ParseKeyExact(key);
      if parsed.None? {
        return End;
      }
      ParsedInRange(builder, key);
      var index := CalcIndex(parsed.value);
      values[index] := val;
      CountTrueUpdate(optional[..], index, true);
      if !optional[index] {
        size := size + 1;
      }
      optional[index] := true;
      r := At(index);
    }

    /** find: the key's slot when it parses and is occupied, else the end. */
    method Find(key: string) returns (r: Iterator)
      requires Valid()
      ensures Slot(key).Some? && optional[Slot(key).value] ==> r == At(Slot(key).value)
      ensures Slot(key).None? || !optional[Slot(key).value] ==> r == End
    {
      var parsed := builder.ParseKeyExact(key);
      if parsed.None? {
        return End;
      }
      ParsedInRange(builder, key);
      var index := CalcIndex(parsed.value);
      if optional[index] {
        return At(index);
      }
      return End;
    }

    /** erase(key): when the key's slot is occupied, empties it (the value
        stays in place) and returns the next occupied slot; otherwise changes
        nothing and returns the end. */
    method EraseKey(key: string) returns (r: Iterator)
      requires Valid()
      modifies this, optional
      ensures Valid() && values == old(values) && optional == old(optional)
      ensures unchanged(values)
      ensures Slot(key).None? || !old(optional[Slot(key).value]) ==>
        r == End && optional[..] == old(optional[..]) && size == old(size)
      ensures Slot(key).Some? && old(optional[Slot(key).value]) ==> var i := Slot(key).value;
        && optional[..] == old(optional[..])[i := false] && size == old(size) - 1
        && (r.At? ==> i < r.index < optional.Length && optional[r.index])
        && (forall j :: i < j < optional.Length && (r.At? ==> j < r.index) ==> !optional[j])
    {
      var parsed := builder.ParseKeyExact(key);
      if parsed.None? {
        return End;
      }
      ParsedInRange(builder, key);
      var index := CalcIndex(parsed.value);
      if !optional[index] {
        return End;
      }
      CountTrueUpdate(optional[..], index, false);
      optional[index] := false;
      size := size - 1;
      r := Next(index);
    }

    /** erase(iterator): the end erases nothing; otherwise the slot is
        emptied as by erase(key) and the next occupied slot returned. The
        source also computes it.next() and discards it. */
    method EraseAt(it: Iterator) returns (r: Iterator)
      requires Valid() && (it.At? ==> it.index < optional.Length)
      modifies this, optional
      ensures Valid() && values == old(values) && optional == old(optional)
      ensures unchanged(values)
      ensures it.End? || !old(optional[it.index]) ==>
        r == End && optional[..] == old(optional[..]) && size == old(size)
      ensures it.At? && old(optional[it.index]) ==>
        && optional[..] == old(optional[..])[it.index := false] && size == old(size) - 1
        && (r.At? ==> it.index < r.index < optional.Length && optional[r.index])
        && (forall j :: it.index < j < optional.Length && (r.At? ==> j < r.index) ==> !optional[j])
    {
      if it.End? {
        return End;
      }
      var index := it.index;
      if optional[index] {
        CountTrueUpdate(optional[..], index, false);
        size := size - 1;
        optional[index] := false;
        r := Next(index);
        return;
      }
      return End;
    }

    /** size(). */
    function Size(): (r: nat)
      reads this, optional, values
      requires Valid()
      ensures r == CountTrue(optional[..])
    {
      size
    }

    /** clear: every slot empty with the default value, size 0. */
    method Clear()
      requires Valid()
      modifies this, values, optional
      ensures Valid() && values == old(values) && optional == old(optional)
      ensures size == 0
      ensures forall i :: 0 <= i < optional.Length ==> !optional[i] && values[i] == 0
    {
      size := 0;
      forall i | 0 <= i < optional.Length {
        optional[i] := false;
      }
      forall i | 0 <= i < values.Length {
        values[i] := 0;
      }
      CountTrueNone(optional[..]);
    }

    /** get(index): the value of an occupied slot; an empty slot throws. */
    function Get(index: nat): (r: Result<int, string>)
      reads this, values, optional
      requires Valid() && index < optional.Length
      ensures r.Ok? <==> optional[index]
      ensures r.Ok? ==> r.value == values[index]
    {
      if !optional[index] then Err("element is not exist at index") else Ok(values[index])
    }

    /** Dereferencing an iterator: the end throws, a slot reads get. */
    function Value(it: Iterator): (r: Result<int, string>)
      reads this, values, optional
      requires Valid() && (it.At? ==> it.index < optional.Length)
      ensures it.End? ==> r.Err?
      ensures it.At? ==> r == Get(it.index)
    {
      if it.End? then Err("Invalid SuffixTreeIterator!") else Get(it.index)
    }

    /** `*it = v`: operator* hands out get's reference, so the end and an
        empty slot throw; otherwise only that slot's value becomes v, and a
        read through the iterator gives v back. */
    method SetValue(it: Iterator, v: int) returns (r: Result<int, string>)
      requires Valid() && (it.At? ==> it.index < optional.Length)
      modifies values
      ensures Valid()
      ensures r.Ok? <==> it.At? && optional[it.index]
      ensures r.Ok? ==> r == Ok(v) && values[..] == old(values[..])[it.index := v] && Value(it) == Ok(v)
      ensures r.Err? ==> values[..] == old(values[..])
    {
      if it.End? {
        return Err("Invalid SuffixTreeIterator!");
      }
      if !optional[it.index] {
        return Err("element is not exist at index");
      }
      values[it.index] := v;
      r := Ok(v);
    }

    /** SuffixTreeIterator::next(): the end stays the end; a slot moves to
        the next occupied slot. */
    method IteratorNext(it: Iterator) returns (r: Iterator)
      requires Valid()
      ensures it.End? ==> r == End
      ensures it.At? && r.At? ==> it.index < r.index < optional.Length && optional[r.index]
      ensures it.At? ==> forall j :: it.index < j < optional.Length && (r.At? ==> j < r.index) ==> !optional[j]
    {
      if it.End? {
        return End;
      }
      r := Next(it.index);
    }

    /** operator++ as written: calls next() and drops its result, so the
        iterator does not move. */
    method IncrementAsWritten(it: Iterator) returns (r: Iterator)
      requires Valid()
      ensures r == it
    {
      var ignored := IteratorNext(it);
      r := it;
    }

    /** operator++ as intended: the iterator becomes next(). */
    method Increment(it: Iterator) returns (r: Iterator)
      requires Valid()
      ensures it.End? ==> r == End
      ensures it.At? && r.At? ==> it.index < r.index < optional.Length && optional[r.index]
      ensures it.At? ==> forall j :: it.index < j < optional.Length && (r.At? ==> j < r.index) ==> !optional[j]
    {
      r := IteratorNext(it);
    }

    /** operator= (by value): the other container's builder cannot be
        swapped here (it is fixed), so both must share one; the arrays become
        copies of the other's and the size is taken over. */
    method Assign(other: StaticSuffixTree)
      requires Valid() && other.Valid() && other.builder == builder
      modifies this
      ensures Valid() && fresh(values) && fresh(optional)
      ensures values[..] == old(other.values[..]) && optional[..] == old(other.optional[..])
      ensures size == old(other.size)
    {
      var sft := new StaticSuffixTree.Copy(other);
      values, optional := sft.values, sft.optional;
      size := sft.size;
    }
  }

  /** A fresh array with the same contents. */
  method CopyArray<T>(a: array<T>) returns (b: array<T>)
    ensures fresh(b) && b[..] == a[..]
  {
    b := new T[a.Length](i requires 0 <= i < a.Length reads a => a[i]);
  }

  /** Erasing the same key twice: the second erase finds the slot empty and
      changes nothing. */
  method EraseTwice(t: StaticSuffixTree, key: string) returns (first: Iterator, second: Iterator)
    requires t.Valid()
    modifies t, t.optional
    ensures t.Valid()
    ensures second == End
    ensures t.size == old(t.size) - (if t.Slot(key).Some? && old(t.optional[t.Slot(key).value]) then 1 else 0)
  {
    first := t.EraseKey(key);
    second := t.EraseKey(key);
  }

  /** Copying and then writing through an iterator of the original: the
      copy has arrays of its own, so it keeps the old values while the
      original reads the new one. */
  method WriteAfterCopy(t: StaticSuffixTree, it: Iterator, v: int) returns (c: StaticSuffixTree, r: Result<int, string>)
    requires t.Valid() && it.At? && it.index < t.optional.Length && t.optional[it.index]
    modifies t.values
    ensures c.Valid() && t.Valid() && c.size == t.size
    ensures r == Ok(v) && t.Value(it) == Ok(v)
    ensures c.values[..] == old(t.values[..]) && c.Value(it) == old(t.Value(it))
  {
    c := new StaticSuffixTree.Copy(t);
    r := t.SetValue(it, v);
  }

  /** With a later occupied slot, operator++ as written leaves the iterator
      where it was, while next() moves on: a loop "it != end(); ++it" over a
      non-empty container never ends. */
  method IncrementStalls(t: StaticSuffixTree, it: Iterator) returns (stalled: Iterator, moved: Iterator)
    requires t.Valid() && it.At? && it.index < t.optional.Length
    requires exists j :: it.index < j < t.optional.Length && t.optional[j]
    ensures stalled == it && moved.At? && moved != it
  {
    stalled := t.IncrementAsWritten(it);
    moved := t.Increment(it);
  }
}
