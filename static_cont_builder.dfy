/** StaticContBuilder (src/StaticContBuilder.cpp): the key codec of the
    dense container. Each of the four levels is a vocabulary sorted once by
    the constructor; a token's index is its position in that order, found
    with std::lower_bound and strncmp. */
module StaticContBuilderModel {
  import opened Wrappers
  import opened KeyScan

  // ---------------------------------------------------------------------
  // Character strings compared as the C library does

  const NUL: char := '\0'

  /** The character a C string reader sees at the front (NUL once exhausted). */
  function Head(s: string): char
  {
    if |s| > 0 then s[0] else NUL
  }

  function Tail(s: string): string
  {
    if |s| > 0 then s[1..] else []
  }

  /** strncmp(a, b, n): compares at most n characters, as unsigned values,
      stopping after a NUL common to both. Its sign only: -1, 0 or 1. */
  function StrNCmp(a: string, b: string, n: nat): (r: int)
    ensures -1 <= r <= 1
    decreases n
  {
    if n == 0 then 0
    else if Head(a) != Head(b) then (if Head(a) < Head(b) then -1 else 1)
    else if Head(a) == NUL then 0
    else StrNCmp(Tail(a), Tail(b), n - 1)
  }

  /** std::string operator<: lexicographic order on the characters. */
  predicate StrLess(a: string, b: string)
    decreases |a|
  {
    if |a| == 0 then |b| > 0
    else |b| > 0 && (a[0] < b[0] || (a[0] == b[0] && StrLess(a[1..], b[1..])))
  }

  lemma {:induction false} StrLessIrreflexive(a: string)
    ensures !StrLess(a, a)
    decreases |a|
  {
    if |a| > 0 {
      StrLessIrreflexive(a[1..]);
    }
  }

  lemma {:induction false} StrLessTotal(a: string, b: string)
    ensures a == b || StrLess(a, b) || StrLess(b, a)
    decreases |a|
  {
    if |a| > 0 && |b| > 0 && a[0] == b[0] {
      StrLessTotal(a[1..], b[1..]);
      if a[1..] == b[1..] {
        assert a == [a[0]] + a[1..] && b == [b[0]] + b[1..];
      }
    }
  }

  lemma {:induction false} StrLessTransitive(a: string, b: string, c: string)
    requires StrLess(a, b) && StrLess(b, c)
    ensures StrLess(a, c)
    decreases |a|
  {
    if |a| > 0 && a[0] == b[0] && b[0] == c[0] {
      StrLessTransitive(a[1..], b[1..], c[1..]);
    }
  }

  lemma StrLessAsymmetric(a: string, b: string)
    requires StrLess(a, b)
    ensures !StrLess(b, a)
  {
    if StrLess(b, a) {
      StrLessTransitive(a, b, a);
      StrLessIrreflexive(a);
    }
  }

  /** A string strictly below a NUL-free token compares below it on the
      token's length. */
  lemma {:induction false} StrLessNCmp(a: string, b: string)
    requires StrLess(a, b) && NUL !in b
    ensures StrNCmp(a, b, |b|) < 0
    decreases |a|
  {
    if |a| > 0 && a[0] == b[0] {
      StrLessNCmp(a[1..], b[1..]);
    }
  }

  /** A string compares equal to itself on its length. */
  lemma {:induction false} StrNCmpSelf(a: string)
    ensures StrNCmp(a, a, |a|) == 0
    decreases |a|
  {
    if |a| > 0 && a[0] != NUL {
      StrNCmpSelf(a[1..]);
    }
  }

  // ---------------------------------------------------------------------
  // Sorting (std::sort of each level)

  /** Non-decreasing in the string order. */
  predicate Sorted(s: seq<string>)
  {
    forall i, j :: 0 <= i < j < |s| ==> !StrLess(s[j], s[i])
  }

  /** Strictly increasing: sorted without repeats. */
  predicate StrictlySorted(s: seq<string>)
  {
    forall i, j :: 0 <= i < j < |s| ==> StrLess(s[i], s[j])
  }

  function Insert(x: string, s: seq<string>): (r: seq<string>)
    ensures multiset(r) == multiset(s) + multiset{x}
    ensures |r| == |s| + 1
  {
    if |s| == 0 then [x]
    else if !StrLess(s[0], x) then [x] + s
    else
      assert s == [s[0]] + s[1..];
      [s[0]] + Insert(x, s[1..])
  }

  lemma {:induction false} InsertSorted(x: string, s: seq<string>)
    requires Sorted(s)
    ensures Sorted(Insert(x, s))
    decreases |s|
  {
    if |s| > 0 {
      if !StrLess(s[0], x) {
        forall j | 0 < j < |s| + 1
          ensures !StrLess(([x] + s)[j], x)
        {
          if StrLess(s[j - 1], x) {
            if j - 1 > 0 {
              assert !StrLess(s[j - 1], s[0]);
              StrLessTotal(s[0], s[j - 1]);
              if s[0] != s[j - 1] {
                StrLessTransitive(s[0], s[j - 1], x);
              }
            }
          }
        }
      } else {
        var rest := Insert(x, s[1..]);
        InsertSorted(x, s[1..]);
        forall j | 0 <= j < |rest|
          ensures !StrLess(rest[j], s[0])
        {
          assert rest[j] in multiset(rest);
          assert rest[j] in multiset(s[1..]) || rest[j] == x;
          if rest[j] == x {
            StrLessAsymmetric(s[0], x);
          } else {
            var k :| 0 <= k < |s[1..]| && s[1..][k] == rest[j];
            assert s[k + 1] == rest[j];
          }
        }
      }
    }
  }

  /** The vocabulary in order, as std::sort leaves it. */
  function SortTokens(s: seq<string>): (r: seq<string>)
    ensures multiset(r) == multiset(s) && |r| == |s|
    decreases |s|
  {
    if |s| == 0 then []
    else
      assert s == s[..|s| - 1] + [s[|s| - 1]];
      Insert(s[|s| - 1], SortTokens(s[..|s| - 1]))
  }

  lemma {:induction false} SortTokensSorted(s: seq<string>)
    ensures Sorted(SortTokens(s))
    decreases |s|
  {
    if |s| > 0 {
      SortTokensSorted(s[..|s| - 1]);
      InsertSorted(s[|s| - 1], SortTokens(s[..|s| - 1]));
    }
  }

  lemma {:induction false} InsertStrict(x: string, s: seq<string>)
    requires StrictlySorted(s) && x !in s
    ensures StrictlySorted(Insert(x, s))
    decreases |s|
  {
    if |s| > 0 {
      if !StrLess(s[0], x) {
        StrLessTotal(s[0], x);
        assert s[0] in s;
        forall j | 0 < j < |s| + 1
          ensures StrLess(x, ([x] + s)[j])
        {
          if j - 1 > 0 {
            StrLessTransitive(x, s[0], s[j - 1]);
          }
        }
      } else {
        var rest := Insert(x, s[1..]);
        assert x !in s[1..];
        InsertStrict(x, s[1..]);
        forall j | 0 <= j < |rest|
          ensures StrLess(s[0], rest[j])
        {
          assert rest[j] in multiset(rest);
          assert rest[j] in multiset(s[1..]) || rest[j] == x;
          if rest[j] != x {
            var k :| 0 <= k < |s[1..]| && s[1..][k] == rest[j];
            assert s[k + 1] == rest[j];
          }
        }
      }
    }
  }

  /** Sorting distinct tokens leaves them strictly increasing. */
  lemma {:induction false} SortTokensStrict(s: seq<string>)
    requires forall i, j :: 0 <= i < j < |s| ==> s[i] != s[j]
    ensures StrictlySorted(SortTokens(s))
    decreases |s|
  {
    if |s| > 0 {
      var init := s[..|s| - 1];
      var x := s[|s| - 1];
      SortTokensStrict(init);
      assert x !in init;
      assert x !in multiset(SortTokens(init));
      InsertStrict(x, SortTokens(init));
    }
  }

  // ---------------------------------------------------------------------
  // getKeyIndex

  /** std::lower_bound with the source's comparator: the first position whose
      entry is not below the token on the token's length (strncmp < 0). On a
      range partitioned by the comparator, as a sorted vocabulary is, this is
      the position the binary search returns. */
  function LowerBound(vocab: seq<string>, token: string): (r: nat)
    ensures r <= |vocab|
    ensures forall j :: 0 <= j < r ==> StrNCmp(vocab[j], token, |token|) < 0
    ensures r < |vocab| ==> StrNCmp(vocab[r], token, |token|) >= 0
    decreases |vocab|
  {
    if |vocab| == 0 then 0
    else if StrNCmp(vocab[0], token, |token|) >= 0 then 0
    else 1 + LowerBound(vocab[1..], token)
  }

  /** getKeyIndex as written: the entry found must agree with the token on
      the token's length only, so a token that is a proper prefix of an entry
      is accepted. */
  function GetKeyIndexAsWritten(vocab: seq<string>, token: string): Option<nat>
  {
    var i := LowerBound(vocab, token);
    if i == |vocab| || StrNCmp(vocab[i], token, |token|) != 0 then None else Some(i)
  }

  /** getKeyIndex as intended: the entry found must be the token itself. */
  function GetKeyIndex(vocab: seq<string>, token: string): Option<nat>
  {
    var i := LowerBound(vocab, token);
    if i < |vocab| && vocab[i] == token then Some(i) else None
  }

  /** In a strictly sorted NUL-free vocabulary, lower_bound stops exactly at
      a token that is present. */
  lemma LowerBoundAtToken(vocab: seq<string>, token: string, p: nat)
    requires StrictlySorted(vocab) && p < |vocab| && vocab[p] == token && NUL !in token
    ensures LowerBound(vocab, token) == p
  {
    forall j | 0 <= j < p
      ensures StrNCmp(vocab[j], token, |token|) < 0
    {
      StrLessNCmp(vocab[j], token);
    }
    StrNCmpSelf(token);
    LowerBoundFirst(vocab, token, p);
  }

  lemma {:induction false} LowerBoundFirst(vocab: seq<string>, token: string, p: nat)
    requires p < |vocab|
    requires forall j :: 0 <= j < p ==> StrNCmp(vocab[j], token, |token|) < 0
    requires StrNCmp(vocab[p], token, |token|) >= 0
    ensures LowerBound(vocab, token) == p
    decreases p
  {
    if p > 0 {
      assert StrNCmp(vocab[0], token, |token|) < 0;
      LowerBoundFirst(vocab[1..], token, p - 1);
    }
  }

  /** The corrected lookup finds exactly the tokens of the vocabulary, at
      their position, for a strictly sorted vocabulary and a NUL-free token. */
  lemma GetKeyIndexExact(vocab: seq<string>, token: string)
    requires StrictlySorted(vocab) && NUL !in token
    ensures GetKeyIndex(vocab, token).Some? <==> token in vocab
    ensures GetKeyIndex(vocab, token).Some? ==> vocab[GetKeyIndex(vocab, token).value] == token
    ensures GetKeyIndex(vocab, token).Some? ==> GetKeyIndex(vocab, token).value < |vocab|
  {
    if token in vocab {
      var p :| 0 <= p < |vocab| && vocab[p] == token;
      LowerBoundAtToken(vocab, token, p);
    }
  }

  /** Every NUL-free token of a strictly sorted vocabulary is found at its
      own position. */
  lemma FoundAtOwnPosition(vocab: seq<string>)
    requires StrictlySorted(vocab)
    ensures forall i :: 0 <= i < |vocab| && NUL !in vocab[i] ==> GetKeyIndex(vocab, vocab[i]) == Some(i)
  {
    forall i | 0 <= i < |vocab| && NUL !in vocab[i]
      ensures GetKeyIndex(vocab, vocab[i]) == Some(i)
    {
      GetKeyIndexAsWrittenOnPresent(vocab, vocab[i], i);
    }
  }

  /** On a token of the vocabulary both lookups agree. */
  lemma GetKeyIndexAsWrittenOnPresent(vocab: seq<string>, token: string, p: nat)
    requires StrictlySorted(vocab) && p < |vocab| && vocab[p] == token && NUL !in token
    ensures GetKeyIndexAsWritten(vocab, token) == Some(p) == GetKeyIndex(vocab, token)
  {
    LowerBoundAtToken(vocab, token, p);
    StrNCmpSelf(token);
  }

  /** The prefix match: with the vocabulary ["aaa"], the token "aa" is
      accepted as index 0, which the exact lookup refuses. */
  lemma GetKeyIndexPrefixMatch()
    ensures GetKeyIndexAsWritten(["aaa"], "aa") == Some(0)
    ensures GetKeyIndex(["aaa"], "aa") == None
  {
    assert StrNCmp("aaa", "aa", 2) == 0 by {
      assert Head("aaa") == 'a' && Tail("aaa") == "aa";
      assert Head("aa") == 'a' && Tail("aa") == "a";
      assert Head("aa") == 'a' && Tail("aa") == "a";
      assert Head("a") == 'a' && Tail("a") == "";
    }
  }

  // ---------------------------------------------------------------------
  // assembleKey

  /** assembleKey's loop: each token appended, preceded by the delimiter only
      when the key built so far is not empty. */
  function Assemble(ts: seq<string>, d: char): string
    decreases |ts|
  {
    if |ts| == 0 then []
    else
      var acc := Assemble(ts[..|ts| - 1], d);
      if acc != [] then acc + [d] + ts[|ts| - 1] else acc + ts[|ts| - 1]
  }

  /** When the first token is not empty, this is the plain join. */
  lemma {:induction false} AssembleIsJoin(ts: seq<string>, d: char)
    requires |ts| >= 1 && ts[0] != []
    ensures Assemble(ts, d) == Join(ts, d)
    ensures Assemble(ts, d) != []
    decreases |ts|
  {
    if |ts| == 1 {
      assert Assemble(ts[..0], d) == [];
    } else {
      AssembleIsJoin(ts[..|ts| - 1], d);
    }
  }

  /** The number of levels. */
  const Levels: nat := 4

  /** Vocabularies fit for round trips: strictly sorted, and no token empty or
      holding the delimiter or a NUL. */
  predicate CleanVocabulary(vocab: seq<string>, d: char)
  {
    && StrictlySorted(vocab)
    && forall i :: 0 <= i < |vocab| ==> vocab[i] != [] && d !in vocab[i] && NUL !in vocab[i]
  }

  /** The lookup parseKey uses, as written and as intended. */
  function StaticLookupAsWritten(meta: seq<seq<string>>): Lookup
  {
    (l: nat, t: string) => if l < |meta| then GetKeyIndexAsWritten(meta[l], t) else None
  }

  function StaticLookup(meta: seq<seq<string>>): Lookup
  {
    (l: nat, t: string) => if l < |meta| then GetKeyIndex(meta[l], t) else None
  }

  class StaticContBuilder {
    /** meta_: each level's vocabulary, sorted. */
    const meta: seq<seq<string>>
    /** delimeter_. */
    const delimiter: char

    /** The constructor: keeps the four vocabularies and sorts each. */
    constructor (lvl1: seq<string>, lvl2: seq<string>, lvl3: seq<string>, lvl4: seq<string>, d: char)
      ensures |meta| == Levels && delimiter == d
      ensures forall l :: 0 <= l < Levels ==> Sorted(meta[l])
      ensures multiset(meta[0]) == multiset(lvl1) && multiset(meta[1]) == multiset(lvl2)
      ensures multiset(meta[2]) == multiset(lvl3) && multiset(meta[3]) == multiset(lvl4)
    {
      var m0, m1, m2, m3 := SortTokens(lvl1), SortTokens(lvl2), SortTokens(lvl3), SortTokens(lvl4);
      SortTokensSorted(lvl1);
      SortTokensSorted(lvl2);
      SortTokensSorted(lvl3);
      SortTokensSorted(lvl4);
      meta := [m0, m1, m2, m3];
      delimiter := d;
      new;
      assert meta[0] == m0 && meta[1] == m1 && meta[2] == m2 && meta[3] == m3;
      forall l | 0 <= l < Levels
        ensures Sorted(meta[l])
      {
        if l == 0 {
        } else if l == 1 {
        } else if l == 2 {
        } else {
          assert l == 3;
        }
      }
    }

    /** suffixCount(level): the size of that level's vocabulary; over a
        strictly sorted vocabulary, every token below the count is found by
        the corrected lookup at its own position. */
    function SuffixCount(level: nat): (r: nat)
      requires level < |meta|
      ensures r == |meta[level]|
      ensures forall i :: 0 <= i < r && StrictlySorted(meta[level]) && NUL !in meta[level][i] ==>
        GetKeyIndex(meta[level], meta[level][i]) == Some(i)
    {
      if StrictlySorted(meta[level]) then
        FoundAtOwnPosition(meta[level]);
        |meta[level]|
      else
        |meta[level]|
    }

    /** getKeyIndex (corrected): on success the index is below
        suffixCount(level) and names the token; over a strictly sorted
        vocabulary it fails exactly for the tokens that are not there. */
    function KeyIndex(level: nat, token: string): (r: Option<nat>)
      requires level < |meta|
      ensures r.Some? ==> r.value < SuffixCount(level) && meta[level][r.value] == token
      ensures StrictlySorted(meta[level]) && NUL !in token ==> (r.None? <==> token !in meta[level])
    {
      if StrictlySorted(meta[level]) && NUL !in token then
        GetKeyIndexExact(meta[level], token);
        GetKeyIndex(meta[level], token)
      else
        GetKeyIndex(meta[level], token)
    }

    /** parseKey: the read-only character loop as written, with the prefix
        matching lookup and no arity check. */
    method ParseKey(key: string) returns (r: ScanOutcome)
      ensures r == ScanAsWritten(StaticLookupAsWritten(meta), |meta|, key, delimiter)
    {
      r := ScanKey(StaticLookupAsWritten(meta), |meta|, key, delimiter);
    }

    /** parseKey as intended: exactly one token per level, each matched
        exactly. */
    method ParseKeyExact(key: string) returns (r: Option<seq<nat>>)
      ensures r == Parse(StaticLookup(meta), |meta|, key, delimiter)
    {
      r := KeyScan.ParseKey(StaticLookup(meta), |meta|, key, delimiter);
    }

    /** assembleKey: the tokens the indices name, joined. The indices must be
        in range (the source indexes the vocabularies unchecked). When the
        tokens are non-empty and free of the delimiter, splitting the result
        gives back exactly the tokens the indices name. */
    function AssembleKey(key: seq<nat>): (r: string)
      requires |key| == |meta|
      requires forall l :: 0 <= l < |key| ==> key[l] < |meta[l]|
      ensures |key| > 0 && (forall l :: 0 <= l < |key| ==> meta[l][key[l]] != [] && delimiter !in meta[l][key[l]]) ==>
        |Split(r, delimiter)| == |key| &&
        forall l :: 0 <= l < |key| ==> Split(r, delimiter)[l] == meta[l][key[l]]
    {
      var ts := seq(|key|, l requires 0 <= l < |key| => meta[l][key[l]]);
      if |key| > 0 && (forall l :: 0 <= l < |key| ==> meta[l][key[l]] != [] && delimiter !in meta[l][key[l]]) then
        AssembleIsJoin(ts, delimiter);
        SplitJoin(ts, delimiter);
        Assemble(ts, delimiter)
      else
        Assemble(ts, delimiter)
    }
  }

  /** Round trip: over clean vocabularies, the assembled key parses back to
      the same indices, both with the exact lookup and with the parse as
      written. */
  lemma AssembleThenParse(b: StaticContBuilder, key: seq<nat>)
    requires |b.meta| == Levels && |key| == Levels
    requires forall l :: 0 <= l < Levels ==> CleanVocabulary(b.meta[l], b.delimiter) && key[l] < |b.meta[l]|
    ensures Parse(StaticLookup(b.meta), Levels, b.AssembleKey(key), b.delimiter) == Some(key)
    ensures ScanAsWritten(StaticLookupAsWritten(b.meta), Levels, b.AssembleKey(key), b.delimiter) == Scanned(key)
  {
    var d := b.delimiter;
    var ts := seq(|key|, l requires 0 <= l < |key| => b.meta[l][key[l]]);
    AssembleIsJoin(ts, d);
    var s := Join(ts, d);
    SplitJoin(ts, d);
    forall l | 0 <= l < Levels
      ensures StaticLookup(b.meta)(l, ts[l]) == Some(key[l])
      ensures StaticLookupAsWritten(b.meta)(l, ts[l]) == Some(key[l])
    {
      GetKeyIndexAsWrittenOnPresent(b.meta[l], ts[l], key[l]);
    }
    ParseComplete(StaticLookup(b.meta), Levels, s, d, key);
    ParseComplete(StaticLookupAsWritten(b.meta), Levels, s, d, key);
    ScanAgreesWithParse(StaticLookupAsWritten(b.meta), Levels, s, d);
  }
}
