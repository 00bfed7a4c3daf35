/** Tokenisation of compound keys ("aaa-bbb-ccc-ddd"), shared by the three
    codecs. The character loops of StaticContBuilder::parseKey,
    SuffixTreeTraits::parseKey and ContBuilder::parseKey are the same text;
    they are modelled once here, parameterised by the per-level lookup each
    codec supplies. */
module KeyScan {
  import opened Wrappers

  /** A per-level token lookup: level and token to the token's index. */
  type Lookup = (nat, string) -> Option<nat>

  // ---------------------------------------------------------------------
  // Splitting and joining

  /** Number of occurrences of d in s. */
  function Occurrences(s: string, d: char): nat
    decreases |s|
  {
    if |s| == 0 then 0
    else Occurrences(s[..|s| - 1], d) + (if s[|s| - 1] == d then 1 else 0)
  }

  /** The tokens of s between occurrences of d, left to right. Defined by
      reading s from its end so that it follows a left-to-right scan one
      character at a time. */
  function Split(s: string, d: char): (r: seq<string>)
    ensures |r| == Occurrences(s, d) + 1
    decreases |s|
  {
    if |s| == 0 then [""]
    else
      var p := Split(s[..|s| - 1], d);
      if s[|s| - 1] == d then p + [""]
      else p[..|p| - 1] + [p[|p| - 1] + [s[|s| - 1]]]
  }

  /** The tokens joined with the delimiter between them (no leading one). */
  function Join(ts: seq<string>, d: char): string
    requires |ts| >= 1
    decreases |ts|
  {
    if |ts| == 1 then ts[0]
    else Join(ts[..|ts| - 1], d) + [d] + ts[|ts| - 1]
  }

  /** The tokens a scan of s has finished (followed by a delimiter). */
  function Completed(s: string, d: char): seq<string>
  {
    var ts := Split(s, d);
    ts[..|ts| - 1]
  }

  /** The token a scan of s is still reading (after the last delimiter). */
  function Pending(s: string, d: char): string
  {
    var ts := Split(s, d);
    ts[|ts| - 1]
  }

  lemma SplitNoDelimiter(t: string, d: char)
    requires d !in t
    ensures Split(t, d) == [t]
    decreases |t|
  {
    if |t| > 0 {
      SplitNoDelimiter(t[..|t| - 1], d);
      assert t[..|t| - 1] + [t[|t| - 1]] == t;
    }
  }

  lemma {:induction false} SplitAppendToken(s: string, t: string, d: char)
    requires d !in t
    ensures Split(s + [d] + t, d) == Split(s, d) + [t]
    decreases |t|
  {
    var u := s + [d] + t;
    if |t| == 0 {
      assert u[..|u| - 1] == s;
      assert u == s + [d];
    } else {
      var t' := t[..|t| - 1];
      assert u[..|u| - 1] == s + [d] + t';
      SplitAppendToken(s, t', d);
      assert t' + [t[|t| - 1]] == t;
    }
  }

  /** Splitting undoes joining, for delimiter-free tokens. */
  lemma {:induction false} SplitJoin(ts: seq<string>, d: char)
    requires |ts| >= 1
    requires forall k :: 0 <= k < |ts| ==> d !in ts[k]
    ensures Split(Join(ts, d), d) == ts
    decreases |ts|
  {
    if |ts| == 1 {
      SplitNoDelimiter(ts[0], d);
    } else {
      var init, last := ts[..|ts| - 1], ts[|ts| - 1];
      assert init + [last] == ts;
      assert Join(ts, d) == Join(init, d) + [d] + last;
      SplitJoin(init, d);
      SplitAppendToken(Join(init, d), last, d);
    }
  }

  /** Extending the last token extends the joined string. */
  lemma {:induction false} JoinExtendLast(ts: seq<string>, c: char, d: char)
    requires |ts| >= 1
    ensures Join(ts[..|ts| - 1] + [ts[|ts| - 1] + [c]], d) == Join(ts, d) + [c]
  {
    var ts' := ts[..|ts| - 1] + [ts[|ts| - 1] + [c]];
    if |ts| > 1 {
      assert ts'[..|ts'| - 1] == ts[..|ts| - 1];
    }
  }

  /** Joining undoes splitting. */
  lemma {:induction false} JoinSplit(s: string, d: char)
    ensures Join(Split(s, d), d) == s
    decreases |s|
  {
    if |s| > 0 {
      var p := s[..|s| - 1];
      JoinSplit(p, d);
      assert s == p + [s[|s| - 1]];
      var ps := Split(p, d);
      if s[|s| - 1] == d {
        assert (ps + [""])[..|ps|] == ps;
      } else {
        JoinExtendLast(ps, s[|s| - 1], d);
      }
    }
  }

  /** Reading one more character either closes the pending token or extends it. */
  lemma ScanStep(s: string, c: char, d: char)
    ensures c == d ==> Completed(s + [c], d) == Completed(s, d) + [Pending(s, d)]
    ensures c == d ==> Pending(s + [c], d) == ""
    ensures c != d ==> Completed(s + [c], d) == Completed(s, d)
    ensures c != d ==> Pending(s + [c], d) == Pending(s, d) + [c]
  {
    assert (s + [c])[..|s|] == s;
  }

  /** The tokens finished after reading a prefix are a prefix of those finished
      after reading the whole string. */
  lemma {:induction false} CompletedPrefix(s: string, j: nat, d: char)
    requires j <= |s|
    ensures Completed(s[..j], d) <= Completed(s, d)
    decreases |s| - j
  {
    if j < |s| {
      CompletedPrefix(s, j + 1, d);
      assert s[..j + 1] == s[..j] + [s[j]];
      ScanStep(s[..j], s[j], d);
    } else {
      assert s[..j] == s;
    }
  }

  lemma SplitOfPrefix(s: string, j: nat, d: char)
    requires j <= |s|
    ensures |Split(s[..j], d)| <= |Split(s, d)|
  {
    CompletedPrefix(s, j, d);
  }

  // ---------------------------------------------------------------------
  // Looking tokens up level by level

  /** What the source's parse loop reports: the indices it wrote to res, the
      level whose token was not found, or that it ran past the last level
      (the source then indexes its per-level vector out of range). */
  datatype ScanOutcome = Scanned(indices: seq<nat>) | UnknownToken(level: nat) | BeyondLevels

  /** Looks up ts[k] at level from + k, left to right, stopping at the first failure. */
  function LookupFrom(lookup: Lookup, levels: nat, ts: seq<string>, from: nat): ScanOutcome
    decreases |ts|
  {
    if |ts| == 0 then Scanned([])
    else if from >= levels then BeyondLevels
    else match lookup(from, ts[0])
      case None => UnknownToken(from)
      case Some(i) =>
        match LookupFrom(lookup, levels, ts[1..], from + 1)
        case Scanned(rest) => Scanned([i] + rest)
        case other => other
  }

  /** Continues an outcome with the outcome of the tokens after it. */
  function Then(first: ScanOutcome, second: ScanOutcome): ScanOutcome
  {
    match first
    case Scanned(r) => (match second case Scanned(r') => Scanned(r + r') case other => other)
    case other => other
  }

  lemma {:induction false} LookupAppend(lookup: Lookup, levels: nat, a: seq<string>, b: seq<string>, from: nat)
    ensures LookupFrom(lookup, levels, a + b, from)
         == Then(LookupFrom(lookup, levels, a, from), LookupFrom(lookup, levels, b, from + |a|))
    decreases |a|
  {
    if |a| == 0 {
      assert a + b == b;
    } else if from < levels && lookup(from, a[0]).Some? {
      assert (a + b)[1..] == a[1..] + b;
      assert (a + b)[0] == a[0];
      LookupAppend(lookup, levels, a[1..], b, from + 1);
      var i := lookup(from, a[0]).value;
      var x := LookupFrom(lookup, levels, a[1..], from + 1);
      var y := LookupFrom(lookup, levels, b, from + |a|);
      if x.Scanned? && y.Scanned? {
        assert [i] + (x.indices + y.indices) == ([i] + x.indices) + y.indices;
      }
    } else {
      assert (a + b)[0] == a[0];
    }
  }

  /** Looking up one more token after a fully resolved prefix. */
  lemma LookupOneMore(lookup: Lookup, levels: nat, done: seq<string>, t: string, res: seq<nat>)
    requires LookupFrom(lookup, levels, done, 0) == Scanned(res)
    ensures LookupFrom(lookup, levels, done + [t], 0)
         == if |done| >= levels then BeyondLevels
            else match lookup(|done|, t)
              case None => UnknownToken(|done|)
              case Some(i) => Scanned(res + [i])
  {
    LookupAppend(lookup, levels, done, [t], 0);
  }

  /** A lookup that fails on a prefix fails the same way on the whole. */
  lemma LookupFailsOnPrefix(lookup: Lookup, levels: nat, a: seq<string>, b: seq<string>)
    requires a <= b
    requires !LookupFrom(lookup, levels, a, 0).Scanned?
    ensures LookupFrom(lookup, levels, b, 0) == LookupFrom(lookup, levels, a, 0)
  {
    LookupAppend(lookup, levels, a, b[|a|..], 0);
    assert a + b[|a|..] == b;
  }

  lemma LookupScannedLength(lookup: Lookup, levels: nat, ts: seq<string>, from: nat)
    ensures LookupFrom(lookup, levels, ts, from).Scanned? ==> |LookupFrom(lookup, levels, ts, from).indices| == |ts|
    ensures LookupFrom(lookup, levels, ts, from).Scanned? && |ts| > 0 ==> from + |ts| <= levels
    decreases |ts|
  {
    if |ts| > 0 {
      LookupScannedLength(lookup, levels, ts[1..], from + 1);
    }
  }

  /** A successful lookup yields, per level, the lookup's own answer. */
  lemma {:induction false} LookupScannedAt(lookup: Lookup, levels: nat, ts: seq<string>, from: nat, k: nat)
    requires LookupFrom(lookup, levels, ts, from).Scanned?
    requires k < |ts|
    ensures |LookupFrom(lookup, levels, ts, from).indices| == |ts|
    ensures lookup(from + k, ts[k]) == Some(LookupFrom(lookup, levels, ts, from).indices[k])
    decreases |ts|
  {
    LookupScannedLength(lookup, levels, ts, from);
    if k > 0 {
      LookupScannedAt(lookup, levels, ts[1..], from + 1, k - 1);
    }
  }

  // ---------------------------------------------------------------------
  // The parse as the source writes it

  /** The tokens the source's loop looks up: every token followed by a
      delimiter, and the trailing one only when it is not empty. The count is
      never compared with the number of levels. */
  function ScannedTokens(s: string, d: char): seq<string>
  {
    if Pending(s, d) == "" then Completed(s, d) else Completed(s, d) + [Pending(s, d)]
  }

  /** parseKey as written: looks up the scanned tokens level by level. */
  function ScanAsWritten(lookup: Lookup, levels: nat, s: string, d: char): ScanOutcome
  {
    LookupFrom(lookup, levels, ScannedTokens(s, d), 0)
  }

  /** Once the tokens finished by position j fail to resolve, the whole scan
      reports that failure. */
  lemma ScanFailsEarly(lookup: Lookup, levels: nat, key: string, d: char, j: nat)
    requires j <= |key|
    requires !LookupFrom(lookup, levels, Completed(key[..j], d), 0).Scanned?
    ensures ScanAsWritten(lookup, levels, key, d) == LookupFrom(lookup, levels, Completed(key[..j], d), 0)
  {
    CompletedPrefix(key, j, d);
    LookupFailsOnPrefix(lookup, levels, Completed(key[..j], d), ScannedTokens(key, d));
  }

  /** The character loop of parseKey as written. Its result is the indices
      written to res, in level order. */
  method ScanKey(lookup: Lookup, levels: nat, key: string, d: char) returns (r: ScanOutcome)
    ensures r == ScanAsWritten(lookup, levels, key, d)
  {
    var currLevel: nat := 0;
    var startIdx: nat := 0;
    var res: seq<nat> := [];
    var i: nat := 0;
    while i < |key|
      invariant Scanning(lookup, levels, key, d, i, startIdx, currLevel, res)
    {
      var out: Option<ScanOutcome>;
      out, startIdx, currLevel, res := ScanChar(lookup, levels, key, d, i, startIdx, currLevel, res);
      if out.Some? {
        return out.value;
      }
      i := i + 1;
    }
    assert key[..i] == key;
    r := FinishScan(lookup, levels, key, d, startIdx, res);
  }

  /** One pass of the loop as written, on key[i]: a delimiter closes the
      pending token and looks it up at the current level; out is the
      outcome when the lookup fails. */
  method ScanChar(lookup: Lookup, levels: nat, key: string, d: char, i: nat, startIdx: nat, currLevel: nat, res: seq<nat>)
    returns (out: Option<ScanOutcome>, startIdx': nat, currLevel': nat, res': seq<nat>)
    requires i < |key| && Scanning(lookup, levels, key, d, i, startIdx, currLevel, res)
    ensures out.Some? ==> out.value == ScanAsWritten(lookup, levels, key, d)
    ensures out.None? ==> Scanning(lookup, levels, key, d, i + 1, startIdx', currLevel', res')
  {
    out, startIdx', currLevel', res' := None, startIdx, currLevel, res;
    ScanPrefixStep(key, i, startIdx, d);
    if key[i] == d {
      var token := key[startIdx..i];
      LookupOneMore(lookup, levels, Completed(key[..i], d), token, res);
      if currLevel >= levels {
        ScanFailsEarly(lookup, levels, key, d, i + 1);
        return Some(BeyondLevels), startIdx', currLevel', res';
      }
      var index := lookup(currLevel, token);
      if index.None? {
        ScanFailsEarly(lookup, levels, key, d, i + 1);
        return Some(UnknownToken(currLevel)), startIdx', currLevel', res';
      }
      res' := res + [index.value];
      currLevel' := currLevel + 1;
      startIdx' := i + 1;
    }
  }

  /** The end of the loop as written: a non-empty last token is looked up
      too; an empty one is skipped. */
  method FinishScan(lookup: Lookup, levels: nat, key: string, d: char, startIdx: nat, res: seq<nat>)
    returns (r: ScanOutcome)
    requires startIdx <= |key| && Pending(key, d) == key[startIdx..]
    requires LookupFrom(lookup, levels, Completed(key, d), 0) == Scanned(res)
    ensures r == ScanAsWritten(lookup, levels, key, d)
  {
    var currLevel := |Completed(key, d)|;
    if startIdx < |key| {
      var token := key[startIdx..];
      LookupOneMore(lookup, levels, Completed(key, d), token, res);
      if currLevel >= levels {
        return BeyondLevels;
      }
      var index := lookup(currLevel, token);
      if index.None? {
        return UnknownToken(currLevel);
      }
      return Scanned(res + [index.value]);
    }
    r := Scanned(res);
  }

  // ---------------------------------------------------------------------
  // The parse as intended: exactly one token per level

  /** The key split on the delimiter must give exactly one token per level,
      and every token must be known at its level. */
  function Parse(lookup: Lookup, levels: nat, s: string, d: char): Option<seq<nat>>
  {
    var ts := Split(s, d);
    if |ts| != levels then None
    else match LookupFrom(lookup, levels, ts, 0)
      case Scanned(r) => Some(r)
      case _ => None
  }

  /** A successful parse has one index per level, each the lookup of its token. */
  lemma ParseSound(lookup: Lookup, levels: nat, s: string, d: char)
    requires Parse(lookup, levels, s, d).Some?
    ensures |Split(s, d)| == levels
    ensures |Parse(lookup, levels, s, d).value| == levels
    ensures forall k :: 0 <= k < levels ==>
      lookup(k, Split(s, d)[k]) == Some(Parse(lookup, levels, s, d).value[k])
  {
    var ts := Split(s, d);
    LookupScannedLength(lookup, levels, ts, 0);
    forall k | 0 <= k < levels
      ensures lookup(k, ts[k]) == Some(Parse(lookup, levels, s, d).value[k])
    {
      LookupScannedAt(lookup, levels, ts, 0, k);
    }
    LookupScannedLength(lookup, levels, ts, 0);
  }

  /** When every token of a key with one token per level is known, the parse
      gives exactly the looked-up indices. */
  lemma {:induction false} ParseComplete(lookup: Lookup, levels: nat, s: string, d: char, indices: seq<nat>)
    requires |Split(s, d)| == levels == |indices|
    requires forall k :: 0 <= k < levels ==> lookup(k, Split(s, d)[k]) == Some(indices[k])
    ensures Parse(lookup, levels, s, d) == Some(indices)
  {
    LookupAllKnown(lookup, levels, Split(s, d), 0, indices);
  }

  lemma {:induction false} LookupAllKnown(lookup: Lookup, levels: nat, ts: seq<string>, from: nat, indices: seq<nat>)
    requires from + |ts| <= levels && |ts| == |indices|
    requires forall k :: 0 <= k < |ts| ==> lookup(from + k, ts[k]) == Some(indices[k])
    ensures LookupFrom(lookup, levels, ts, from) == Scanned(indices)
    decreases |ts|
  {
    if |ts| > 0 {
      assert lookup(from + 0, ts[0]) == Some(indices[0]);
      forall k | 0 <= k < |ts[1..]|
        ensures lookup(from + 1 + k, ts[1..][k]) == Some(indices[1..][k])
      {
        assert lookup(from + (k + 1), ts[k + 1]) == Some(indices[k + 1]);
      }
      LookupAllKnown(lookup, levels, ts[1..], from + 1, indices[1..]);
      assert [indices[0]] + indices[1..] == indices;
    }
  }

  /** Once the tokens finished by position j fail to resolve, the parse fails. */
  lemma ParseFailsEarly(lookup: Lookup, levels: nat, key: string, d: char, j: nat)
    requires j <= |key|
    requires !LookupFrom(lookup, levels, Completed(key[..j], d), 0).Scanned?
    ensures Parse(lookup, levels, key, d) == None
  {
    CompletedPrefix(key, j, d);
    var ts := Split(key, d);
    assert Completed(key, d) <= ts;
    LookupFailsOnPrefix(lookup, levels, Completed(key[..j], d), ts);
  }

  /** One character more of key read by the parse loop, with the pending
      token starting at startIdx. */
  lemma ScanPrefixStep(key: string, i: nat, startIdx: nat, d: char)
    requires startIdx <= i < |key| && Pending(key[..i], d) == key[startIdx..i]
    ensures key[i] == d ==> Completed(key[..i + 1], d) == Completed(key[..i], d) + [key[startIdx..i]]
    ensures key[i] == d ==> Pending(key[..i + 1], d) == key[i + 1..i + 1]
    ensures key[i] != d ==> Completed(key[..i + 1], d) == Completed(key[..i], d)
    ensures key[i] != d ==> Pending(key[..i + 1], d) == key[startIdx..i + 1]
  {
    ScanStep(key[..i], key[i], d);
    assert key[..i + 1] == key[..i] + [key[i]];
    assert key[startIdx..i + 1] == key[startIdx..i] + [key[i]];
  }

  /** A prefix that already finished as many tokens as there are levels
      leaves the whole key with too many. */
  lemma TooManyTokens(lookup: Lookup, levels: nat, key: string, d: char, j: nat)
    requires j <= |key| && |Completed(key[..j], d)| >= levels
    ensures Parse(lookup, levels, key, d) == None
  {
    SplitOfPrefix(key, j, d);
  }

  /** The prefix key[..j] ends with a delimiter closing token t: its lookup
      either fails the whole parse or extends the indices found so far. */
  lemma TokenLookedUp(lookup: Lookup, levels: nat, key: string, d: char, j: nat, t: string, res: seq<nat>)
    requires 0 < j <= |key|
    requires LookupFrom(lookup, levels, Completed(key[..j - 1], d), 0) == Scanned(res)
    requires Completed(key[..j], d) == Completed(key[..j - 1], d) + [t]
    requires |Completed(key[..j - 1], d)| < levels
    ensures lookup(|Completed(key[..j - 1], d)|, t).None? ==> Parse(lookup, levels, key, d) == None
    ensures lookup(|Completed(key[..j - 1], d)|, t).Some? ==>
      LookupFrom(lookup, levels, Completed(key[..j], d), 0) == Scanned(res + [lookup(|Completed(key[..j - 1], d)|, t).value])
  {
    LookupOneMore(lookup, levels, Completed(key[..j - 1], d), t, res);
    if lookup(|Completed(key[..j - 1], d)|, t).None? {
      ParseFailsEarly(lookup, levels, key, d, j);
    }
  }

  /** The parse loop with the arity check the source omits: it stops on a
      delimiter that would open a token past the last level, and after the
      loop requires exactly one token per level, looking the last one up
      even when it is empty. */
  method ParseKey(lookup: Lookup, levels: nat, key: string, d: char) returns (r: Option<seq<nat>>)
    ensures r == Parse(lookup, levels, key, d)
  {
    var currLevel: nat := 0;
    var startIdx: nat := 0;
    var res: seq<nat> := [];
    var i: nat := 0;
    while i < |key|
      invariant Scanning(lookup, levels, key, d, i, startIdx, currLevel, res)
    {
      var stop: bool;
      stop, startIdx, currLevel, res := ParseChar(lookup, levels, key, d, i, startIdx, currLevel, res);
      if stop {
        return None;
      }
      i := i + 1;
    }
    assert key[..i] == key;
    r := FinishParse(lookup, levels, key, d, startIdx, res);
  }

  /** The state of the parse loop after reading key[..i]: the finished
      tokens were all found, currLevel of them, and the pending token starts
      at startIdx. */
  ghost predicate Scanning(lookup: Lookup, levels: nat, key: string, d: char, i: nat, startIdx: nat, currLevel: nat, res: seq<nat>)
  {
    && startIdx <= i <= |key|
    && LookupFrom(lookup, levels, Completed(key[..i], d), 0) == Scanned(res)
    && |Completed(key[..i], d)| == currLevel
    && Pending(key[..i], d) == key[startIdx..i]
  }

  /** One pass of the parse loop, on key[i]: a delimiter closes the pending
      token and looks it up at the current level; stop says the parse has
      failed, for too many tokens or an unknown one. */
  method ParseChar(lookup: Lookup, levels: nat, key: string, d: char, i: nat, startIdx: nat, currLevel: nat, res: seq<nat>)
    returns (stop: bool, startIdx': nat, currLevel': nat, res': seq<nat>)
    requires i < |key| && Scanning(lookup, levels, key, d, i, startIdx, currLevel, res)
    ensures stop ==> Parse(lookup, levels, key, d) == None
    ensures !stop ==> Scanning(lookup, levels, key, d, i + 1, startIdx', currLevel', res')
  {
    startIdx', currLevel', res' := startIdx, currLevel, res;
    ScanPrefixStep(key, i, startIdx, d);
    if key[i] == d {
      if currLevel + 1 >= levels {
        // this delimiter opens one token more than there are levels
        TooManyTokens(lookup, levels, key, d, i + 1);
        return true, startIdx', currLevel', res';
      }
      var token := key[startIdx..i];
      TokenLookedUp(lookup, levels, key, d, i + 1, token, res);
      var index := lookup(currLevel, token);
      if index.None? {
        return true, startIdx', currLevel', res';
      }
      res' := res + [index.value];
      currLevel' := currLevel + 1;
      startIdx' := i + 1;
    }
    stop := false;
  }

  /** The end of the parse loop: the last token, after the last delimiter,
      completes the key when the arity is right and it is known. */
  method FinishParse(lookup: Lookup, levels: nat, key: string, d: char, startIdx: nat, res: seq<nat>)
    returns (r: Option<seq<nat>>)
    requires startIdx <= |key| && Pending(key, d) == key[startIdx..]
    requires LookupFrom(lookup, levels, Completed(key, d), 0) == Scanned(res)
    ensures r == Parse(lookup, levels, key, d)
  {
    var currLevel := |Completed(key, d)|;
    if currLevel + 1 != levels {
      return None;
    }
    var token := key[startIdx..];
    LookupOneMore(lookup, levels, Completed(key, d), token, res);
    assert Completed(key, d) + [token] == Split(key, d);
    var index := lookup(currLevel, token);
    if index.None? {
      return None;
    }
    r := Some(res + [index.value]);
  }

  /** The two parses agree whenever the key has one non-empty trailing token
      and exactly one token per level; they differ only on the arity. */
  lemma {:induction false} ScanAgreesWithParse(lookup: Lookup, levels: nat, s: string, d: char)
    requires |Split(s, d)| == levels
    requires Pending(s, d) != ""
    ensures ScannedTokens(s, d) == Split(s, d)
    ensures Parse(lookup, levels, s, d).Some? <==> ScanAsWritten(lookup, levels, s, d).Scanned?
    ensures Parse(lookup, levels, s, d).Some? ==> Parse(lookup, levels, s, d).value == ScanAsWritten(lookup, levels, s, d).indices
  {
    var ts := Split(s, d);
    assert ts[..|ts| - 1] + [ts[|ts| - 1]] == ts;
  }

  /** A lookup that knows every token, at every level. */
  function KnowsAll(level: nat, t: string): Option<nat>
  {
    Some(|t|)
  }

  /** A key with three tokens for four levels: the loop as written reports
      success with three indices, leaving the fourth level unwritten, while
      the parse with the arity check rejects it. */
  lemma ShortKeyScanned()
    ensures ScanAsWritten(KnowsAll, 4, "a-b-c", '-') == Scanned([1, 1, 1])
    ensures Parse(KnowsAll, 4, "a-b-c", '-') == None
  {
    var ts := ShortKeyTokens();
    var ts' := Split("a-b-c", '-');
    assert ts'[..|ts'| - 1] + [ts'[|ts'| - 1]] == ts;
    assert ScannedTokens("a-b-c", '-') == ts;
    LookupAllKnown(KnowsAll, 4, ts, 0, [1, 1, 1]);
  }

  /** The three tokens of "a-b-c". */
  lemma ShortKeyTokens() returns (ts: seq<string>)
    ensures ts == ["a", "b", "c"] && Split("a-b-c", '-') == ts
  {
    ts := ["a", "b", "c"];
    assert Join(ts, '-') == "a-b-c" by {
      assert ts[..2] == ["a", "b"] && ["a", "b"][..1] == ["a"];
    }
    SplitJoin(ts, '-');
  }

  // ---------------------------------------------------------------------
  // Delimiter positions, as parseNewKey finds them

  /** Where token k starts, given the positions of the delimiters ending the
      tokens before it. */
  function TokenStart(ends: seq<nat>, k: nat): nat
    requires k <= |ends|
  {
    if k == 0 then 0 else ends[k - 1] + 1
  }

  /** Each recorded end lies at or after the start of its token and within n. */
  predicate EndsWithin(ends: seq<nat>, n: nat)
  {
    forall k {:trigger TokenStart(ends, k)} :: 0 <= k < |ends| ==> TokenStart(ends, k) <= ends[k] <= n
  }

  /** The tokens that the recorded positions cut out of key. */
  function Slices(key: string, ends: seq<nat>): seq<string>
    requires EndsWithin(ends, |key|)
  {
    if |ends| == 0 then []
    else
      var init := ends[..|ends| - 1];
      assert forall k :: 0 <= k < |init| ==> TokenStart(init, k) == TokenStart(ends, k);
      Slices(key, init) + [key[TokenStart(ends, |ends| - 1)..ends[|ends| - 1]]]
  }

  lemma {:induction false} SlicesAt(key: string, ends: seq<nat>, k: nat)
    requires EndsWithin(ends, |key|)
    requires k < |ends|
    ensures |Slices(key, ends)| == |ends|
    ensures Slices(key, ends)[k] == key[TokenStart(ends, k)..ends[k]]
  {
    var init := ends[..|ends| - 1];
    EndsWithinInit(ends, |key|);
    if k < |init| {
      SlicesAt(key, init, k);
    } else if |init| > 0 {
      SlicesAt(key, init, 0);
    }
  }

  /** Dropping the last recorded end keeps the others and their starts. */
  lemma EndsWithinInit(ends: seq<nat>, n: nat)
    requires EndsWithin(ends, n) && |ends| > 0
    ensures EndsWithin(ends[..|ends| - 1], n)
    ensures forall j :: 0 <= j < |ends| - 1 ==> TokenStart(ends[..|ends| - 1], j) == TokenStart(ends, j)
  {
    var init := ends[..|ends| - 1];
    forall j | 0 <= j < |init|
      ensures TokenStart(init, j) == TokenStart(ends, j) <= init[j] <= n
    {
      assert TokenStart(ends, j) <= ends[j] <= n;
    }
  }

  lemma SlicesAppend(key: string, ends: seq<nat>, i: nat)
    requires EndsWithin(ends, |key|)
    requires TokenStart(ends, |ends|) <= i <= |key|
    ensures EndsWithin(ends + [i], |key|)
    ensures Slices(key, ends + [i]) == Slices(key, ends) + [key[TokenStart(ends, |ends|)..i]]
  {
    var all := ends + [i];
    assert all[..|ends|] == ends;
    StartsAppend(ends, i);
  }

  /** Appending an end keeps the starts of the earlier tokens. */
  lemma StartsAppend(ends: seq<nat>, i: nat)
    ensures forall k :: 0 <= k <= |ends| ==> TokenStart(ends + [i], k) == TokenStart(ends, k)
  {
  }

  /** The positions recorded after reading key[..i] cut out exactly the
      tokens finished so far, and the pending token runs from the last cut. */
  ghost predicate Tracks(key: string, d: char, i: nat, ends: seq<nat>)
    requires i <= |key|
  {
    && EndsWithin(ends, |key|)
    && TokenStart(ends, |ends|) <= i
    && Slices(key, ends) == Completed(key[..i], d)
    && Pending(key[..i], d) == key[TokenStart(ends, |ends|)..i]
  }

  lemma TracksStep(key: string, d: char, i: nat, ends: seq<nat>)
    requires i < |key|
    requires Tracks(key, d, i, ends)
    ensures key[i] == d ==> Tracks(key, d, i + 1, ends + [i])
    ensures key[i] != d ==> Tracks(key, d, i + 1, ends)
  {
    ScanStep(key[..i], key[i], d);
    assert key[..i + 1] == key[..i] + [key[i]];
    if key[i] == d {
      SlicesAppend(key, ends, i);
    }
  }

  lemma TracksCount(key: string, d: char, i: nat, ends: seq<nat>)
    requires i <= |key|
    requires Tracks(key, d, i, ends)
    ensures |ends| == |Completed(key[..i], d)| <= |Completed(key, d)|
  {
    if |ends| > 0 {
      SlicesAt(key, ends, 0);
    }
    CompletedPrefix(key, i, d);
  }

  /** Once as many tokens as there are levels are finished, the key has
      too many. */
  lemma TooManyEnds(key: string, d: char, i: nat, ends: seq<nat>, levels: nat)
    requires i <= |key| && Tracks(key, d, i, ends) && |ends| >= levels
    ensures |Split(key, d)| != levels
  {
    TracksCount(key, d, i, ends);
  }

  lemma TracksDone(key: string, d: char, ends: seq<nat>)
    requires Tracks(key, d, |key|, ends)
    ensures EndsWithin(ends + [|key|], |key|)
    ensures Slices(key, ends + [|key|]) == Split(key, d)
  {
    assert key[..|key|] == key;
    SlicesAppend(key, ends, |key|);
  }

  /** The first loop of parseNewKey: records where each token ends, fails
      when a delimiter opens a token past the last level or when the key has
      fewer tokens than levels. */
  method TokenEnds(key: string, d: char, levels: nat) returns (r: Option<seq<nat>>)
    ensures r.None? <==> |Split(key, d)| != levels
    ensures r.Some? ==> |r.value| == levels && EndsWithin(r.value, |key|)
    ensures r.Some? ==> Slices(key, r.value) == Split(key, d)
  {
    var ends: seq<nat> := [];
    var i: nat := 0;
    while i < |key|
      invariant i <= |key|
      invariant Tracks(key, d, i, ends)
      invariant |ends| < levels || levels == 0
    {
      TracksStep(key, d, i, ends);
      if key[i] == d {
        ends := ends + [i];
        if |ends| >= levels {
          // too many tokens in key
          TooManyEnds(key, d, i + 1, ends, levels);
          return None;
        }
      }
      i := i + 1;
    }
    r := FinishEnds(key, d, levels, ends);
  }

  /** The end of that loop: the last token runs to the end of the key, and
      the key must have exactly one token per level. */
  method FinishEnds(key: string, d: char, levels: nat, ends: seq<nat>) returns (r: Option<seq<nat>>)
    requires Tracks(key, d, |key|, ends)
    ensures r.None? <==> |Split(key, d)| != levels
    ensures r.Some? ==> |r.value| == levels && EndsWithin(r.value, |key|)
    ensures r.Some? ==> Slices(key, r.value) == Split(key, d)
  {
    TracksCount(key, d, |key|, ends);
    assert key[..|key|] == key;
    if |ends| + 1 != levels {
      return None;
    }
    TracksDone(key, d, ends);
    SlicesAt(key, ends + [|key|], 0);
    r := Some(ends + [|key|]);
  }
}
