/** URL matchers: host equality, per-segment rules addressed by possibly
    negative indices, and conjunction, together with their builders. */
module Matchers {
  import opened Outcomes
  import opened Builtins
  import opened UrlUtils
  import PyDict

  /** The closed set of matcher kinds. `valuesByIndex` is a Python dict from
      segment index to the segment value expected there, in insertion order. */
  datatype Matcher =
    | CompoundMatcher(matchers: seq<Matcher>)
    | HostMatcher(host: string)
    | PathPartsMatcher(valuesByIndex: PyDict.Dict<int, string>)

  /** A negative index counts back from the segment count, once: `-k`
      becomes `count - k`. An index in `[-count, count)` lands inside the
      segments; any other index lands outside them, a too-negative one still
      below zero. */
  function Resolve(index: int, count: nat): (resolved: int)
    ensures 0 <= resolved < count <==> -(count as int) <= index < count
    ensures index >= 0 ==> resolved == index
    ensures index < 0 ==> resolved == count + index
    ensures index < -(count as int) ==> resolved < 0
  {
    if index < 0 then count + index else index
  }

  /** The rules with every index resolved, in the dict's order. */
  function ResolvedPairs(rules: PyDict.Dict<int, string>, count: nat): seq<(int, string)> {
    seq(|rules|, j requires 0 <= j < |rules| => (Resolve(rules[j].0, count), rules[j].1))
  }

  /** No two rules resolve to the same position. */
  predicate NoCollision(rules: PyDict.Dict<int, string>, count: nat) {
    forall i, j :: 0 <= i < j < |rules| ==> Resolve(rules[i].0, count) != Resolve(rules[j].0, count)
  }

  /** Rule `j` is the last rule resolving to its position, so its value is
      the one that survives resolution. */
  predicate Effective(rules: PyDict.Dict<int, string>, count: nat, j: int)
    requires 0 <= j < |rules|
  {
    PyDict.LastFor(ResolvedPairs(rules, count), j)
  }

  /** `get_values_to_match_dict`: the rules re-keyed by resolved index, each
      resolved position once. */
  function ValuesToMatch(rules: PyDict.Dict<int, string>, count: nat): (resolved: PyDict.Dict<int, string>)
    ensures PyDict.DistinctKeys(resolved)
    ensures PyDict.KeySet(resolved) == set j | 0 <= j < |rules| :: Resolve(rules[j].0, count)
  {
    var pairs := ResolvedPairs(rules, count);
    PyDict.UpdateAllSpec([], pairs);
    forall x | x in set j | 0 <= j < |rules| :: Resolve(rules[j].0, count)
      ensures x in PyDict.KeySet(pairs)
    {
      var j :| 0 <= j < |rules| && x == Resolve(rules[j].0, count);
      assert pairs[j].0 == x;
    }
    PyDict.UpdateAll([], pairs)
  }

  /** When two rules resolve to the same position, the later one's value is
      the one the resolved dict holds there. */
  lemma LaterRuleWins(rules: PyDict.Dict<int, string>, count: nat)
    ensures forall j :: 0 <= j < |rules| && Effective(rules, count, j)
              ==> PyDict.Get(ValuesToMatch(rules, count), Resolve(rules[j].0, count)) == Some(rules[j].1)
  {
    var pairs := ResolvedPairs(rules, count);
    PyDict.UpdateAllSpec([], pairs);
  }

  /** Without collisions, resolution keeps every rule in its place. */
  lemma ValuesToMatchWithoutCollision(rules: PyDict.Dict<int, string>, count: nat)
    requires NoCollision(rules, count)
    ensures ValuesToMatch(rules, count) == ResolvedPairs(rules, count)
  {
    var pairs := ResolvedPairs(rules, count);
    assert [] + pairs == pairs;
    PyDict.UpdateAllAppends([], pairs);
  }

  /** A resolved rule holds: its position is below the segment count and the
      segment read there by Python indexing is the expected value. */
  predicate RuleHolds(parts: seq<string>, rule: (int, string)) {
    rule.0 < |parts| && PyIndex(parts, rule.0) == Ok(rule.1)
  }

  /** The loop of `PathPartsMatcher.match_url` over the resolved rules, in
      order: a position at or past the count rejects, a still-negative
      position wraps once more or raises IndexError, a differing segment
      rejects. */
  function CheckRules(parts: seq<string>, rules: PyDict.Dict<int, string>): (r: Result<bool>)
    ensures r == Ok(true) <==> forall k :: 0 <= k < |rules| ==> RuleHolds(parts, rules[k])
    ensures r.Err? <==> exists k :: 0 <= k < |rules| && rules[k].0 < -|parts|
                                    && forall j :: 0 <= j < k ==> RuleHolds(parts, rules[j])
    ensures r.Err? ==> r.error == IndexError
  {
    if |rules| == 0 then Ok(true)
    else
      var (index, value) := rules[0];
      var rest := CheckRules(parts, rules[1..]);
      assert forall k :: 0 < k < |rules| ==> rules[k] == rules[1..][k - 1];
      if index >= |parts| then Ok(false)
      else match PyIndex(parts, index)
        case Err(e) => Err(e)
        case Ok(part) => if part != value then Ok(false) else rest
  }

  /** `match_url`, for each matcher kind. A compound matcher evaluates every
      sub-matcher before combining the answers, so an IndexError raised by any
      of them propagates even when an earlier one said no. */
  function Match(m: Matcher, url: Url): (r: Result<bool>)
    ensures r.Err? ==> r.error == IndexError
    ensures m.CompoundMatcher? && |m.matchers| == 0 ==> r == Ok(false)
    ensures m.HostMatcher? ==> r.Ok? && (r.value <==> url.hostname.Some? && url.hostname.value == m.host)
    ensures m.PathPartsMatcher? && |UrlPathParts(url)| == 0 ==> r == Ok(false)
    decreases m, 1
  {
    match m
    case CompoundMatcher(matchers) =>
      if |matchers| == 0 then Ok(false) else MatchAll(matchers, url)
    case HostMatcher(host) =>
      Ok(url.hostname == Some(host))
    case PathPartsMatcher(rules) =>
      var parts := UrlPathParts(url);
      if |parts| == 0 then Ok(false)
      else CheckRules(parts, ValuesToMatch(rules, |parts|))
  }

  /** `all([m.match_url(url) for m in matchers])`. */
  function MatchAll(matchers: seq<Matcher>, url: Url): (r: Result<bool>)
    ensures r.Err? ==> r.error == IndexError
    ensures r == Ok(true) <==> forall m :: m in matchers ==> Match(m, url) == Ok(true)
    ensures r.Err? <==> exists m :: m in matchers && Match(m, url).Err?
    decreases matchers, 0
  {
    if |matchers| == 0 then Ok(true)
    else
      var first := Match(matchers[0], url);
      var rest := MatchAll(matchers[1..], url);
      assert forall m :: m in matchers <==> m == matchers[0] || m in matchers[1..];
      match first
      case Err(e) => Err(e)
      case Ok(b) =>
        match rest
        case Err(e) => Err(e)
        case Ok(c) => Ok(b && c)
  }

  /** The compound matcher is the conjunction of its sub-matchers, false when
      it has none, and raises when any sub-matcher raises. */
  lemma CompoundIsConjunction(matchers: seq<Matcher>, url: Url)
    ensures (Match(CompoundMatcher(matchers), url) == Ok(true))
              <==> (|matchers| > 0 && forall m :: m in matchers ==> Match(m, url) == Ok(true))
    ensures (Match(CompoundMatcher(matchers), url).Err?)
              <==> (exists m :: m in matchers && Match(m, url).Err?)
  {
  }

  /** A compound of two matchers that both answer is their conjunction. */
  lemma CompoundOfTwo(a: Matcher, b: Matcher, url: Url, x: bool, y: bool)
    requires Match(a, url) == Ok(x) && Match(b, url) == Ok(y)
    ensures Match(CompoundMatcher([a, b]), url) == Ok(x && y)
  {
    assert [a, b][1..] == [b];
  }

  /** Some rule is the last one resolving to the same position as rule `j`. */
  lemma {:induction false} LastRuleAt(rules: PyDict.Dict<int, string>, count: nat, j: int) returns (last: int)
    requires 0 <= j < |rules|
    ensures j <= last < |rules| && Effective(rules, count, last)
    ensures Resolve(rules[last].0, count) == Resolve(rules[j].0, count)
    decreases |rules| - j
  {
    if Effective(rules, count, j) {
      last := j;
    } else {
      var j' :| j < j' < |rules| && Resolve(rules[j'].0, count) == Resolve(rules[j].0, count);
      last := LastRuleAt(rules, count, j');
    }
  }

  /** The surviving rules, read off the resolved dict, are the effective rules. */
  lemma {:induction false} ResolvedDictHoldsEffectiveRules(rules: PyDict.Dict<int, string>, count: nat, k: int) returns (j: int)
    requires 0 <= k < |ValuesToMatch(rules, count)|
    ensures 0 <= j < |rules| && Effective(rules, count, j)
    ensures ValuesToMatch(rules, count)[k] == (Resolve(rules[j].0, count), rules[j].1)
  {
    var d := ValuesToMatch(rules, count);
    LaterRuleWins(rules, count);
    assert d[k].0 in PyDict.KeySet(d);
    var j0 :| 0 <= j0 < |rules| && Resolve(rules[j0].0, count) == d[k].0;
    j := LastRuleAt(rules, count, j0);
    PyDict.GetFinds(d, d[k].0);
  }

  /** Every effective rule appears in the resolved dict. */
  lemma EffectiveRuleInResolvedDict(rules: PyDict.Dict<int, string>, count: nat, j: int) returns (k: int)
    requires 0 <= j < |rules| && Effective(rules, count, j)
    ensures 0 <= k < |ValuesToMatch(rules, count)|
    ensures ValuesToMatch(rules, count)[k] == (Resolve(rules[j].0, count), rules[j].1)
  {
    LaterRuleWins(rules, count);
    var d := ValuesToMatch(rules, count);
    assert PyDict.Get(d, Resolve(rules[j].0, count)) == Some(rules[j].1);
    PyDict.GetFinds(d, Resolve(rules[j].0, count));
    k :| 0 <= k < |d| && d[k] == (Resolve(rules[j].0, count), rules[j].1);
  }

  /** With every position inside the path, checking the rules never raises
      and accepts exactly when every segment equals its rule's value. */
  lemma {:induction false} CheckRulesInRange(parts: seq<string>, rules: PyDict.Dict<int, string>)
    requires forall k :: 0 <= k < |rules| ==> 0 <= rules[k].0 < |parts|
    ensures CheckRules(parts, rules) == Ok(forall k :: 0 <= k < |rules| ==> parts[rules[k].0] == rules[k].1)
  {
    if |rules| > 0 {
      CheckRulesInRange(parts, rules[1..]);
      assert forall k :: 0 < k < |rules| ==> rules[k] == rules[1..][k - 1];
    }
  }

  /** When every rule resolves inside the path, the matcher accepts exactly
      when each effective rule's value equals the segment at its position. */
  lemma RulesInRange(rules: PyDict.Dict<int, string>, url: Url)
    requires |UrlPathParts(url)| > 0
    requires forall j :: 0 <= j < |rules| ==> 0 <= Resolve(rules[j].0, |UrlPathParts(url)|) < |UrlPathParts(url)|
    ensures Match(PathPartsMatcher(rules), url)
              == Ok(forall j :: 0 <= j < |rules| && Effective(rules, |UrlPathParts(url)|, j)
                                ==> UrlPathParts(url)[Resolve(rules[j].0, |UrlPathParts(url)|)] == rules[j].1)
  {
    var parts := UrlPathParts(url);
    var n := |parts|;
    var d := ValuesToMatch(rules, n);
    forall k | 0 <= k < |d|
      ensures 0 <= d[k].0 < n
    {
      var j := ResolvedDictHoldsEffectiveRules(rules, n, k);
    }
    CheckRulesInRange(parts, d);
    forall j | 0 <= j < |rules| && Effective(rules, n, j) && (forall k :: 0 <= k < |d| ==> parts[d[k].0] == d[k].1)
      ensures parts[Resolve(rules[j].0, n)] == rules[j].1
    {
      var k := EffectiveRuleInResolvedDict(rules, n, j);
    }
    forall k | 0 <= k < |d| && (forall j :: 0 <= j < |rules| && Effective(rules, n, j) ==> parts[Resolve(rules[j].0, n)] == rules[j].1)
      ensures parts[d[k].0] == d[k].1
    {
      var j := ResolvedDictHoldsEffectiveRules(rules, n, k);
    }
  }

  /** When no rule resolves below minus the segment count (so nothing raises),
      one rule resolving at or past the count makes the matcher reject. */
  lemma RuleOutOfRangeRejects(rules: PyDict.Dict<int, string>, url: Url, j: int)
    requires |UrlPathParts(url)| > 0
    requires forall i :: 0 <= i < |rules| ==> Resolve(rules[i].0, |UrlPathParts(url)|) >= -|UrlPathParts(url)|
    requires 0 <= j < |rules| && Resolve(rules[j].0, |UrlPathParts(url)|) >= |UrlPathParts(url)|
    ensures Match(PathPartsMatcher(rules), url) == Ok(false)
  {
    var parts := UrlPathParts(url);
    var n := |parts|;
    var d := ValuesToMatch(rules, n);
    var last := LastRuleAt(rules, n, j);
    var k := EffectiveRuleInResolvedDict(rules, n, last);
    assert d[k].0 >= n;
    assert !RuleHolds(parts, d[k]);
    assert CheckRules(parts, d) != Ok(true);
    forall k' | 0 <= k' < |d|
      ensures d[k'].0 >= -n
    {
      var j' := ResolvedDictHoldsEffectiveRules(rules, n, k');
    }
    var r := CheckRules(parts, d);
    assert Match(PathPartsMatcher(rules), url) == r;
    assert r.Ok? && !r.value;
  }

  /** Resolution happens against the current segment count: a rule at a
      negative index `i` behaves like a rule at `count + i`, e.g. -1 like 2 on
      a three-segment path. */
  lemma NegativeIndexResolution(i: int, value: string, url: Url)
    requires i < 0 && |UrlPathParts(url)| + i >= 0
    ensures Match(PathPartsMatcher([(i, value)]), url) == Match(PathPartsMatcher([(|UrlPathParts(url)| + i, value)]), url)
  {
    var n := |UrlPathParts(url)|;
    ValuesToMatchWithoutCollision([(i, value)], n);
    ValuesToMatchWithoutCollision([(n + i, value)], n);
  }

  /** A single rule at a position inside the path compares that segment. */
  lemma SingleRuleInRange(i: int, value: string, url: Url)
    requires 0 <= i < |UrlPathParts(url)|
    ensures Match(PathPartsMatcher([(i, value)]), url) == Ok(UrlPathParts(url)[i] == value)
  {
    ValuesToMatchWithoutCollision([(i, value)], |UrlPathParts(url)|);
  }

  /** A negative index that is still negative once resolved is not caught by
      the bounds check: Python indexing wraps it a second time, or raises
      IndexError when it is below minus twice the segment count. */
  lemma StillNegativeIndex(i: int, value: string, url: Url)
    requires |UrlPathParts(url)| > 0 && i < -|UrlPathParts(url)|
    ensures i >= -2 * |UrlPathParts(url)| ==>
              Match(PathPartsMatcher([(i, value)]), url) == Ok(UrlPathParts(url)[2 * |UrlPathParts(url)| + i] == value)
    ensures i < -2 * |UrlPathParts(url)| ==> Match(PathPartsMatcher([(i, value)]), url) == Err(IndexError)
  {
    ValuesToMatchWithoutCollision([(i, value)], |UrlPathParts(url)|);
  }

  /** Resolving rules whose positions are already non-negative changes
      nothing, so matching with the resolved rules is matching with the rules. */
  lemma ResolvingTwiceChangesNothing(rules: PyDict.Dict<int, string>, url: Url)
    requires forall j :: 0 <= j < |rules| ==> Resolve(rules[j].0, |UrlPathParts(url)|) >= 0
    ensures Match(PathPartsMatcher(ValuesToMatch(rules, |UrlPathParts(url)|)), url) == Match(PathPartsMatcher(rules), url)
  {
    var n := |UrlPathParts(url)|;
    var d := ValuesToMatch(rules, n);
    LaterRuleWins(rules, n);
    forall k | 0 <= k < |d|
      ensures d[k].0 >= 0
    {
      assert d[k].0 in PyDict.KeySet(d);
    }
    assert ResolvedPairs(d, n) == d;
    ValuesToMatchWithoutCollision(d, n);
  }

  /** Two rules resolving to the same position: the later value wins. */
  lemma CollidingRulesLaterWins(i: int, v: string, w: string, count: nat)
    requires i < 0 && count + i >= 0
    ensures ValuesToMatch([(i, v), (count + i, w)], count) == [(count + i, w)]
    ensures ValuesToMatch([(count + i, w), (i, v)], count) == [(count + i, v)]
  {
    var r := count + i;
    var pairs := ResolvedPairs([(i, v), (count + i, w)], count);
    assert pairs == [(r, v), (r, w)];
    assert pairs[..1] == [(r, v)] && pairs[..1][..0] == [];
    assert PyDict.UpdateAll([], pairs[..1]) == PyDict.Set([], r, v) == [(r, v)];
    assert PyDict.Set([(r, v)], r, w) == [(r, w)];
    var pairs' := ResolvedPairs([(count + i, w), (i, v)], count);
    assert pairs' == [(r, w), (r, v)];
    assert pairs'[..1] == [(r, w)] && pairs'[..1][..0] == [];
    assert PyDict.UpdateAll([], pairs'[..1]) == PyDict.Set([], r, w) == [(r, w)];
    assert PyDict.Set([(r, w)], r, v) == [(r, v)];
  }

  /** `CompoundMatcher.Builder`: the matchers added so far. */
  datatype CompoundBuilder = CompoundBuilder(matchers: seq<Matcher>)

  /** `with_matcher`: the matcher goes last, after the ones added before,
      and the builder can then be built. */
  function WithMatcher(b: CompoundBuilder, m: Matcher): (r: CompoundBuilder)
    ensures |r.matchers| == |b.matchers| + 1 && r.matchers[|b.matchers|] == m
    ensures r.matchers[..|b.matchers|] == b.matchers
    ensures BuildCompound(r).Ok?
  {
    CompoundBuilder(b.matchers + [m])
  }

  /** `CompoundMatcher.Builder.build`. */
  function BuildCompound(b: CompoundBuilder): (r: Result<Matcher>)
    ensures r.Err? <==> |b.matchers| == 0
    ensures r.Err? ==> r.error == InvalidBuilderState
    ensures r.Ok? ==> r.value.CompoundMatcher? && r.value.matchers == b.matchers
  {
    if |b.matchers| == 0 then Err(InvalidBuilderState) else Ok(CompoundMatcher(b.matchers))
  }

  /** A chain of `with_matcher` calls, one per element of `ms`, in order. */
  function WithMatchers(b: CompoundBuilder, ms: seq<Matcher>): CompoundBuilder
    decreases |ms|
  {
    if |ms| == 0 then b else WithMatcher(WithMatchers(b, ms[..|ms| - 1]), ms[|ms| - 1])
  }

  /** Building after a chain of `with_matcher` calls on a fresh builder fails
      exactly when the chain is empty, and otherwise holds the matchers in
      the order they were added. */
  lemma {:induction false} CompoundBuilderChain(ms: seq<Matcher>)
    ensures WithMatchers(CompoundBuilder([]), ms).matchers == ms
    ensures BuildCompound(WithMatchers(CompoundBuilder([]), ms))
              == if |ms| == 0 then Err(InvalidBuilderState) else Ok(CompoundMatcher(ms))
    decreases |ms|
  {
    if |ms| > 0 {
      CompoundBuilderChain(ms[..|ms| - 1]);
      assert ms[..|ms| - 1] + [ms[|ms| - 1]] == ms;
    }
  }

  /** A built compound matcher is never empty, so it matches exactly when all
      of its sub-matchers do. */
  lemma BuiltCompoundIsConjunction(b: CompoundBuilder, url: Url)
    requires BuildCompound(b).Ok?
    ensures (Match(BuildCompound(b).value, url) == Ok(true))
              <==> forall m :: m in b.matchers ==> Match(m, url) == Ok(true)
  {
  }

  /** `PathPartsMatcher.Builder`: the rules added so far. */
  datatype PathPartsBuilder = PathPartsBuilder(valuesByIndex: PyDict.Dict<int, string>)

  /** `with_value_at_index`: the index now expects `value`, every other index
      keeps its rule, the indices stay distinct, and the builder can then be
      built. */
  function WithValueAtIndex(b: PathPartsBuilder, index: int, value: string): (r: PathPartsBuilder)
    ensures PyDict.Get(r.valuesByIndex, index) == Some(value)
    ensures forall other :: other != index ==> PyDict.Get(r.valuesByIndex, other) == PyDict.Get(b.valuesByIndex, other)
    ensures PyDict.DistinctKeys(b.valuesByIndex) ==> PyDict.DistinctKeys(r.valuesByIndex)
    ensures BuildPathParts(r).Ok?
  {
    var d := PyDict.Set(b.valuesByIndex, index, value);
    assert PyDict.DistinctKeys(b.valuesByIndex) ==> PyDict.DistinctKeys(d) by {
      if PyDict.DistinctKeys(b.valuesByIndex) {
        PyDict.SetKeepsKeysDistinct(b.valuesByIndex, index, value);
      }
    }
    PathPartsBuilder(d)
  }

  /** `PathPartsMatcher.Builder.build`. */
  function BuildPathParts(b: PathPartsBuilder): (r: Result<Matcher>)
    ensures r.Err? <==> |b.valuesByIndex| == 0
    ensures r.Err? ==> r.error == InvalidBuilderState
    ensures r.Ok? ==> r.value.PathPartsMatcher? && r.value.valuesByIndex == b.valuesByIndex
  {
    if |b.valuesByIndex| == 0 then Err(InvalidBuilderState) else Ok(PathPartsMatcher(b.valuesByIndex))
  }

  /** A chain of `with_value_at_index` calls, one per element of `calls`, in order. */
  function WithValuesAtIndices(b: PathPartsBuilder, calls: seq<(int, string)>): PathPartsBuilder
    decreases |calls|
  {
    if |calls| == 0 then b
    else
      var n := |calls| - 1;
      WithValueAtIndex(WithValuesAtIndices(b, calls[..n]), calls[n].0, calls[n].1)
  }

  /** Re-adding an index overwrites the value given to it before. */
  lemma {:induction false} ReAddingIndexOverwrites(b: PathPartsBuilder, index: int, v: string, w: string)
    ensures WithValueAtIndex(WithValueAtIndex(b, index, v), index, w) == WithValueAtIndex(b, index, w)
    decreases |b.valuesByIndex|
  {
    var d := b.valuesByIndex;
    if |d| > 0 && d[0].0 != index {
      ReAddingIndexOverwrites(PathPartsBuilder(d[1..]), index, v, w);
    }
  }

  /** Building after a chain of `with_value_at_index` calls on a fresh builder
      fails exactly when the chain is empty; otherwise each added index holds
      the value it was given last, once. */
  lemma {:induction false} PathPartsBuilderChain(calls: seq<(int, string)>)
    ensures BuildPathParts(WithValuesAtIndices(PathPartsBuilder([]), calls)).Err? <==> |calls| == 0
    ensures PyDict.DistinctKeys(WithValuesAtIndices(PathPartsBuilder([]), calls).valuesByIndex)
    ensures PyDict.KeySet(WithValuesAtIndices(PathPartsBuilder([]), calls).valuesByIndex) == PyDict.KeySet(calls)
    ensures forall j :: 0 <= j < |calls| && PyDict.LastFor(calls, j)
              ==> PyDict.Get(WithValuesAtIndices(PathPartsBuilder([]), calls).valuesByIndex, calls[j].0) == Some(calls[j].1)
  {
    ChainIsUpdateAll(PathPartsBuilder([]), calls);
    PyDict.UpdateAllSpec([], calls);
    if |calls| > 0 {
      assert calls[0].0 in PyDict.KeySet(calls);
    }
  }

  /** A chain of `with_value_at_index` calls performs the dict assignments in order. */
  lemma {:induction false} ChainIsUpdateAll(b: PathPartsBuilder, calls: seq<(int, string)>)
    ensures WithValuesAtIndices(b, calls).valuesByIndex == PyDict.UpdateAll(b.valuesByIndex, calls)
    decreases |calls|
  {
    if |calls| > 0 {
      ChainIsUpdateAll(b, calls[..|calls| - 1]);
    }
  }
}
