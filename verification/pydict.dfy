/** Python's insertion-ordered `dict`, as a sequence of (key, value) pairs.

    Assigning to a key that is already present replaces its value and keeps
    its position; assigning to a new key appends it at the end. Iteration
    follows the sequence order.
 */
module PyDict {
  import opened Outcomes

  type Dict<K, V> = seq<(K, V)>

  /** No key occurs twice: what every Python dict satisfies. */
  predicate DistinctKeys<K(==), V>(d: Dict<K, V>) {
    forall i, j :: 0 <= i < j < |d| ==> d[i].0 != d[j].0
  }

  function KeySet<K, V>(d: Dict<K, V>): set<K> {
    set i | 0 <= i < |d| :: d[i].0
  }

  /** `d.get(k)`: the value stored under `k`, if any. */
  function Get<K(==), V>(d: Dict<K, V>, k: K): (r: Option<V>)
    ensures r.Some? <==> k in KeySet(d)
  {
    if |d| == 0 then None
    else if d[0].0 == k then Some(d[0].1)
    else
      var r := Get(d[1..], k);
      assert KeySet(d) == {d[0].0} + KeySet(d[1..]) by {
        assert forall i :: 0 < i < |d| ==> d[i] == d[1..][i - 1];
      }
      r
  }

  /** A found value sits at some position of the dict under its key; with
      distinct keys, the value at the key's position is the one found. */
  lemma {:induction false} GetFinds<K, V>(d: Dict<K, V>, k: K)
    ensures Get(d, k).Some? ==> exists i :: 0 <= i < |d| && d[i] == (k, Get(d, k).value)
    ensures DistinctKeys(d) ==> forall i :: 0 <= i < |d| && d[i].0 == k ==> Get(d, k) == Some(d[i].1)
  {
    if |d| > 0 {
      GetFinds(d[1..], k);
      assert d == [d[0]] + d[1..];
      ConsDistinct(d[0], d[1..]);
      assert forall i :: 0 < i < |d| ==> d[i] == d[1..][i - 1];
      if Get(d, k).Some? && d[0].0 != k {
        var i :| 0 <= i < |d[1..]| && d[1..][i] == (k, Get(d, k).value);
        assert d[i + 1] == (k, Get(d, k).value);
      }
    }
  }

  /** In a dict with distinct keys, each key finds the value stored beside it. */
  lemma DistinctLookup<K, V>(d: Dict<K, V>)
    requires DistinctKeys(d)
    ensures forall i :: 0 <= i < |d| ==> Get(d, d[i].0) == Some(d[i].1)
  {
    forall i | 0 <= i < |d|
      ensures Get(d, d[i].0) == Some(d[i].1)
    {
      GetFinds(d, d[i].0);
    }
  }

  /** `d[k] = v`. */
  function Set<K(==,!new), V>(d: Dict<K, V>, k: K, v: V): (r: Dict<K, V>)
    ensures Get(r, k) == Some(v)
    ensures forall k' :: k' != k ==> Get(r, k') == Get(d, k')
    ensures KeySet(r) == KeySet(d) + {k}
    ensures k in KeySet(d) ==> |r| == |d| && forall i :: 0 <= i < |d| ==> r[i].0 == d[i].0
  {
    if |d| == 0 then
      ConsKeySet((k, v), d);
      ConsGet((k, v), d);
      assert [(k, v)] + d == [(k, v)];
      [(k, v)]
    else
      assert d == [d[0]] + d[1..];
      ConsKeySet(d[0], d[1..]);
      ConsGet(d[0], d[1..]);
      if d[0].0 == k then
        ConsKeySet((k, v), d[1..]);
        ConsGet((k, v), d[1..]);
        [(k, v)] + d[1..]
      else
        var rest := Set(d[1..], k, v);
        ConsKeySet(d[0], rest);
        ConsGet(d[0], rest);
        assert k in KeySet(d) ==> k in KeySet(d[1..]);
        [d[0]] + rest
  }

  /** No pair after position `j` of `pairs` has the key of `pairs[j]`. */
  predicate LastFor<K(==), V>(pairs: seq<(K, V)>, j: int)
    requires 0 <= j < |pairs|
  {
    forall j' :: j < j' < |pairs| ==> pairs[j'].0 != pairs[j].0
  }

  /** `for k, v in pairs: d[k] = v`, the assignments made in order. */
  function UpdateAll<K(==,!new), V>(d: Dict<K, V>, pairs: seq<(K, V)>): Dict<K, V>
    decreases |pairs|
  {
    if |pairs| == 0 then d
    else
      var n := |pairs| - 1;
      Set(UpdateAll(d, pairs[..n]), pairs[n].0, pairs[n].1)
  }

  /** After the assignments, the keys are the old keys plus the assigned ones,
      each assigned key holds the value of its LAST assignment, unassigned keys
      keep their values, and the keys stay distinct. */
  lemma {:induction false} UpdateAllSpec<K(!new), V>(d: Dict<K, V>, pairs: seq<(K, V)>)
    ensures KeySet(UpdateAll(d, pairs)) == KeySet(d) + KeySet(pairs)
    ensures DistinctKeys(d) ==> DistinctKeys(UpdateAll(d, pairs))
    ensures forall j :: 0 <= j < |pairs| && LastFor(pairs, j) ==> Get(UpdateAll(d, pairs), pairs[j].0) == Some(pairs[j].1)
    ensures forall k :: k !in KeySet(pairs) ==> Get(UpdateAll(d, pairs), k) == Get(d, k)
    decreases |pairs|
  {
    if |pairs| > 0 {
      var n := |pairs| - 1;
      var prefix := UpdateAll(d, pairs[..n]);
      var (k, v) := pairs[n];
      UpdateAllSpec(d, pairs[..n]);
      assert pairs == pairs[..n] + [pairs[n]];
      ConcatKeySet(pairs[..n], [pairs[n]]);
      assert KeySet([pairs[n]]) == {k};
      if DistinctKeys(d) {
        SetKeepsKeysDistinct(prefix, k, v);
      }
      forall j | 0 <= j < |pairs| && LastFor(pairs, j)
        ensures Get(UpdateAll(d, pairs), pairs[j].0) == Some(pairs[j].1)
      {
        if j < n {
          assert pairs[j].0 != k;
          assert LastFor(pairs[..n], j);
        }
      }
    }
  }

  /** Assigning pairs with fresh, distinct keys appends them in order. */
  lemma {:induction false} UpdateAllAppends<K(!new), V>(d: Dict<K, V>, pairs: seq<(K, V)>)
    requires DistinctKeys(d + pairs)
    ensures UpdateAll(d, pairs) == d + pairs
    decreases |pairs|
  {
    if |pairs| > 0 {
      var n := |pairs| - 1;
      assert d + pairs == (d + pairs[..n]) + [pairs[n]];
      DistinctPrefix(d + pairs[..n], pairs[n]);
      UpdateAllAppends(d, pairs[..n]);
      ConcatKeySet(d, pairs[..n]);
      UpdateAllSpec(d, pairs[..n]);
      SetAppendsNewKey(UpdateAll(d, pairs[..n]), pairs[n].0, pairs[n].1);
    }
  }

  /** The keys of `a + b`. */
  lemma ConcatKeySet<K, V>(a: Dict<K, V>, b: Dict<K, V>)
    ensures KeySet(a + b) == KeySet(a) + KeySet(b)
  {
    var e := a + b;
    forall k | k in KeySet(e)
      ensures k in KeySet(a) + KeySet(b)
    {
      var i :| 0 <= i < |e| && e[i].0 == k;
      if i >= |a| {
        assert b[i - |a|].0 == k;
      }
    }
    forall k | k in KeySet(b)
      ensures k in KeySet(e)
    {
      var i :| 0 <= i < |b| && b[i].0 == k;
      assert e[i + |a|].0 == k;
    }
    forall k | k in KeySet(a)
      ensures k in KeySet(e)
    {
      var i :| 0 <= i < |a| && a[i].0 == k;
      assert e[i].0 == k;
    }
  }

  /** Dropping the last pair of a dict with distinct keys leaves distinct keys without that key. */
  lemma DistinctPrefix<K, V>(d: Dict<K, V>, x: (K, V))
    requires DistinctKeys(d + [x])
    ensures DistinctKeys(d) && x.0 !in KeySet(d)
  {
    var e := d + [x];
    assert forall i :: 0 <= i < |d| ==> e[i] == d[i];
    forall i | 0 <= i < |d|
      ensures d[i].0 != x.0
    {
      assert e[i].0 != e[|d|].0;
    }
  }

  /** Assignment keeps the keys of a dict distinct. */
  lemma {:induction false} SetKeepsKeysDistinct<K(!new), V>(d: Dict<K, V>, k: K, v: V)
    requires DistinctKeys(d)
    ensures DistinctKeys(Set(d, k, v))
  {
    if |d| > 0 {
      assert d == [d[0]] + d[1..];
      ConsDistinct(d[0], d[1..]);
      if d[0].0 == k {
        ConsDistinct((k, v), d[1..]);
      } else {
        SetKeepsKeysDistinct(d[1..], k, v);
        ConsDistinct(d[0], Set(d[1..], k, v));
      }
    }
  }

  /** Assigning to a key not yet present appends the pair at the end. */
  lemma {:induction false} SetAppendsNewKey<K(!new), V>(d: Dict<K, V>, k: K, v: V)
    requires k !in KeySet(d)
    ensures Set(d, k, v) == d + [(k, v)]
  {
    if |d| > 0 {
      assert d == [d[0]] + d[1..];
      ConsKeySet(d[0], d[1..]);
      SetAppendsNewKey(d[1..], k, v);
    }
  }

  /** The key set of `[x] + s`. */
  lemma ConsKeySet<K, V>(x: (K, V), s: Dict<K, V>)
    ensures KeySet([x] + s) == {x.0} + KeySet(s)
  {
    var d := [x] + s;
    assert forall i :: 0 < i < |d| ==> d[i] == s[i - 1];
    forall k | k in KeySet(d)
      ensures k in {x.0} + KeySet(s)
    {
      var i :| 0 <= i < |d| && d[i].0 == k;
      if i > 0 {
        assert s[i - 1].0 == k;
      }
    }
    forall k | k in KeySet(s)
      ensures k in KeySet(d)
    {
      var i :| 0 <= i < |s| && s[i].0 == k;
      assert d[i + 1].0 == k;
    }
    assert d[0].0 in KeySet(d);
  }

  /** Lookup in `[x] + s`. */
  lemma ConsGet<K, V>(x: (K, V), s: Dict<K, V>)
    ensures forall k :: Get([x] + s, k) == if x.0 == k then Some(x.1) else Get(s, k)
  {
    assert ([x] + s)[1..] == s;
  }

  /** `[x] + s` has distinct keys exactly when `s` does and does not hold `x`'s key. */
  lemma ConsDistinct<K, V>(x: (K, V), s: Dict<K, V>)
    ensures DistinctKeys([x] + s) <==> DistinctKeys(s) && x.0 !in KeySet(s)
  {
    var d := [x] + s;
    assert forall i :: 0 < i < |d| ==> d[i] == s[i - 1];
    if DistinctKeys(s) && x.0 !in KeySet(s) {
      forall i, j | 0 <= i < j < |d|
        ensures d[i].0 != d[j].0
      {
        if i == 0 {
          assert d[j].0 == s[j - 1].0;
          assert s[j - 1].0 in KeySet(s);
        } else {
          assert d[i].0 == s[i - 1].0 && d[j].0 == s[j - 1].0;
        }
      }
    }
    if DistinctKeys(d) {
      forall i, j | 0 <= i < j < |s|
        ensures s[i].0 != s[j].0
      {
        assert d[i + 1].0 != d[j + 1].0;
      }
      forall i | 0 <= i < |s|
        ensures s[i].0 != x.0
      {
        assert d[0].0 != d[i + 1].0;
      }
    }
  }
}
