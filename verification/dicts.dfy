/**
  Insertion-ordered dictionaries, the way Python `dict` and JavaScript plain
  objects behave: assigning to a present key keeps its position and replaces
  its value, assigning to a new key appends it. A dictionary is a sequence of
  pairs; `ToMap` forgets the order (Python's `==` on dicts ignores it).
 */
module Dicts {
  import opened Wrappers

  type Dict<K, V> = seq<(K, V)>

  /** The keys in insertion order. */
  function Keys<K, V>(d: Dict<K, V>): (ks: seq<K>)
    ensures |ks| == |d|
    ensures forall i :: 0 <= i < |d| ==> ks[i] == d[i].0
  {
    if |d| == 0 then [] else [d[0].0] + Keys(d[1..])
  }

  predicate HasKey<K(==), V>(d: Dict<K, V>, k: K) {
    |d| > 0 && (d[0].0 == k || HasKey(d[1..], k))
  }

  lemma HasKeyIsInKeys<K, V>(d: Dict<K, V>, k: K)
    ensures HasKey(d, k) <==> k in Keys(d)
  {
    if |d| > 0 {
      HasKeyIsInKeys(d[1..], k);
    }
  }

  /** No key occurs twice: what every Python dict satisfies. */
  predicate UniqueKeys<K(==), V>(d: Dict<K, V>) {
    |d| == 0 || (!HasKey(d[1..], d[0].0) && UniqueKeys(d[1..]))
  }

  /** The order-insensitive view; for a repeated key the later pair wins. */
  function ToMap<K(==,!new), V>(d: Dict<K, V>): (m: map<K, V>)
    ensures forall k :: k in m <==> HasKey(d, k)
  {
    if |d| == 0 then map[] else map[d[0].0 := d[0].1] + ToMap(d[1..])
  }

  /** The value stored under `k`, looked up from the front. */
  function Get<K(==,!new), V>(d: Dict<K, V>, k: K): (r: Option<V>)
    ensures r.Some? <==> HasKey(d, k)
    ensures UniqueKeys(d) && r.Some? ==> ToMap(d)[k] == r.value
  {
    if |d| == 0 then None
    else if d[0].0 == k then Some(d[0].1)
    else Get(d[1..], k)
  }

  /** Python `d[k] = v` / JavaScript `o[k] = v`. */
  function Put<K(==,!new), V>(d: Dict<K, V>, k: K, v: V): (r: Dict<K, V>)
    ensures HasKey(d, k) ==> Keys(r) == Keys(d)
    ensures !HasKey(d, k) ==> Keys(r) == Keys(d) + [k]
    ensures forall x :: HasKey(r, x) <==> x == k || HasKey(d, x)
    ensures UniqueKeys(d) ==> UniqueKeys(r) && ToMap(r) == ToMap(d)[k := v]
  {
    if |d| == 0 then [(k, v)]
    else if d[0].0 == k then
      var r := [(k, v)] + d[1..];
      assert r[1..] == d[1..];
      r
    else
      var rest := Put(d[1..], k, v);
      var r := [d[0]] + rest;
      assert r[0] == d[0] && r[1..] == rest;
      r
  }

  /** Python `d.update(e)` / JavaScript `{...d, ...e}`: the pairs of `e` put in order. */
  function Update<K(==,!new), V>(d: Dict<K, V>, e: Dict<K, V>): (r: Dict<K, V>)
    ensures UniqueKeys(d) ==> UniqueKeys(r) && ToMap(r) == ToMap(d) + ToMap(e)
    ensures forall k :: HasKey(r, k) <==> HasKey(d, k) || HasKey(e, k)
    decreases |e|
  {
    if |e| == 0 then d
    else
      var d' := Put(d, e[0].0, e[0].1);
      var r := Update(d', e[1..]);
      assert forall k :: HasKey(e, k) <==> e[0].0 == k || HasKey(e[1..], k);
      if UniqueKeys(d) then
        OverrideFront(ToMap(d), e[0].0, e[0].1, ToMap(e[1..]));
        r
      else r
  }

  lemma OverrideFront<K, V>(m: map<K, V>, k: K, v: V, n: map<K, V>)
    ensures m[k := v] + n == m + (map[k := v] + n)
  {
  }

  /** Keep the pairs whose key satisfies `keep`, in order. */
  function Restrict<K(==,!new), V>(d: Dict<K, V>, keep: K -> bool): (r: Dict<K, V>)
    ensures forall k :: HasKey(r, k) <==> HasKey(d, k) && keep(k)
    ensures UniqueKeys(d) ==> UniqueKeys(r)
    ensures |r| <= |d|
  {
    if |d| == 0 then []
    else
      var rest := Restrict(d[1..], keep);
      if keep(d[0].0) then
        var r := [d[0]] + rest;
        assert r[1..] == rest;
        r
      else rest
  }

  /** What was put under `k` is read back, and every other key reads as before. */
  lemma {:induction false} GetPut<K(!new), V>(d: Dict<K, V>, k: K, v: V, x: K)
    ensures Get(Put(d, k, v), x) == if x == k then Some(v) else Get(d, x)
    decreases |d|
  {
    if |d| > 0 && d[0].0 != k {
      GetPut(d[1..], k, v, x);
      assert Put(d, k, v)[1..] == Put(d[1..], k, v);
    }
  }

  /** Putting twice under the same key is putting the second value. */
  lemma {:induction false} PutPut<K(!new), V>(d: Dict<K, V>, k: K, v: V, w: V)
    ensures Put(Put(d, k, v), k, w) == Put(d, k, w)
    decreases |d|
  {
    if |d| > 0 && d[0].0 != k {
      PutPut(d[1..], k, v, w);
      assert Put(d, k, v)[1..] == Put(d[1..], k, v);
    }
  }

  /** Every pair of `Put(d, k, v)` is a pair of `d` or the new one. */
  lemma {:induction false} PutPairs<K(!new), V>(d: Dict<K, V>, k: K, v: V)
    ensures forall x :: x in Put(d, k, v) ==> x in d || x == (k, v)
    decreases |d|
  {
    if |d| > 0 && d[0].0 != k {
      PutPairs(d[1..], k, v);
      var r := Put(d, k, v);
      assert r == [d[0]] + Put(d[1..], k, v);
      assert forall x :: x in d[1..] ==> x in d;
    }
  }

  /** Every pair of `Update(d, e)` is a pair of `d` or of `e`. */
  lemma {:induction false} UpdatePairs<K(!new), V>(d: Dict<K, V>, e: Dict<K, V>)
    ensures forall x :: x in Update(d, e) ==> x in d || x in e
    decreases |e|
  {
    if |e| > 0 {
      PutPairs(d, e[0].0, e[0].1);
      UpdatePairs(Put(d, e[0].0, e[0].1), e[1..]);
      assert forall x :: x in e[1..] ==> x in e;
    }
  }

  lemma {:induction false} HasKeyConcat<K, V>(a: Dict<K, V>, b: Dict<K, V>, k: K)
    ensures HasKey(a + b, k) <==> HasKey(a, k) || HasKey(b, k)
    decreases |a|
  {
    if |a| > 0 {
      assert (a + b)[1..] == a[1..] + b;
      HasKeyConcat(a[1..], b, k);
    } else {
      assert a + b == b;
    }
  }

  lemma HasKeyAt<K, V>(d: Dict<K, V>, k: K) returns (a: nat)
    requires HasKey(d, k)
    ensures a < |d| && d[a].0 == k
  {
    HasKeyIsInKeys(d, k);
    var ks := Keys(d);
    a :| 0 <= a < |ks| && ks[a] == k;
  }

  lemma AtHasKey<K, V>(d: Dict<K, V>, a: nat)
    requires a < |d|
    ensures HasKey(d, d[a].0)
  {
    HasKeyIsInKeys(d, d[a].0);
    assert Keys(d)[a] == d[a].0;
  }

  /** A present key's value is the value of one of the dictionary's pairs. */
  lemma {:induction false} GetIsPair<K(!new), V>(d: Dict<K, V>, k: K)
    requires HasKey(d, k)
    ensures exists i :: 0 <= i < |d| && d[i] == (k, Get(d, k).value)
    decreases |d|
  {
    if d[0].0 != k {
      GetIsPair(d[1..], k);
      var i :| 0 <= i < |d[1..]| && d[1..][i] == (k, Get(d[1..], k).value);
      assert d[i + 1] == d[1..][i];
    }
  }

  /** With unique keys, looking up the key at a position finds that position's value. */
  lemma GetAt<K(!new), V>(d: Dict<K, V>, a: nat)
    requires UniqueKeys(d) && a < |d|
    ensures Get(d, d[a].0) == Some(d[a].1)
    ensures ToMap(d)[d[a].0] == d[a].1
  {
    AtHasKey(d, a);
    GetIsPair(d, d[a].0);
    var i :| 0 <= i < |d| && d[i] == (d[a].0, Get(d, d[a].0).value);
    if i < a {
      UniqueKeysDistinct(d, i, a);
    } else if a < i {
      UniqueKeysDistinct(d, a, i);
    }
  }

  /** In a dictionary with unique keys, two positions hold two different keys. */
  lemma {:induction false} UniqueKeysDistinct<K, V>(d: Dict<K, V>, i: nat, j: nat)
    requires UniqueKeys(d) && i < j < |d|
    ensures d[i].0 != d[j].0
    decreases |d|
  {
    if i == 0 {
      AtHasKey(d[1..], j - 1);
    } else {
      UniqueKeysDistinct(d[1..], i - 1, j - 1);
    }
  }

  /** Putting a new key appends it. */
  lemma {:induction false} PutFresh<K(!new), V>(d: Dict<K, V>, k: K, v: V)
    requires !HasKey(d, k)
    ensures Put(d, k, v) == d + [(k, v)]
    decreases |d|
  {
    if |d| > 0 {
      PutFresh(d[1..], k, v);
      assert d == [d[0]] + d[1..];
    }
  }

  /** Putting a key that is last replaces the last value. */
  lemma PutLast<K(!new), V>(d: Dict<K, V>, k: K, v: V, w: V)
    requires !HasKey(d, k)
    ensures Put(d + [(k, v)], k, w) == d + [(k, w)]
    ensures Get(d + [(k, v)], k) == Some(v)
  {
    PutReplacesLast(d, k, v, w);
    GetLast(d, k, v);
  }

  lemma {:induction false} PutReplacesLast<K(!new), V>(d: Dict<K, V>, k: K, v: V, w: V)
    requires !HasKey(d, k)
    ensures Put(d + [(k, v)], k, w) == d + [(k, w)]
    decreases |d|
  {
    if |d| > 0 {
      assert (d + [(k, v)])[1..] == d[1..] + [(k, v)];
      PutReplacesLast(d[1..], k, v, w);
      assert d + [(k, w)] == [d[0]] + (d[1..] + [(k, w)]);
    } else {
      assert d + [(k, v)] == [(k, v)];
    }
  }

  lemma {:induction false} GetLast<K(!new), V>(d: Dict<K, V>, k: K, v: V)
    requires !HasKey(d, k)
    ensures Get(d + [(k, v)], k) == Some(v)
    decreases |d|
  {
    if |d| > 0 {
      assert (d + [(k, v)])[1..] == d[1..] + [(k, v)];
      GetLast(d[1..], k, v);
    } else {
      assert d + [(k, v)] == [(k, v)];
    }
  }

  /** Updating with pairs whose keys are all new appends them. */
  lemma {:induction false} UpdateFresh<K(!new), V>(d: Dict<K, V>, e: Dict<K, V>)
    requires UniqueKeys(e)
    requires forall i :: 0 <= i < |e| ==> !HasKey(d, e[i].0)
    ensures Update(d, e) == d + e
    decreases |e|
  {
    if |e| > 0 {
      PutFresh(d, e[0].0, e[0].1);
      FreshAfterFirst(d, e);
      UpdateFresh(d + [e[0]], e[1..]);
      AppendFirst(d, e);
    }
  }

  /** Once the first pair of `e` is appended, the keys of the rest are still new. */
  lemma FreshAfterFirst<K, V>(d: Dict<K, V>, e: Dict<K, V>)
    requires |e| > 0 && UniqueKeys(e)
    requires forall i :: 0 <= i < |e| ==> !HasKey(d, e[i].0)
    ensures UniqueKeys(e[1..])
    ensures forall i :: 0 <= i < |e[1..]| ==> !HasKey(d + [e[0]], e[1..][i].0)
  {
    forall i | 0 <= i < |e[1..]| ensures !HasKey(d + [e[0]], e[1..][i].0) {
      assert e[1..][i] == e[i + 1];
      HasKeyConcat(d, [e[0]], e[i + 1].0);
      UniqueKeysDistinct(e, 0, i + 1);
    }
  }

  lemma AppendFirst<T>(d: seq<T>, e: seq<T>)
    requires |e| > 0
    ensures (d + [e[0]]) + e[1..] == d + e
  {
    assert [e[0]] + e[1..] == e;
    assert (d + [e[0]]) + e[1..] == d + ([e[0]] + e[1..]);
  }

  /** The value of the last pair of `e` whose key is `k`, if any. */
  function LastOf<K(==), V>(e: Dict<K, V>, k: K): (r: Option<V>)
    ensures r.Some? <==> HasKey(e, k)
    ensures r.Some? ==> exists j :: 0 <= j < |e| && e[j] == (k, r.value) && (forall j' :: j < j' < |e| ==> e[j'].0 != k)
    decreases |e|
  {
    if |e| == 0 then None
    else
      match LastOf(e[1..], k)
      case Some(v) =>
        assert forall j :: 0 < j < |e| ==> e[j] == e[1..][j - 1];
        Some(v)
      case None =>
        if e[0].0 == k then
          assert forall j' :: 0 < j' < |e| ==> e[j'].0 != k by {
            forall j' | 0 < j' < |e| ensures e[j'].0 != k {
              AtHasKey(e[1..], j' - 1);
            }
          }
          Some(e[0].1)
        else None
  }

  /** After `Update(d, e)` a key reads its last value in `e`, or its value in `d` if `e` lacks it. */
  lemma {:induction false} GetUpdateLast<K(!new), V>(d: Dict<K, V>, e: Dict<K, V>, x: K)
    ensures Get(Update(d, e), x) == if HasKey(e, x) then LastOf(e, x) else Get(d, x)
    decreases |e|
  {
    if |e| > 0 {
      GetUpdateLast(Put(d, e[0].0, e[0].1), e[1..], x);
      GetPut(d, e[0].0, e[0].1, x);
    }
  }

  /** In a dictionary with unique keys the last value is the only one. */
  lemma {:induction false} LastOfUnique<K(!new), V>(e: Dict<K, V>, x: K)
    requires UniqueKeys(e)
    ensures LastOf(e, x) == Get(e, x)
    decreases |e|
  {
    if |e| > 0 {
      LastOfUnique(e[1..], x);
    }
  }

  /** `{...d, ...e}` for an object `e`: keys of `e` read from `e`, the others from `d`. */
  lemma GetUpdate<K(!new), V>(d: Dict<K, V>, e: Dict<K, V>, x: K)
    requires UniqueKeys(e)
    ensures Get(Update(d, e), x) == if HasKey(e, x) then Get(e, x) else Get(d, x)
  {
    GetUpdateLast(d, e, x);
    LastOfUnique(e, x);
  }
}
