/**
 Python's `defaultdict(list)` filled by one pass of `groups[key(x)].append(x)`,
 and what its `values()` hold: a list per key, in the order the keys were met.
 `keys[i]` is the key of the i-th item.
 */
module Grouping {

  ghost predicate Ascending(xs: seq<nat>) {
    forall p, q :: 0 <= p < q < |xs| ==> xs[p] < xs[q]
  }

  ghost predicate Distinct<K>(ks: seq<K>) {
    forall k, l :: 0 <= k < l < |ks| ==> ks[k] != ks[l]
  }

  /** Two lists, matched place by place. */
  ghost predicate Pairwise<A, B>(p: (A, B) -> bool, xs: seq<A>, ys: seq<B>) {
    |xs| == |ys| && forall k :: 0 <= k < |xs| ==> p(xs[k], ys[k])
  }

  lemma PairwiseConcat<A, B>(p: (A, B) -> bool, xs: seq<A>, ys: seq<B>, xs': seq<A>, ys': seq<B>)
    requires Pairwise(p, xs, ys) && Pairwise(p, xs', ys')
    ensures Pairwise(p, xs + xs', ys + ys')
  {
  }

  /** `ys` is what stands in `xs` at the places `at`. */
  ghost predicate Picked<T>(xs: seq<T>, at: seq<nat>, ys: seq<T>) {
    |ys| == |at| && forall p :: 0 <= p < |at| ==> at[p] < |xs| && ys[p] == xs[at[p]]
  }

  /** The places below `n` whose key is `k`, in order. */
  ghost function WithKey<K>(keys: seq<K>, k: K, n: nat): seq<nat>
    requires n <= |keys|
  {
    if n == 0 then [] else WithKey(keys, k, n - 1) + if keys[n - 1] == k then [n - 1] else []
  }

  /** The items below `n` whose key is `k`: what the pass has appended to `groups[k]`. */
  ghost function Gather<K, T>(items: seq<T>, keys: seq<K>, k: K, n: nat): seq<T>
    requires n <= |keys| == |items|
  {
    if n == 0 then [] else Gather(items, keys, k, n - 1) + if keys[n - 1] == k then [items[n - 1]] else []
  }

  /** The keys of the items below `n`, in the order first met. */
  ghost function KeysMet<K>(keys: seq<K>, n: nat): seq<K>
    requires n <= |keys|
  {
    if n == 0 then [] else
      var met := KeysMet(keys, n - 1);
      if keys[n - 1] in met then met else met + [keys[n - 1]]
  }

  /** Some item below `n` has the key `k`. */
  ghost predicate Met<K>(keys: seq<K>, k: K, n: nat)
    requires n <= |keys|
  {
    exists i: nat :: i < n && keys[i] == k
  }

  lemma {:induction false} WithKeyHolds<K>(keys: seq<K>, k: K, n: nat)
    requires n <= |keys|
    ensures var at := WithKey(keys, k, n);
            Ascending(at) && forall i: nat :: i in at <==> i < n && keys[i] == k
  {
    if n > 0 {
      WithKeyHolds(keys, k, n - 1);
      var at := WithKey(keys, k, n - 1);
      assert forall p :: 0 <= p < |at| ==> at[p] in at;
    }
  }

  lemma {:induction false} GatherIsPick<K, T>(items: seq<T>, keys: seq<K>, k: K, n: nat)
    requires n <= |keys| == |items|
    ensures Picked(items, WithKey(keys, k, n), Gather(items, keys, k, n))
  {
    if n > 0 { GatherIsPick(items, keys, k, n - 1); }
  }

  lemma {:induction false} KeysMetHolds<K>(keys: seq<K>, n: nat)
    requires n <= |keys|
    ensures Distinct(KeysMet(keys, n)) && forall k :: k in KeysMet(keys, n) <==> Met(keys, k, n)
  {
    if n > 0 {
      KeysMetHolds(keys, n - 1);
      var before, met := KeysMet(keys, n - 1), KeysMet(keys, n);
      assert forall k :: 0 <= k < |before| ==> before[k] in before;
      forall k ensures k in met <==> Met(keys, k, n) {
        assert k in met <==> k in before || k == keys[n - 1];
        assert Met(keys, k, n) <==> Met(keys, k, n - 1) || k == keys[n - 1];
      }
    }
  }

  /** The dictionary after the first `n` items. */
  ghost predicate Gathered<K, T>(items: seq<T>, keys: seq<K>, met: seq<K>, groups: map<K, seq<T>>, n: nat) {
    n <= |keys| == |items| && met == KeysMet(keys, n) &&
    groups.Keys == (set k | k in met) &&
    forall k :: k in groups ==> groups[k] == Gather(items, keys, k, n)
  }

  /** One turn of the pass: the item joins its key's list, a new one if the key is new. */
  lemma GatherOne<K, T>(items: seq<T>, keys: seq<K>, met: seq<K>, groups: map<K, seq<T>>, n: nat)
    requires Gathered(items, keys, met, groups, n) && n < |keys|
    ensures var k := keys[n];
            Gathered(items, keys, if k in groups then met else met + [k],
                     groups[k := (if k in groups then groups[k] else []) + [items[n]]], n + 1)
  {
    var k := keys[n];
    if k !in groups {
      KeysMetHolds(keys, n);
      assert !Met(keys, k, n);
      NoneGathered(items, keys, k, n);
    }
  }

  /** `groups[k].append(x)`: a new list if the key is new. */
  method Append<K(==), T>(met0: seq<K>, groups0: map<K, seq<T>>, k: K, x: T)
    returns (met: seq<K>, groups: map<K, seq<T>>)
    ensures met == if k in groups0 then met0 else met0 + [k]
    ensures groups == groups0[k := (if k in groups0 then groups0[k] else []) + [x]]
  {
    met, groups := met0, groups0;
    if k !in groups {
      met, groups := met + [k], groups[k := []];
    }
    groups := groups[k := groups[k] + [x]];
  }

  lemma {:induction false} NoneGathered<K, T>(items: seq<T>, keys: seq<K>, k: K, n: nat)
    requires n <= |keys| == |items| && forall i :: 0 <= i < n ==> keys[i] != k
    ensures Gather(items, keys, k, n) == []
  {
    if n > 0 { NoneGathered(items, keys, k, n - 1); }
  }

  // ------------------------------------------------------ what the lists come to

  ghost predicate Listed(lists: seq<seq<nat>>, k: nat, i: nat) {
    k < |lists| && i in lists[k]
  }

  ghost predicate InSomeList(lists: seq<seq<nat>>, i: nat) {
    exists k: nat :: Listed(lists, k, i)
  }

  /** `lists` are the components of `0..n`: each index in one list, each list in order. */
  ghost predicate Components(n: nat, linked: (nat, nat) -> bool, lists: seq<seq<nat>>) {
    (forall k :: 0 <= k < |lists| ==> lists[k] != [] && Ascending(lists[k])) &&
    (forall i: nat :: InSomeList(lists, i) <==> i < n) &&
    forall k: nat, l: nat, i: nat, j: nat :: Listed(lists, k, i) && Listed(lists, l, j) ==> (k == l <==> linked(i, j))
  }

  ghost function ListsByKey<K>(keys: seq<K>, met: seq<K>): (lists: seq<seq<nat>>)
    ensures |lists| == |met| && forall k :: 0 <= k < |met| ==> lists[k] == WithKey(keys, met[k], |keys|)
  {
    seq(|met|, k requires 0 <= k < |met| => WithKey(keys, met[k], |keys|))
  }

  lemma ListedByKey<K>(keys: seq<K>, met: seq<K>, k: nat, i: nat)
    ensures Listed(ListsByKey(keys, met), k, i) <==> k < |met| && i < |keys| && keys[i] == met[k]
  {
    if k < |met| { WithKeyHolds(keys, met[k], |keys|); }
  }

  lemma EveryIndexListed<K>(keys: seq<K>, met: seq<K>, i: nat)
    requires met == KeysMet(keys, |keys|)
    ensures InSomeList(ListsByKey(keys, met), i) <==> i < |keys|
  {
    KeysMetHolds(keys, |keys|);
    if i < |keys| {
      assert Met(keys, keys[i], |keys|);
      var k: nat :| k < |met| && met[k] == keys[i];
      ListedByKey(keys, met, k, i);
    } else if InSomeList(ListsByKey(keys, met), i) {
      var k: nat :| Listed(ListsByKey(keys, met), k, i);
      ListedByKey(keys, met, k, i);
    }
  }

  /** Where equal keys mean "linked", the lists are the components. */
  lemma ListsAreComponents<K>(keys: seq<K>, met: seq<K>, linked: (nat, nat) -> bool)
    requires met == KeysMet(keys, |keys|)
    requires forall i: nat, j: nat :: i < |keys| && j < |keys| ==> (keys[i] == keys[j] <==> linked(i, j))
    ensures Components(|keys|, linked, ListsByKey(keys, met))
  {
    var lists := ListsByKey(keys, met);
    KeysMetHolds(keys, |keys|);
    forall k | 0 <= k < |lists| ensures lists[k] != [] && Ascending(lists[k]) {
      WithKeyHolds(keys, met[k], |keys|);
      assert met[k] in met && Met(keys, met[k], |keys|);
      var i: nat :| i < |keys| && keys[i] == met[k];
      assert i in lists[k];
    }
    forall i: nat ensures InSomeList(lists, i) <==> i < |keys| {
      EveryIndexListed(keys, met, i);
    }
    forall k: nat, l: nat, i: nat, j: nat | Listed(lists, k, i) && Listed(lists, l, j)
      ensures k == l <==> linked(i, j)
    {
      ListedByKey(keys, met, k, i);
      ListedByKey(keys, met, l, j);
    }
  }
}
