/** Python's `sorted`, for an order that is total. */
module Sorting {

  ghost predicate TotalPreorder<T(!new)>(leq: (T, T) -> bool) {
    (forall a, b :: leq(a, b) || leq(b, a)) &&
    forall a, b, c :: leq(a, b) && leq(b, c) ==> leq(a, c)
  }

  ghost predicate SortedBy<T>(xs: seq<T>, leq: (T, T) -> bool) {
    forall i, j :: 0 <= i < j < |xs| ==> leq(xs[i], xs[j])
  }

  /** Puts `x` after the entries no greater than it, so equal entries keep their order. */
  function Insert<T(!new)>(x: T, xs: seq<T>, leq: (T, T) -> bool): (ys: seq<T>)
    requires TotalPreorder(leq) && SortedBy(xs, leq)
    ensures SortedBy(ys, leq) && multiset(ys) == multiset(xs) + multiset{x}
    ensures forall y :: y in ys ==> y == x || y in xs
  {
    if xs == [] then [x]
    else if leq(xs[|xs| - 1], x) then xs + [x]
    else
      var init := Insert(x, xs[..|xs| - 1], leq);
      assert xs == xs[..|xs| - 1] + [xs[|xs| - 1]];
      assert forall i :: 0 <= i < |init| ==> init[i] in init && leq(init[i], xs[|xs| - 1]);
      init + [xs[|xs| - 1]]
  }

  function Sorted<T(!new)>(xs: seq<T>, leq: (T, T) -> bool): (ys: seq<T>)
    requires TotalPreorder(leq)
    ensures SortedBy(ys, leq) && multiset(ys) == multiset(xs)
  {
    if xs == [] then []
    else
      assert xs == xs[..|xs| - 1] + [xs[|xs| - 1]];
      Insert(xs[|xs| - 1], Sorted(xs[..|xs| - 1], leq), leq)
  }

  predicate AreTied<T>(leq: (T, T) -> bool, a: T, b: T) {
    leq(a, b) && leq(b, a)
  }

  /** The entries tied with `z`, in order. */
  ghost function TiedWith<T>(xs: seq<T>, leq: (T, T) -> bool, z: T): seq<T> {
    if xs == [] then []
    else TiedWith(xs[..|xs| - 1], leq, z) + if AreTied(leq, xs[|xs| - 1], z) then [xs[|xs| - 1]] else []
  }

  lemma TiedOfLast<T>(xs: seq<T>, x: T, leq: (T, T) -> bool, z: T)
    ensures TiedWith(xs + [x], leq, z) == TiedWith(xs, leq, z) + if AreTied(leq, x, z) then [x] else []
  {
    assert (xs + [x])[..|xs|] == xs;
  }

  lemma GreaterIsNotTied<T(!new)>(x: T, last: T, leq: (T, T) -> bool, z: T)
    requires TotalPreorder(leq) && !leq(last, x)
    ensures !(AreTied(leq, x, z) && AreTied(leq, last, z))
  {
  }

  lemma {:induction false} InsertKeepsTies<T(!new)>(x: T, xs: seq<T>, leq: (T, T) -> bool, z: T)
    requires TotalPreorder(leq) && SortedBy(xs, leq)
    ensures TiedWith(Insert(x, xs, leq), leq, z) == TiedWith(xs, leq, z) + if AreTied(leq, x, z) then [x] else []
  {
    TiedOfLast(xs, x, leq, z);
    if xs != [] && !leq(xs[|xs| - 1], x) {
      var init, last := xs[..|xs| - 1], xs[|xs| - 1];
      InsertKeepsTies(x, init, leq, z);
      TiedOfLast(Insert(x, init, leq), last, leq, z);
      GreaterIsNotTied(x, last, leq, z);
    }
  }

  /** The sort is stable: entries it cannot tell apart keep their order. */
  lemma {:induction false} SortedIsStable<T(!new)>(xs: seq<T>, leq: (T, T) -> bool, z: T)
    requires TotalPreorder(leq)
    ensures TiedWith(Sorted(xs, leq), leq, z) == TiedWith(xs, leq, z)
  {
    if xs != [] {
      var init, last := xs[..|xs| - 1], xs[|xs| - 1];
      SortedIsStable(init, leq, z);
      InsertKeepsTies(last, Sorted(init, leq), leq, z);
    }
  }
}
