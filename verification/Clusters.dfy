/**
 Merging a feature's segments (topo/build_place_registry.py, `clusters_of`).

 The code finds the groups of a chained "within MERGE_GAP_DEG" relation by
 union-find with path halving, fed by a west-to-east sweep that stops early.
 The theorem is that its lists are exactly the connected components.
 */
module Clusters {
  import Sorting
  import opened Grouping

  const MERGE_GAP_DEG := 0.05

  datatype Bbox = Bbox(west: real, south: real, east: real, north: real)

  /** As `bbox_of` makes one: from the least to the greatest longitude. */
  predicate WellFormed(b: Bbox) {
    b.west <= b.east
  }

  /** Two boxes within MERGE_GAP_DEG of each other, each way. */
  predicate Touch(a: Bbox, b: Bbox) {
    a.west <= b.east + MERGE_GAP_DEG && b.west <= a.east + MERGE_GAP_DEG &&
    a.south <= b.north + MERGE_GAP_DEG && b.south <= a.north + MERGE_GAP_DEG
  }

  // ------------------------------------------------------------ the components

  ghost predicate Chain(boxes: seq<Bbox>, path: seq<nat>) {
    path != [] && (forall k :: 0 <= k < |path| ==> path[k] < |boxes|) &&
    forall k :: 0 <= k < |path| - 1 ==> Touch(boxes[path[k]], boxes[path[k + 1]])
  }

  /** `i` and `j` are chained by touching boxes. */
  ghost predicate Linked(boxes: seq<Bbox>, i: nat, j: nat) {
    exists path :: Chain(boxes, path) && path[0] == i && path[|path| - 1] == j
  }

  lemma LinkedSelf(boxes: seq<Bbox>, i: nat)
    requires i < |boxes|
    ensures Linked(boxes, i, i)
  {
    assert Chain(boxes, [i]);
  }

  lemma LinkedPair(boxes: seq<Bbox>, i: nat, j: nat)
    requires i < |boxes| && j < |boxes| && Touch(boxes[i], boxes[j])
    ensures Linked(boxes, i, j)
  {
    assert Chain(boxes, [i, j]);
  }

  lemma LinkedJoin(boxes: seq<Bbox>, i: nat, j: nat, k: nat)
    requires Linked(boxes, i, j) && Linked(boxes, j, k)
    ensures Linked(boxes, i, k)
  {
    var p :| Chain(boxes, p) && p[0] == i && p[|p| - 1] == j;
    var q :| Chain(boxes, q) && q[0] == j && q[|q| - 1] == k;
    assert Chain(boxes, p + q[1..]);
  }

  lemma LinkedBack(boxes: seq<Bbox>, i: nat, j: nat)
    requires Linked(boxes, i, j)
    ensures Linked(boxes, j, i)
  {
    var p :| Chain(boxes, p) && p[0] == i && p[|p| - 1] == j;
    var q := seq(|p|, k requires 0 <= k < |p| => p[|p| - 1 - k]);
    forall k | 0 <= k < |q| - 1 ensures Touch(boxes[q[k]], boxes[q[k + 1]]) {
      assert Touch(boxes[p[|p| - 2 - k]], boxes[p[|p| - 2 - k + 1]]);
    }
    assert Chain(boxes, q);
  }

  // ------------------------------------------------------------- the union-find

  /** One node of a forest: `rep` names its root, and `depth` falls on the way there. */
  ghost predicate Node(parent: seq<nat>, rep: seq<nat>, depth: seq<nat>, i: nat)
    requires i < |parent| && |rep| == |parent| && |depth| == |parent|
  {
    var p, r := parent[i], rep[i];
    p < |parent| && r < |parent| && rep[p] == r && rep[r] == r && parent[r] == r &&
    (r == i ==> p == i) && (p != i ==> depth[p] < depth[i]) && (p == i ==> r == i)
  }

  ghost predicate Forest(parent: seq<nat>, rep: seq<nat>, depth: seq<nat>) {
    |rep| == |parent| && |depth| == |parent| &&
    forall i: nat :: i < |parent| ==> Node(parent, rep, depth, i)
  }

  /** Halving: a node moved up to its grandparent stays in its tree. */
  lemma HalvingKeepsForest(parent: seq<nat>, rep: seq<nat>, depth: seq<nat>, i: nat)
    requires Forest(parent, rep, depth) && i < |parent| && parent[i] != i
    ensures parent[i] < |parent| && parent[parent[i]] < |parent|
    ensures Forest(parent[i := parent[parent[i]]], rep, depth)
    ensures depth[parent[parent[i]]] < depth[i] && rep[parent[parent[i]]] == rep[i]
  {
    assert Node(parent, rep, depth, i);
    assert Node(parent, rep, depth, parent[i]);
    var parent' := parent[i := parent[parent[i]]];
    forall k: nat | k < |parent| ensures Node(parent', rep, depth, k) {
      assert Node(parent, rep, depth, k) && Node(parent, rep, depth, rep[k]);
      assert Node(parent, rep, depth, parent[parent[i]]);
    }
  }

  /** `root`: the walk up, halving the path as it goes. It moves no node to another tree. */
  method Root(parent: array<nat>, start: nat, ghost rep: seq<nat>, ghost depth: seq<nat>) returns (i: nat)
    requires start < parent.Length && Forest(parent[..], rep, depth)
    modifies parent
    ensures Forest(parent[..], rep, depth)
    ensures i == rep[start] && i < parent.Length && parent[i] == i
  {
    i := start;
    assert Node(parent[..], rep, depth, start);
    while parent[i] != i
      invariant i < parent.Length && rep[i] == rep[start]
      invariant Forest(parent[..], rep, depth)
      decreases depth[i]
    {
      ghost var was := parent[..];
      HalvingKeepsForest(was, rep, depth, i);
      assert was[i] == parent[i] && was[was[i]] == parent[parent[i]];
      parent[i] := parent[parent[i]];
      assert parent[..] == was[i := was[was[i]]];
      i := parent[i];
    }
    assert Node(parent[..], rep, depth, i);
  }

  /** The roots after the tree of `a` is hung under the root `b`. */
  ghost function Merged(rep: seq<nat>, a: nat, b: nat): (rep': seq<nat>)
    ensures |rep'| == |rep| && forall i :: 0 <= i < |rep| ==> rep'[i] == if rep[i] == a then b else rep[i]
  {
    seq(|rep|, i requires 0 <= i < |rep| => if rep[i] == a then b else rep[i])
  }

  ghost function Deeper(rep: seq<nat>, depth: seq<nat>, a: nat, b: nat): (depth': seq<nat>)
    requires |depth| == |rep| && b < |rep|
    ensures |depth'| == |rep| &&
            forall i :: 0 <= i < |rep| ==> depth'[i] == if rep[i] == a then depth[i] + depth[b] + 1 else depth[i]
  {
    seq(|rep|, i requires 0 <= i < |rep| => if rep[i] == a then depth[i] + depth[b] + 1 else depth[i])
  }

  lemma HangingKeepsForest(parent: seq<nat>, rep: seq<nat>, depth: seq<nat>, a: nat, b: nat)
    requires Forest(parent, rep, depth) && a < |parent| && b < |parent| && rep[a] == a && rep[b] == b && a != b
    ensures Forest(parent[a := b], Merged(rep, a, b), Deeper(rep, depth, a, b))
  {
    var parent', rep', depth' := parent[a := b], Merged(rep, a, b), Deeper(rep, depth, a, b);
    assert Node(parent, rep, depth, a) && Node(parent, rep, depth, b);
    forall i: nat | i < |parent| ensures Node(parent', rep', depth', i) {
      assert Node(parent, rep, depth, i);
    }
  }

  /** `parent[root(a)] = root(b)`: the two trees become one, and no other changes. */
  method Union(parent: array<nat>, a: nat, b: nat, ghost rep: seq<nat>, ghost depth: seq<nat>)
    returns (ghost rep': seq<nat>, ghost depth': seq<nat>)
    requires a < parent.Length && b < parent.Length && Forest(parent[..], rep, depth)
    modifies parent
    ensures Forest(parent[..], rep', depth') && rep' == Merged(rep, rep[a], rep[b])
  {
    var rb := Root(parent, b, rep, depth);
    var ra := Root(parent, a, rep, depth);
    ghost var was := parent[..];
    assert Node(was, rep, depth, a) && Node(was, rep, depth, b) && Node(was, rep, depth, ra);
    rep' := Merged(rep, ra, rb);
    parent[ra] := rb;
    assert parent[..] == was[ra := rb];
    if ra == rb {
      assert rep' == rep && was[ra := rb] == was;
      depth' := depth;
    } else {
      HangingKeepsForest(was, rep, depth, ra, rb);
      depth' := Deeper(rep, depth, ra, rb);
    }
  }

  // ------------------------------------------------------------------ the sweep

  /** One tree never spans two components. */
  ghost predicate Sound(boxes: seq<Bbox>, rep: seq<nat>) {
    |rep| == |boxes| && forall i: nat, j: nat :: i < |rep| && j < |rep| && rep[i] == rep[j] ==> Linked(boxes, i, j)
  }

  lemma UnionIsSound(boxes: seq<Bbox>, rep: seq<nat>, a: nat, b: nat)
    requires Sound(boxes, rep) && a < |rep| && b < |rep| && Touch(boxes[a], boxes[b])
    ensures Sound(boxes, Merged(rep, rep[a], rep[b]))
  {
    var rep' := Merged(rep, rep[a], rep[b]);
    LinkedPair(boxes, a, b);
    LinkedPair(boxes, b, a);
    forall i: nat, j: nat | i < |rep| && j < |rep| && rep'[i] == rep'[j] ensures Linked(boxes, i, j) {
      if rep[i] == rep[a] && rep[j] == rep[b] {
        LinkedJoin(boxes, i, a, b);
        LinkedJoin(boxes, i, b, j);
      } else if rep[i] == rep[b] && rep[j] == rep[a] {
        LinkedJoin(boxes, i, b, a);
        LinkedJoin(boxes, i, a, j);
      }
    }
  }

  function West(boxes: seq<Bbox>, i: nat): real {
    if i < |boxes| then boxes[i].west else 0.0
  }

  /** `order`: every index, west edge first. */
  ghost predicate Sweep(boxes: seq<Bbox>, order: seq<nat>) {
    (forall i: nat :: i < |boxes| <==> i in order) && |order| == |boxes| && Distinct(order) &&
    forall p, q :: 0 <= p < q < |order| ==> West(boxes, order[p]) <= West(boxes, order[q])
  }

  lemma {:induction false} DistinctIsOnce(xs: seq<nat>, v: nat)
    requires Distinct(xs)
    ensures multiset(xs)[v] <= 1
  {
    if xs != [] {
      var init, last := xs[..|xs| - 1], xs[|xs| - 1];
      assert xs == init + [last];
      DistinctIsOnce(init, v);
      if v == last { assert v !in init; }
    }
  }

  /** What is the same up to order repeats nothing either. */
  lemma RearrangedIsDistinct(xs: seq<nat>, ys: seq<nat>)
    requires multiset(xs) == multiset(ys) && Distinct(ys)
    ensures Distinct(xs)
  {
    forall p, q | 0 <= p < q < |xs| ensures xs[p] != xs[q] {
      DistinctIsOnce(ys, xs[p]);
      assert xs == xs[..q] + xs[q..];
      assert xs[p] in xs[..q] && xs[q] in xs[q..];
    }
  }

  method WestOrder(boxes: seq<Bbox>) returns (order: seq<nat>)
    ensures Sweep(boxes, order)
  {
    var all: seq<nat> := seq(|boxes|, i => i);
    order := Sorting.Sorted(all, (i: nat, j: nat) => West(boxes, i) <= West(boxes, j));
    forall i: nat ensures i < |boxes| <==> i in order {
      assert i in order <==> i in multiset(order);
      assert i in all <==> i in multiset(all);
      assert i < |boxes| ==> all[i] == i;
    }
    RearrangedIsDistinct(order, all);
    assert |multiset(order)| == |order| && |multiset(all)| == |all|;
  }

  /** Every box that touches `order[p]` and comes after it, up to place `end`, is in its tree. */
  ghost predicate SweptFrom(boxes: seq<Bbox>, order: seq<nat>, rep: seq<nat>, p: nat, end: int) {
    |rep| == |boxes| && (forall q :: 0 <= q < |order| ==> order[q] < |boxes|) &&
    forall q :: p < q < end <= |order| && Touch(boxes[order[p]], boxes[order[q]]) ==> rep[order[p]] == rep[order[q]]
  }

  /** The early `break`: past a box that starts beyond the gap, none can touch. */
  lemma BreakLosesNothing(boxes: seq<Bbox>, order: seq<nat>, rep: seq<nat>, p: nat, q: nat)
    requires Sweep(boxes, order) && p < q < |order| && SweptFrom(boxes, order, rep, p, q)
    requires boxes[order[q]].west > boxes[order[p]].east + MERGE_GAP_DEG
    ensures SweptFrom(boxes, order, rep, p, |order|)
  {
    forall k | q <= k < |order| ensures !Touch(boxes[order[p]], boxes[order[k]]) {
      assert West(boxes, order[q]) <= West(boxes, order[k]);
    }
  }

  /** The test in the loop is `Touch`, given the order and the westward test before it. */
  lemma LoopTestIsTouch(boxes: seq<Bbox>, order: seq<nat>, p: nat, q: nat)
    requires Sweep(boxes, order) && p < q < |order| && order[p] < |boxes| && order[q] < |boxes|
    requires WellFormed(boxes[order[q]])
    requires boxes[order[q]].west <= boxes[order[p]].east + MERGE_GAP_DEG
    ensures var a, b := boxes[order[p]], boxes[order[q]];
            Touch(a, b) <==> b.south <= a.north + MERGE_GAP_DEG && b.north >= a.south - MERGE_GAP_DEG
  {
    assert West(boxes, order[p]) <= West(boxes, order[q]);
  }

  /** One turn of the sweep: `order[p]` is joined to every later box that touches it. */
  method SweepOne(boxes: seq<Bbox>, order: seq<nat>, p: nat, parent: array<nat>,
                  ghost rep0: seq<nat>, ghost depth0: seq<nat>)
    returns (ghost rep: seq<nat>, ghost depth: seq<nat>)
    requires forall i :: 0 <= i < |boxes| ==> WellFormed(boxes[i])
    requires Sweep(boxes, order) && p < |order| && parent.Length == |boxes|
    requires Forest(parent[..], rep0, depth0) && Sound(boxes, rep0)
    modifies parent
    ensures Forest(parent[..], rep, depth) && Sound(boxes, rep)
    ensures SweptFrom(boxes, order, rep, p, |order|)
    ensures forall i, j :: 0 <= i < |boxes| && 0 <= j < |boxes| && rep0[i] == rep0[j] ==> rep[i] == rep[j]
  {
    rep, depth := rep0, depth0;
    forall q | 0 <= q < |order| ensures order[q] < |boxes| { assert order[q] in order; }
    var a := order[p];
    for q := p + 1 to |order|
      invariant Forest(parent[..], rep, depth) && Sound(boxes, rep) && SweptFrom(boxes, order, rep, p, q)
      invariant forall i, j :: 0 <= i < |boxes| && 0 <= j < |boxes| && rep0[i] == rep0[j] ==> rep[i] == rep[j]
    {
      var b := order[q];
      if boxes[b].west > boxes[a].east + MERGE_GAP_DEG {
        BreakLosesNothing(boxes, order, rep, p, q);
        break;
      }
      LoopTestIsTouch(boxes, order, p, q);
      if boxes[b].south <= boxes[a].north + MERGE_GAP_DEG && boxes[b].north >= boxes[a].south - MERGE_GAP_DEG {
        UnionIsSound(boxes, rep, a, b);
        rep, depth := Union(parent, a, b, rep, depth);
      }
    }
  }

  /** Swept end to end, two boxes share a root exactly when a chain joins them. */
  lemma {:induction false} ChainSharesRoot(boxes: seq<Bbox>, rep: seq<nat>, path: seq<nat>)
    requires |rep| == |boxes| && Chain(boxes, path)
    requires forall i, j :: 0 <= i < |boxes| && 0 <= j < |boxes| && Touch(boxes[i], boxes[j]) ==> rep[i] == rep[j]
    ensures rep[path[0]] == rep[path[|path| - 1]]
    decreases |path|
  {
    if |path| > 1 {
      assert Touch(boxes[path[0]], boxes[path[0 + 1]]);
      forall k | 0 <= k < |path[1..]| - 1 ensures Touch(boxes[path[1..][k]], boxes[path[1..][k + 1]]) {
        assert Touch(boxes[path[k + 1]], boxes[path[k + 1 + 1]]);
      }
      ChainSharesRoot(boxes, rep, path[1..]);
    }
  }

  ghost predicate RootsAreComponents(boxes: seq<Bbox>, rep: seq<nat>) {
    |rep| == |boxes| && forall i: nat, j: nat :: i < |rep| && j < |rep| ==> (rep[i] == rep[j] <==> Linked(boxes, i, j))
  }

  lemma SweptRootsAreComponents(boxes: seq<Bbox>, order: seq<nat>, rep: seq<nat>)
    requires Sweep(boxes, order) && Sound(boxes, rep)
    requires forall p :: 0 <= p < |order| ==> SweptFrom(boxes, order, rep, p, |order|)
    ensures RootsAreComponents(boxes, rep)
  {
    forall i, j | 0 <= i < |boxes| && 0 <= j < |boxes| && Touch(boxes[i], boxes[j]) ensures rep[i] == rep[j] {
      assert i in order && j in order;
      var p :| 0 <= p < |order| && order[p] == i;
      var q :| 0 <= q < |order| && order[q] == j;
      assert SweptFrom(boxes, order, rep, p, |order|) && SweptFrom(boxes, order, rep, q, |order|);
    }
    forall i: nat, j: nat | i < |rep| && j < |rep| && Linked(boxes, i, j) ensures rep[i] == rep[j] {
      var path :| Chain(boxes, path) && path[0] == i && path[|path| - 1] == j;
      ChainSharesRoot(boxes, rep, path);
    }
  }

  /** The two loops: on return `parent` holds one tree for each component. */
  method SweepAll(boxes: seq<Bbox>) returns (parent: array<nat>, ghost rep: seq<nat>, ghost depth: seq<nat>)
    requires forall i :: 0 <= i < |boxes| ==> WellFormed(boxes[i])
    ensures fresh(parent) && parent.Length == |boxes| && Forest(parent[..], rep, depth)
    ensures RootsAreComponents(boxes, rep)
  {
    parent := new nat[|boxes|](i => i);
    rep, depth := seq(|boxes|, i => i), seq(|boxes|, i => 0);
    forall i: nat, j: nat | i < |rep| && j < |rep| && rep[i] == rep[j] ensures Linked(boxes, i, j) {
      LinkedSelf(boxes, i);
    }
    var order := WestOrder(boxes);
    for p := 0 to |order|
      invariant Forest(parent[..], rep, depth) && Sound(boxes, rep)
      invariant forall k :: 0 <= k < p ==> SweptFrom(boxes, order, rep, k, |order|)
    {
      ghost var rep0 := rep;
      rep, depth := SweepOne(boxes, order, p, parent, rep, depth);
      forall k | 0 <= k < p ensures SweptFrom(boxes, order, rep, k, |order|) {
        assert SweptFrom(boxes, order, rep0, k, |order|);
      }
    }
    SweptRootsAreComponents(boxes, order, rep);
  }

  // --------------------------------------------------------- the lists returned

  /** The last loop of `clusters_of`: members filed under their roots. */
  method FileByRoot<T>(members: seq<T>, parent: array<nat>, ghost rep: seq<nat>, ghost depth: seq<nat>)
    returns (keys: seq<nat>, lists: map<nat, seq<T>>)
    requires parent.Length == |members| && Forest(parent[..], rep, depth)
    modifies parent
    ensures Gathered(members, rep, keys, lists, |members|)
  {
    keys, lists := [], map[];
    for i := 0 to |members|
      invariant Forest(parent[..], rep, depth) && Gathered(members, rep, keys, lists, i)
    {
      var r := Root(parent, i, rep, depth);
      GatherOne(members, rep, keys, lists, i);
      keys, lists := Append(keys, lists, r, members[i]);
    }
  }

  /** The clusters are the members at `at`, and `at` the components of "chained by touching boxes". */
  ghost predicate ClustersAt<T>(members: seq<T>, boxes: seq<Bbox>, at: seq<seq<nat>>, clusters: seq<seq<T>>)
    requires |members| == |boxes|
  {
    Components(|members|, (i: nat, j: nat) => Linked(boxes, i, j), at) &&
    |clusters| == |at| && forall k :: 0 <= k < |at| ==> Picked(members, at[k], clusters[k])
  }

  /** `clusters_of`: the members of each component. */
  method ClustersOf<T>(members: seq<T>, boxes: seq<Bbox>) returns (clusters: seq<seq<T>>)
    requires |members| == |boxes| && forall i :: 0 <= i < |boxes| ==> WellFormed(boxes[i])
    ensures exists at :: ClustersAt(members, boxes, at, clusters)
  {
    var parent;
    ghost var rep, depth;
    parent, rep, depth := SweepAll(boxes);
    var keys, lists := FileByRoot(members, parent, rep, depth);
    clusters := seq(|keys|, k requires 0 <= k < |keys| && keys[k] in lists => lists[keys[k]]);
    ghost var at := ListsByKey(rep, keys);
    ListsAreComponents(rep, keys, (i: nat, j: nat) => Linked(boxes, i, j));
    forall k | 0 <= k < |at| ensures Picked(members, at[k], clusters[k]) {
      GatherIsPick(members, rep, keys[k], |members|);
    }
    assert ClustersAt(members, boxes, at, clusters);
  }
}
