/**
 One row per feature (topo/build_place_registry.py, `merge`).

 Raws are grouped by name and kind, each group is clustered, and each cluster
 becomes a row. The theorem is about the whole list: the rows are the connected
 components of "same group, and boxes within the gap", and each stands on a
 member point.
 */
module PlaceMerge {
  import opened Clusters
  import opened Grouping
  import opened Common
  import Windows

  datatype Raw = Raw(name: string, kind: string, lon: real, lat: real,
                     alternates: seq<string>, bbox: Bbox, line: bool)

  /** What members of a group share. A line goes by its kind's key: `waterway`, say. */
  datatype Key = Key(name: string, kind: string, line: bool)

  function BeforeEquals(kind: string): string {
    if kind == "" || kind[0] == '=' then "" else [kind[0]] + BeforeEquals(kind[1..])
  }

  function KeyOf(raw: Raw): Key {
    Key(raw.name, if raw.line then BeforeEquals(raw.kind) else raw.kind, raw.line)
  }

  // ------------------------------------------------------- components of it all

  /** `key` is what `kind` has before its first '=', or the whole of one without. */
  predicate HasKindKey(kind: string, key: string) {
    '=' !in key && |key| <= |kind| && kind[..|key|] == key && (kind == key || kind[|key|] == '=')
  }

  ghost predicate ShareKindKey(a: string, b: string) {
    exists key :: HasKindKey(a, key) && HasKindKey(b, key)
  }

  /** Two objects may be one feature: one name, and both lines of one kind key, or neither a line and
      of one kind. */
  ghost predicate Alike(a: Raw, b: Raw) {
    a.name == b.name && a.line == b.line && (if a.line then ShareKindKey(a.kind, b.kind) else a.kind == b.kind)
  }

  ghost predicate Merges(a: Raw, b: Raw) {
    Alike(a, b) && Touch(a.bbox, b.bbox)
  }

  lemma {:induction false} BeforeEqualsIsKindKey(kind: string, key: string)
    ensures HasKindKey(kind, BeforeEquals(kind))
    ensures HasKindKey(kind, key) ==> key == BeforeEquals(kind)
  {
    if kind != "" && kind[0] != '=' {
      BeforeEqualsIsKindKey(kind[1..], if key == "" then "" else key[1..]);
      assert kind == [kind[0]] + kind[1..];
      if HasKindKey(kind, key) {
        assert key != "";
        assert key == [key[0]] + key[1..] && kind[..|key|][1..] == kind[1..][..|key| - 1];
        assert HasKindKey(kind[1..], key[1..]);
      }
    }
  }

  /** The group's key is the same exactly for objects that may be one feature. */
  lemma AlikeIsSameKey(a: Raw, b: Raw)
    ensures Alike(a, b) <==> KeyOf(a) == KeyOf(b)
  {
    if a.line && b.line {
      BeforeEqualsIsKindKey(a.kind, "");
      BeforeEqualsIsKindKey(b.kind, "");
      if ShareKindKey(a.kind, b.kind) {
        var key :| HasKindKey(a.kind, key) && HasKindKey(b.kind, key);
        BeforeEqualsIsKindKey(a.kind, key);
        BeforeEqualsIsKindKey(b.kind, key);
      }
    }
  }

  ghost predicate RawChain(raws: seq<Raw>, path: seq<nat>) {
    path != [] && (forall k :: 0 <= k < |path| ==> path[k] < |raws|) &&
    forall k :: 0 <= k < |path| - 1 ==> Merges(raws[path[k]], raws[path[k + 1]])
  }

  /** A chain of merging raws leads from `i` to `j`. */
  ghost predicate SameFeature(raws: seq<Raw>, i: nat, j: nat) {
    exists path :: RawChain(raws, path) && path[0] == i && path[|path| - 1] == j
  }

  /** A chain never leaves its group. */
  lemma {:induction false} ChainKeepsKey(raws: seq<Raw>, path: seq<nat>, k: nat)
    requires RawChain(raws, path) && k < |path|
    ensures KeyOf(raws[path[k]]) == KeyOf(raws[path[0]])
  {
    if k > 0 {
      ChainKeepsKey(raws, path, k - 1);
      assert Merges(raws[path[k - 1]], raws[path[k - 1 + 1]]);
      AlikeIsSameKey(raws[path[k - 1]], raws[path[k]]);
    }
  }

  /** What merging never crosses: a name, a line and what is not one, two lines' kind keys, the kinds of
      two that are not lines. */
  lemma SameFeatureIsAlike(raws: seq<Raw>, i: nat, j: nat)
    requires i < |raws| && j < |raws| && SameFeature(raws, i, j)
    ensures Alike(raws[i], raws[j])
  {
    var path :| RawChain(raws, path) && path[0] == i && path[|path| - 1] == j;
    ChainKeepsKey(raws, path, |path| - 1);
    AlikeIsSameKey(raws[i], raws[j]);
  }

  /** A street that is `residential` in town and `tertiary` beyond is one: two touching lines of one name
      whose kinds differ only past the '='. */
  lemma OneKeyMerges(raws: seq<Raw>, i: nat, j: nat, key: string, v: string, w: string)
    requires i < |raws| && j < |raws| && '=' !in key && raws[i].line && raws[j].line && raws[i].name == raws[j].name
    requires raws[i].kind == key + "=" + v && raws[j].kind == key + "=" + w && Touch(raws[i].bbox, raws[j].bbox)
    ensures SameFeature(raws, i, j)
  {
    assert HasKindKey(raws[i].kind, key) && HasKindKey(raws[j].kind, key);
    assert RawChain(raws, [i, j]);
  }

  /** And in the rows they stand in one list: one row. */
  lemma OneKeyIsOneRow(raws: seq<Raw>, at: seq<seq<nat>>, k: nat, l: nat, i: nat, j: nat,
                       key: string, v: string, w: string)
    requires Components(|raws|, (a: nat, b: nat) => SameFeature(raws, a, b), at) && Listed(at, k, i) && Listed(at, l, j)
    requires i < |raws| && j < |raws| && '=' !in key && raws[i].line && raws[j].line && raws[i].name == raws[j].name
    requires raws[i].kind == key + "=" + v && raws[j].kind == key + "=" + w && Touch(raws[i].bbox, raws[j].bbox)
    ensures k == l
  {
    OneKeyMerges(raws, i, j, key, v, w);
  }

  // ------------------------------------------------------------------ one group

  /** `group` lists, in order, the raws with key `key`. */
  ghost predicate IsGroup(raws: seq<Raw>, key: Key, group: seq<nat>) {
    Ascending(group) && forall i: nat :: i in group <==> i < |raws| && KeyOf(raws[i]) == key
  }

  function BoxesOf(raws: seq<Raw>): (boxes: seq<Bbox>)
    ensures |boxes| == |raws| && forall k :: 0 <= k < |raws| ==> boxes[k] == raws[k].bbox
  {
    seq(|raws|, k requires 0 <= k < |raws| => raws[k].bbox)
  }

  lemma GroupChainIsChain(raws: seq<Raw>, key: Key, group: seq<nat>, members: seq<Raw>, i: nat, j: nat)
    requires IsGroup(raws, key, group) && Picked(raws, group, members)
    requires i < |group| && j < |group| && Linked(BoxesOf(members), i, j)
    ensures SameFeature(raws, group[i], group[j])
  {
    var boxes := BoxesOf(members);
    var path :| Chain(boxes, path) && path[0] == i && path[|path| - 1] == j;
    var whole := seq(|path|, k requires 0 <= k < |path| => group[path[k]]);
    forall k | 0 <= k < |whole| - 1 ensures Merges(raws[whole[k]], raws[whole[k + 1]]) {
      assert Touch(boxes[path[k]], boxes[path[k + 1]]);
      assert group[path[k]] in group && group[path[k + 1]] in group;
      AlikeIsSameKey(raws[whole[k]], raws[whole[k + 1]]);
    }
    assert RawChain(raws, whole);
  }

  ghost function PlaceIn(group: seq<nat>, i: nat): (k: nat)
    requires i in group
    ensures k < |group| && group[k] == i
  {
    var k: nat :| k < |group| && group[k] == i;
    k
  }

  lemma ChainIsGroupChain(raws: seq<Raw>, key: Key, group: seq<nat>, members: seq<Raw>, i: nat, j: nat)
    requires IsGroup(raws, key, group) && Picked(raws, group, members)
    requires i < |group| && j < |group| && SameFeature(raws, group[i], group[j])
    ensures Linked(BoxesOf(members), i, j)
  {
    var boxes := BoxesOf(members);
    var path :| RawChain(raws, path) && path[0] == group[i] && path[|path| - 1] == group[j];
    forall k | 0 <= k < |path| ensures path[k] in group {
      assert group[i] in group;
      ChainKeepsKey(raws, path, k);
    }
    var local := seq(|path|, k requires 0 <= k < |path| => PlaceIn(group, path[k]));
    forall k | 0 <= k < |local| - 1 ensures Touch(boxes[local[k]], boxes[local[k + 1]]) {
      assert Merges(raws[path[k]], raws[path[k + 1]]);
    }
    assert local[0] == i && local[|local| - 1] == j;
    assert Chain(boxes, local);
  }

  // ---------------------------------------------------------- all of the groups

  /** The components of the raws whose keys are in `done`. */
  ghost predicate ComponentsSoFar(raws: seq<Raw>, done: seq<Key>, lists: seq<seq<nat>>) {
    (forall k :: 0 <= k < |lists| ==> lists[k] != [] && Ascending(lists[k])) &&
    (forall i: nat :: InSomeList(lists, i) <==> i < |raws| && KeyOf(raws[i]) in done) &&
    forall k: nat, l: nat, i: nat, j: nat :: Listed(lists, k, i) && Listed(lists, l, j) ==>
      (k == l <==> SameFeature(raws, i, j))
  }

  ghost predicate AllBelow(at: seq<nat>, n: nat) {
    forall p :: 0 <= p < |at| ==> at[p] < n
  }

  ghost predicate PlacesBelow(lists: seq<seq<nat>>, n: nat) {
    forall k :: 0 <= k < |lists| ==> AllBelow(lists[k], n)
  }

  ghost function PickFrom<T>(xs: seq<T>, at: seq<nat>): (ys: seq<T>)
    requires AllBelow(at, |xs|)
    ensures Picked(xs, at, ys)
  {
    seq(|at|, p requires 0 <= p < |at| && at[p] < |xs| => xs[at[p]])
  }

  /** A group's own lists, as places in the whole list. */
  ghost function Lift(group: seq<nat>, local: seq<seq<nat>>): (lists: seq<seq<nat>>)
    requires PlacesBelow(local, |group|)
    ensures |lists| == |local|
    ensures forall k :: 0 <= k < |local| ==> Picked(group, local[k], lists[k])
  {
    seq(|local|, k requires 0 <= k < |local| && AllBelow(local[k], |group|) => PickFrom(group, local[k]))
  }

  /** Where in its group a listed raw stands. */
  lemma ListedInLift(group: seq<nat>, local: seq<seq<nat>>, k: nat, i: nat) returns (p: nat)
    requires PlacesBelow(local, |group|)
    requires Listed(Lift(group, local), k, i)
    ensures Listed(local, k, p) && group[p] == i
  {
    var at: nat :| at < |Lift(group, local)[k]| && Lift(group, local)[k][at] == i;
    p := local[k][at];
  }

  lemma LiftLists(group: seq<nat>, local: seq<seq<nat>>, k: nat, p: nat)
    requires PlacesBelow(local, |group|)
    requires Listed(local, k, p)
    ensures Listed(Lift(group, local), k, group[p])
  {
    var at: nat :| at < |local[k]| && local[k][at] == p;
    assert Lift(group, local)[k][at] == group[p];
  }

  lemma ListedInEither(a: seq<seq<nat>>, b: seq<seq<nat>>, k: nat, i: nat)
    ensures Listed(a + b, k, i) <==> if k < |a| then Listed(a, k, i) else Listed(b, k - |a|, i)
  {
  }

  ghost predicate GroupListed(raws: seq<Raw>, key: Key, group: seq<nat>, members: seq<Raw>, local: seq<seq<nat>>) {
    IsGroup(raws, key, group) && Picked(raws, group, members) &&
    Components(|members|, (i: nat, j: nat) => Linked(BoxesOf(members), i, j), local)
  }

  lemma LocalPlaces(n: nat, linked: (nat, nat) -> bool, local: seq<seq<nat>>)
    requires Components(n, linked, local)
    ensures PlacesBelow(local, n)
  {
    forall k, p | 0 <= k < |local| && 0 <= p < |local[k]| ensures local[k][p] < n {
      assert Listed(local, k, local[k][p]);
      assert InSomeList(local, local[k][p]);
    }
  }

  /** One group's lists are components of the whole. */
  lemma LiftedPair(raws: seq<Raw>, key: Key, group: seq<nat>, members: seq<Raw>, local: seq<seq<nat>>,
                   k: nat, l: nat, i: nat, j: nat)
    requires GroupListed(raws, key, group, members, local)
    requires PlacesBelow(local, |group|)
    requires Listed(Lift(group, local), k, i) && Listed(Lift(group, local), l, j)
    ensures i in group && j in group && (k == l <==> SameFeature(raws, i, j))
  {
    var p := ListedInLift(group, local, k, i);
    var q := ListedInLift(group, local, l, j);
    if Linked(BoxesOf(members), p, q) {
      GroupChainIsChain(raws, key, group, members, p, q);
    }
    if SameFeature(raws, i, j) {
      ChainIsGroupChain(raws, key, group, members, p, q);
    }
  }

  lemma LiftAscends(group: seq<nat>, local: seq<seq<nat>>, k: nat)
    requires PlacesBelow(local, |group|)
    requires Ascending(group) && k < |local| && Ascending(local[k])
    ensures Ascending(Lift(group, local)[k])
  {
    forall p, q | 0 <= p < q < |local[k]| ensures Lift(group, local)[k][p] < Lift(group, local)[k][q] {
      assert Listed(local, k, local[k][p]) && Listed(local, k, local[k][q]);
    }
  }

  lemma CrossPair(raws: seq<Raw>, i: nat, j: nat)
    requires i < |raws| && j < |raws| && KeyOf(raws[i]) != KeyOf(raws[j])
    ensures !SameFeature(raws, i, j)
  {
    if SameFeature(raws, i, j) {
      var path :| RawChain(raws, path) && path[0] == i && path[|path| - 1] == j;
      ChainKeepsKey(raws, path, |path| - 1);
    }
  }

  lemma PairInAll(raws: seq<Raw>, done: seq<Key>, lists: seq<seq<nat>>, key: Key,
                  group: seq<nat>, members: seq<Raw>, local: seq<seq<nat>>, k: nat, l: nat, i: nat, j: nat)
    requires ComponentsSoFar(raws, done, lists) && key !in done
    requires GroupListed(raws, key, group, members, local)
    requires PlacesBelow(local, |group|)
    requires Listed(lists, k, i) && Listed(Lift(group, local), l, j)
    ensures !SameFeature(raws, i, j) && !SameFeature(raws, j, i)
  {
    assert InSomeList(lists, i);
    LiftedPair(raws, key, group, members, local, l, l, j, j);
    CrossPair(raws, i, j);
    CrossPair(raws, j, i);
  }

  /** Adding a group's clusters to the ones found so far. */
  lemma AddGroup(raws: seq<Raw>, done: seq<Key>, lists: seq<seq<nat>>, key: Key,
                 group: seq<nat>, members: seq<Raw>, local: seq<seq<nat>>)
    requires ComponentsSoFar(raws, done, lists) && key !in done
    requires GroupListed(raws, key, group, members, local)
    requires PlacesBelow(local, |group|)
    ensures ComponentsSoFar(raws, done + [key], lists + Lift(group, local))
  {
    var lifted := Lift(group, local);
    var all := lists + lifted;
    forall k | 0 <= k < |all| ensures all[k] != [] && Ascending(all[k]) {
      if k >= |lists| { LiftAscends(group, local, k - |lists|); }
    }
    forall i: nat ensures InSomeList(all, i) <==> i < |raws| && KeyOf(raws[i]) in done + [key] {
      InAll(raws, done, lists, key, group, members, local, i);
    }
    forall k: nat, l: nat, i: nat, j: nat | Listed(all, k, i) && Listed(all, l, j)
      ensures k == l <==> SameFeature(raws, i, j)
    {
      PairStaysRight(raws, done, lists, key, group, members, local, k, l, i, j);
    }
  }

  lemma PairStaysRight(raws: seq<Raw>, done: seq<Key>, lists: seq<seq<nat>>, key: Key,
                       group: seq<nat>, members: seq<Raw>, local: seq<seq<nat>>, k: nat, l: nat, i: nat, j: nat)
    requires ComponentsSoFar(raws, done, lists) && key !in done
    requires GroupListed(raws, key, group, members, local) && PlacesBelow(local, |group|)
    requires Listed(lists + Lift(group, local), k, i) && Listed(lists + Lift(group, local), l, j)
    ensures k == l <==> SameFeature(raws, i, j)
  {
    var lifted := Lift(group, local);
    ListedInEither(lists, lifted, k, i);
    ListedInEither(lists, lifted, l, j);
    if k >= |lists| && l >= |lists| {
      LiftedPair(raws, key, group, members, local, k - |lists|, l - |lists|, i, j);
    } else if l >= |lists| {
      PairInAll(raws, done, lists, key, group, members, local, k, l - |lists|, i, j);
    } else if k >= |lists| {
      PairInAll(raws, done, lists, key, group, members, local, l, k - |lists|, j, i);
    }
  }

  lemma InAll(raws: seq<Raw>, done: seq<Key>, lists: seq<seq<nat>>, key: Key,
              group: seq<nat>, members: seq<Raw>, local: seq<seq<nat>>, i: nat)
    requires ComponentsSoFar(raws, done, lists) && GroupListed(raws, key, group, members, local)
    requires PlacesBelow(local, |group|)
    ensures InSomeList(lists + Lift(group, local), i) <==> i < |raws| && KeyOf(raws[i]) in done + [key]
  {
    var lifted := Lift(group, local);
    if InSomeList(lists + lifted, i) {
      var k: nat :| Listed(lists + lifted, k, i);
      ListedInEither(lists, lifted, k, i);
      if k < |lists| { assert InSomeList(lists, i); }
      else { LiftedPair(raws, key, group, members, local, k - |lists|, k - |lists|, i, i); }
    } else if i < |raws| && KeyOf(raws[i]) in done {
      assert InSomeList(lists, i);
      var k: nat :| Listed(lists, k, i);
      ListedInEither(lists, lifted, k, i);
    } else if i < |raws| && KeyOf(raws[i]) == key {
      var p := PlaceIn(group, i);
      assert InSomeList(local, p);
      var k: nat :| Listed(local, k, p);
      LiftLists(group, local, k, p);
      ListedInEither(lists, lifted, |lists| + k, i);
    }
  }

  // ------------------------------------------------------------------- one row

  function SumLon(cluster: seq<Raw>): real {
    if cluster == [] then 0.0 else SumLon(cluster[..|cluster| - 1]) + cluster[|cluster| - 1].lon
  }

  function SumLat(cluster: seq<Raw>): real {
    if cluster == [] then 0.0 else SumLat(cluster[..|cluster| - 1]) + cluster[|cluster| - 1].lat
  }

  /** The squared distance of a member's point from the members' mean. */
  function FromMean2(cluster: seq<Raw>, m: Raw): real
    requires cluster != []
  {
    var x, y := m.lon - SumLon(cluster) / |cluster| as real, m.lat - SumLat(cluster) / |cluster| as real;
    x * x + y * y
  }

  function CountKind(cluster: seq<Raw>, kind: string): nat {
    if cluster == [] then 0
    else CountKind(cluster[..|cluster| - 1], kind) + if cluster[|cluster| - 1].kind == kind then 1 else 0
  }

  ghost function Kinds(cluster: seq<Raw>): multiset<string> {
    multiset(seq(|cluster|, k requires 0 <= k < |cluster| => cluster[k].kind))
  }

  lemma {:induction false} CountIsMultiplicity(cluster: seq<Raw>, kind: string)
    ensures CountKind(cluster, kind) == Kinds(cluster)[kind]
  {
    if cluster != [] {
      var init, last := cluster[..|cluster| - 1], cluster[|cluster| - 1];
      CountIsMultiplicity(init, kind);
      assert seq(|cluster|, k requires 0 <= k < |cluster| => cluster[k].kind) ==
             seq(|init|, k requires 0 <= k < |init| => init[k].kind) + [last.kind];
      assert Kinds(cluster) == Kinds(init) + multiset{last.kind};
    }
  }

  // The mean, by what it is: the deviations from it add to nothing.

  ghost function Deviation(cluster: seq<Raw>, east: bool, mean: real): Windows.Line {
    (k: int) => if 0 <= k < |cluster| then (if east then cluster[k].lon else cluster[k].lat) - mean else 0.0
  }

  ghost predicate IsMean(cluster: seq<Raw>, lon: real, lat: real) {
    Windows.Sum(Deviation(cluster, true, lon), 0, |cluster|) == 0.0 &&
    Windows.Sum(Deviation(cluster, false, lat), 0, |cluster|) == 0.0
  }

  function Apart2(m: Raw, lon: real, lat: real): real {
    (m.lon - lon) * (m.lon - lon) + (m.lat - lat) * (m.lat - lat)
  }

  lemma {:induction false} DeviationsSum(cluster: seq<Raw>, lon: real, lat: real, n: nat)
    requires n <= |cluster|
    ensures Windows.Sum(Deviation(cluster, true, lon), 0, n) == SumLon(cluster[..n]) - n as real * lon
    ensures Windows.Sum(Deviation(cluster, false, lat), 0, n) == SumLat(cluster[..n]) - n as real * lat
  {
    if n > 0 {
      DeviationsSum(cluster, lon, lat, n - 1);
      assert cluster[..n][..n - 1] == cluster[..n - 1];
      assert n as real * lon == (n - 1) as real * lon + lon && n as real * lat == (n - 1) as real * lat + lat;
    }
  }

  lemma SumsGiveMean(cluster: seq<Raw>) returns (lon: real, lat: real)
    requires cluster != []
    ensures IsMean(cluster, lon, lat)
    ensures forall m :: FromMean2(cluster, m) == Apart2(m, lon, lat)
  {
    var n := |cluster| as real;
    lon, lat := SumLon(cluster) / n, SumLat(cluster) / n;
    DividedTimes(SumLon(cluster), n);
    DividedTimes(SumLat(cluster), n);
    DeviationsSum(cluster, lon, lat, |cluster|);
    assert cluster[..|cluster|] == cluster;
  }

  /** The first of the members nearest (`lon`, `lat`). */
  ghost predicate NearestTo(cluster: seq<Raw>, at: int, lon: real, lat: real) {
    0 <= at < |cluster| &&
    (forall k :: 0 <= k < |cluster| ==> Apart2(cluster[at], lon, lat) <= Apart2(cluster[k], lon, lat)) &&
    forall k :: 0 <= k < at ==> Apart2(cluster[at], lon, lat) < Apart2(cluster[k], lon, lat)
  }

  /** The member whose point a row takes is nearest the members' mean. */
  lemma NearestIsToTheMean(cluster: seq<Raw>, at: int)
    requires cluster != [] && NearestAt(cluster, at)
    ensures exists lon, lat :: IsMean(cluster, lon, lat) && NearestTo(cluster, at, lon, lat)
  {
    var lon, lat := SumsGiveMean(cluster);
    assert NearestTo(cluster, at, lon, lat);
  }

  /** The first of the members nearest the mean. */
  ghost predicate NearestAt(cluster: seq<Raw>, at: int)
    requires cluster != []
  {
    0 <= at < |cluster| &&
    (forall k :: 0 <= k < |cluster| ==> FromMean2(cluster, cluster[at]) <= FromMean2(cluster, cluster[k])) &&
    forall k :: 0 <= k < at ==> FromMean2(cluster, cluster[at]) < FromMean2(cluster, cluster[k])
  }

  /** The first member of a commonest kind. */
  ghost predicate CommonestAt(cluster: seq<Raw>, at: int) {
    0 <= at < |cluster| &&
    (forall k :: 0 <= k < |cluster| ==> Kinds(cluster)[cluster[k].kind] <= Kinds(cluster)[cluster[at].kind]) &&
    forall k :: 0 <= k < at ==> Kinds(cluster)[cluster[k].kind] < Kinds(cluster)[cluster[at].kind]
  }

  /** One of a member's alternates, by the member's place in the cluster and its own among theirs. */
  datatype Spot = Spot(member: nat, at: nat)

  predicate Precedes(a: Spot, b: Spot) {
    a.member < b.member || (a.member == b.member && a.at < b.at)
  }

  /** No earlier member has that alternate. */
  ghost predicate IsNew(cluster: seq<Raw>, s: Spot) {
    s.member < |cluster| && s.at < |cluster[s.member].alternates| &&
    forall k :: 0 <= k < s.member ==> cluster[s.member].alternates[s.at] !in cluster[k].alternates
  }

  ghost predicate StandsAt(cluster: seq<Raw>, n: nat, alternate: string, s: Spot) {
    s.member < n && IsNew(cluster, s) && alternate == cluster[s.member].alternates[s.at]
  }

  ghost predicate InSpotOrder(spots: seq<Spot>) {
    forall i, j :: 0 <= i < j < |spots| ==> Precedes(spots[i], spots[j])
  }

  ghost predicate AllStandAt(cluster: seq<Raw>, n: nat, alternates: seq<string>, spots: seq<Spot>) {
    |spots| == |alternates| && forall i :: 0 <= i < |spots| ==> StandsAt(cluster, n, alternates[i], spots[i])
  }

  ghost predicate HasAllSpots(cluster: seq<Raw>, n: nat, spots: seq<Spot>) {
    forall s: Spot :: s.member < n && IsNew(cluster, s) ==> s in spots
  }

  /** `alternates` are those at `spots`: every new one of the first `n` members', in order. */
  ghost predicate AreMet(cluster: seq<Raw>, n: nat, alternates: seq<string>, spots: seq<Spot>) {
    InSpotOrder(spots) && AllStandAt(cluster, n, alternates, spots) && HasAllSpots(cluster, n, spots)
  }

  ghost predicate InOrderMet(cluster: seq<Raw>, alternates: seq<string>) {
    exists spots :: AreMet(cluster, |cluster|, alternates, spots)
  }

  /** The row a cluster becomes: a member's point, the commonest kind, every other name once. */
  ghost predicate StandsFor(cluster: seq<Raw>, row: Raw)
    requires cluster != []
  {
    (exists at ::
       NearestAt(cluster, at) &&
       row.name == cluster[at].name && row.lon == cluster[at].lon && row.lat == cluster[at].lat) &&
    (exists at :: CommonestAt(cluster, at) && row.kind == cluster[at].kind) &&
    (forall a :: a in row.alternates <==> exists m :: m in cluster && a in m.alternates) &&
    InOrderMet(cluster, row.alternates) &&
    ((forall m :: m in cluster ==> Distinct(m.alternates)) ==> Distinct(row.alternates)) &&
    row.bbox == Bbox(row.lon, row.lat, row.lon, row.lat) && !row.line
  }

  /** `min(cluster, key=...)`: the first member nearest the mean. */
  method PickNearest(cluster: seq<Raw>) returns (pick: Raw)
    requires cluster != []
    ensures exists at :: NearestAt(cluster, at) && pick == cluster[at]
    ensures exists at, lon, lat :: IsMean(cluster, lon, lat) && NearestTo(cluster, at, lon, lat) && pick == cluster[at]
  {
    var at := 0;
    for i := 1 to |cluster|
      invariant 0 <= at < i
      invariant forall k :: 0 <= k < i ==> FromMean2(cluster, cluster[at]) <= FromMean2(cluster, cluster[k])
      invariant forall k :: 0 <= k < at ==> FromMean2(cluster, cluster[at]) < FromMean2(cluster, cluster[k])
    {
      if FromMean2(cluster, cluster[i]) < FromMean2(cluster, cluster[at]) { at := i; }
    }
    pick := cluster[at];
    assert NearestAt(cluster, at);
    NearestIsToTheMean(cluster, at);
  }

  /** `Counter(...).most_common(1)`: of the commonest kinds, the first met. */
  method CommonestKind(cluster: seq<Raw>) returns (kind: string)
    requires cluster != []
    ensures exists at :: CommonestAt(cluster, at) && kind == cluster[at].kind
  {
    var at := 0;
    for i := 1 to |cluster|
      invariant 0 <= at < i
      invariant forall k :: 0 <= k < i ==> CountKind(cluster, cluster[k].kind) <= CountKind(cluster, cluster[at].kind)
      invariant forall k :: 0 <= k < at ==> CountKind(cluster, cluster[k].kind) < CountKind(cluster, cluster[at].kind)
    {
      if CountKind(cluster, cluster[i].kind) > CountKind(cluster, cluster[at].kind) { at := i; }
    }
    kind := cluster[at].kind;
    forall k | 0 <= k < |cluster|
      ensures CountKind(cluster, cluster[k].kind) == Kinds(cluster)[cluster[k].kind]
    {
      CountIsMultiplicity(cluster, cluster[k].kind);
    }
    assert CommonestAt(cluster, at);
  }

  /** `[a for a in theirs if a not in mine]`. */
  function NotIn(mine: seq<string>, theirs: seq<string>): (extra: seq<string>)
    ensures forall a :: a in extra <==> a in theirs && a !in mine
    ensures Distinct(theirs) ==> Distinct(extra)
  {
    if theirs == [] then [] else
      var last := theirs[|theirs| - 1];
      var rest := NotIn(mine, theirs[..|theirs| - 1]);
      assert forall k :: 0 <= k < |rest| ==> rest[k] in theirs[..|theirs| - 1];
      if last in mine then rest else rest + [last]
  }

  /** Where those are. */
  ghost function SpotsNotIn(member: nat, mine: seq<string>, theirs: seq<string>): seq<Spot> {
    if theirs == [] then [] else
      var n := |theirs| - 1;
      SpotsNotIn(member, mine, theirs[..n]) + if theirs[n] in mine then [] else [Spot(member, n)]
  }

  lemma {:induction false} SpotsNotInOrder(member: nat, mine: seq<string>, theirs: seq<string>)
    ensures var spots := SpotsNotIn(member, mine, theirs);
            InSpotOrder(spots) && forall k :: 0 <= k < |spots| ==> spots[k].member == member && spots[k].at < |theirs|
  {
    if theirs != [] { SpotsNotInOrder(member, mine, theirs[..|theirs| - 1]); }
  }

  lemma {:induction false} SpotsNotInStand(member: nat, mine: seq<string>, theirs: seq<string>)
    ensures var spots, extra := SpotsNotIn(member, mine, theirs), NotIn(mine, theirs);
            |spots| == |extra| && forall k :: 0 <= k < |spots| ==>
              spots[k].member == member && spots[k].at < |theirs| && extra[k] == theirs[spots[k].at] &&
              extra[k] !in mine
  {
    if theirs != [] { SpotsNotInStand(member, mine, theirs[..|theirs| - 1]); }
  }

  lemma {:induction false} SpotsNotInAll(member: nat, mine: seq<string>, theirs: seq<string>, i: nat)
    requires i < |theirs| && theirs[i] !in mine
    ensures Spot(member, i) in SpotsNotIn(member, mine, theirs)
  {
    var n := |theirs| - 1;
    if i < n { SpotsNotInAll(member, mine, theirs[..n], i); }
  }

  /** `alternates` are the first `n` members', and no others. */
  ghost predicate HasAllOf(alternates: seq<string>, cluster: seq<Raw>, n: nat)
    requires n <= |cluster|
  {
    forall a :: a in alternates <==> exists k :: 0 <= k < n && a in cluster[k].alternates
  }

  lemma NewIsNotMet(cluster: seq<Raw>, alternates: seq<string>, s: Spot)
    requires s.member < |cluster| && s.at < |cluster[s.member].alternates| && HasAllOf(alternates, cluster, s.member)
    ensures IsNew(cluster, s) <==> cluster[s.member].alternates[s.at] !in alternates
  {
  }

  lemma OrderGoesOn(spots: seq<Spot>, more: seq<Spot>, n: nat)
    requires InSpotOrder(spots) && InSpotOrder(more)
    requires forall k :: 0 <= k < |spots| ==> spots[k].member < n
    requires forall k :: 0 <= k < |more| ==> more[k].member == n
    ensures InSpotOrder(spots + more)
  {
  }

  /** One more member's new alternates, met after the rest. */
  lemma MemberMet(cluster: seq<Raw>, n: nat, alternates: seq<string>, spots: seq<Spot>, extra: seq<string>,
                  more: seq<Spot>)
    requires n < |cluster| && HasAllOf(alternates, cluster, n) && AreMet(cluster, n, alternates, spots)
    requires extra == NotIn(alternates, cluster[n].alternates)
    requires more == SpotsNotIn(n, alternates, cluster[n].alternates)
    ensures AreMet(cluster, n + 1, alternates + extra, spots + more)
  {
    var theirs := cluster[n].alternates;
    SpotsNotInOrder(n, alternates, theirs);
    SpotsNotInStand(n, alternates, theirs);
    OrderGoesOn(spots, more, n);
    var all, met := spots + more, alternates + extra;
    forall k | 0 <= k < |all| ensures StandsAt(cluster, n + 1, met[k], all[k]) {
      if k < |spots| {
        assert StandsAt(cluster, n, alternates[k], spots[k]);
      } else {
        NewIsNotMet(cluster, alternates, more[k - |spots|]);
      }
    }
    forall s: Spot | s.member < n + 1 && IsNew(cluster, s) ensures s in all {
      if s.member == n {
        NewIsNotMet(cluster, alternates, s);
        SpotsNotInAll(n, alternates, theirs, s.at);
      }
    }
  }

  lemma AllMet(cluster: seq<Raw>, alternates: seq<string>)
    requires HasAllOf(alternates, cluster, |cluster|)
    ensures forall a :: a in alternates <==> exists m :: m in cluster && a in m.alternates
  {
    forall a ensures a in alternates <==> exists m :: m in cluster && a in m.alternates {
      if m :| m in cluster && a in m.alternates {
        var k :| 0 <= k < |cluster| && cluster[k] == m;
      }
    }
  }

  lemma HasOneMore(cluster: seq<Raw>, n: nat, alternates: seq<string>, extra: seq<string>)
    requires n < |cluster| && HasAllOf(alternates, cluster, n) && extra == NotIn(alternates, cluster[n].alternates)
    ensures HasAllOf(alternates + extra, cluster, n + 1)
  {
  }

  /** In the order met, none twice. */
  method AllAlternates(cluster: seq<Raw>) returns (alternates: seq<string>)
    ensures InOrderMet(cluster, alternates)
    ensures forall a :: a in alternates <==> exists m :: m in cluster && a in m.alternates
    ensures (forall m :: m in cluster ==> Distinct(m.alternates)) ==> Distinct(alternates)
  {
    alternates := [];
    ghost var spots := [];
    for i := 0 to |cluster|
      invariant HasAllOf(alternates, cluster, i) && AreMet(cluster, i, alternates, spots)
      invariant (forall m :: m in cluster ==> Distinct(m.alternates)) ==> Distinct(alternates)
    {
      var extra := NotIn(alternates, cluster[i].alternates);
      ghost var more := SpotsNotIn(i, alternates, cluster[i].alternates);
      MemberMet(cluster, i, alternates, spots, extra, more);
      HasOneMore(cluster, i, alternates, extra);
      DistinctGoesOn(alternates, extra);
      alternates, spots := alternates + extra, spots + more;
    }
    AllMet(cluster, alternates);
  }

  lemma DistinctGoesOn(mine: seq<string>, extra: seq<string>)
    requires forall a :: a in extra ==> a !in mine
    ensures Distinct(mine) && Distinct(extra) ==> Distinct(mine + extra)
  {
    assert forall k :: 0 <= k < |extra| ==> extra[k] in extra;
    assert forall k :: 0 <= k < |mine| ==> mine[k] in mine;
  }

  method RowOf(cluster: seq<Raw>) returns (row: Raw)
    requires cluster != []
    ensures StandsFor(cluster, row)
  {
    var pick := PickNearest(cluster);
    var kind := CommonestKind(cluster);
    var alternates := AllAlternates(cluster);
    row := Raw(pick.name, kind, pick.lon, pick.lat, alternates, Bbox(pick.lon, pick.lat, pick.lon, pick.lat), false);
  }

  // ------------------------------------------------------------- the whole list

  function KeysOf(raws: seq<Raw>): (keys: seq<Key>)
    ensures |keys| == |raws| && forall i :: 0 <= i < |raws| ==> keys[i] == KeyOf(raws[i])
  {
    seq(|raws|, i requires 0 <= i < |raws| => KeyOf(raws[i]))
  }

  /** The first loop of `merge`: raws filed by what must be equal. */
  method FileByKey(raws: seq<Raw>) returns (met: seq<Key>, groups: map<Key, seq<Raw>>)
    ensures Gathered(raws, KeysOf(raws), met, groups, |raws|)
  {
    met, groups := [], map[];
    for i := 0 to |raws|
      invariant Gathered(raws, KeysOf(raws), met, groups, i)
    {
      var key := KeyOf(raws[i]);
      GatherOne(raws, KeysOf(raws), met, groups, i);
      met, groups := Append(met, groups, key, raws[i]);
    }
  }

  /** `row` stands for the raws at `at`. */
  ghost predicate RowStandsFor(raws: seq<Raw>, at: seq<nat>, row: Raw) {
    exists cluster :: Picked(raws, at, cluster) && cluster != [] && StandsFor(cluster, row)
  }

  ghost function StandIn(raws: seq<Raw>): (seq<nat>, Raw) -> bool {
    (at: seq<nat>, row: Raw) => RowStandsFor(raws, at, row)
  }

  ghost predicate RowsStandFor(raws: seq<Raw>, at: seq<seq<nat>>, rows: seq<Raw>) {
    Pairwise(StandIn(raws), at, rows)
  }

  lemma PickThroughGroup(raws: seq<Raw>, group: seq<nat>, members: seq<Raw>, local: seq<nat>, at: seq<nat>,
                         cluster: seq<Raw>)
    requires Picked(raws, group, members) && Picked(members, local, cluster) && Picked(group, local, at)
    ensures Picked(raws, at, cluster)
  {
  }

  ghost function Stands(): (seq<Raw>, Raw) -> bool {
    (cluster: seq<Raw>, row: Raw) => cluster != [] && StandsFor(cluster, row)
  }

  /** A row for each cluster, in order. */
  method RowsOf(clusters: seq<seq<Raw>>) returns (rows: seq<Raw>)
    requires forall k :: 0 <= k < |clusters| ==> clusters[k] != []
    ensures Pairwise(Stands(), clusters, rows)
  {
    rows := [];
    for k := 0 to |clusters|
      invariant Pairwise(Stands(), clusters[..k], rows)
    {
      var row := RowOf(clusters[k]);
      PairwiseConcat(Stands(), clusters[..k], rows, [clusters[k]], [row]);
      assert clusters[..k + 1] == clusters[..k] + [clusters[k]];
      rows := rows + [row];
    }
    assert clusters[..|clusters|] == clusters;
  }

  lemma RowsStandForGroup(raws: seq<Raw>, key: Key, group: seq<nat>, members: seq<Raw>, local: seq<seq<nat>>,
                          clusters: seq<seq<Raw>>, rows: seq<Raw>)
    requires Picked(raws, group, members) && PlacesBelow(local, |group|)
    requires |clusters| == |local| == |rows|
    requires forall k :: 0 <= k < |local| ==> Picked(members, local[k], clusters[k]) && clusters[k] != []
    requires forall k :: 0 <= k < |local| ==> StandsFor(clusters[k], rows[k])
    ensures RowsStandFor(raws, Lift(group, local), rows)
  {
    forall k | 0 <= k < |local| ensures StandIn(raws)(Lift(group, local)[k], rows[k]) {
      PickThroughGroup(raws, group, members, local[k], Lift(group, local)[k], clusters[k]);
    }
  }

  lemma MoreRows(raws: seq<Raw>, at: seq<seq<nat>>, rows: seq<Raw>, at': seq<seq<nat>>, rows': seq<Raw>)
    requires RowsStandFor(raws, at, rows) && RowsStandFor(raws, at', rows')
    ensures RowsStandFor(raws, at + at', rows + rows')
  {
    PairwiseConcat(StandIn(raws), at, rows, at', rows');
  }

  /** A row for each cluster of one group. */
  method RowsOfGroup(raws: seq<Raw>, members: seq<Raw>, ghost key: Key, ghost group: seq<nat>)
    returns (rows: seq<Raw>, ghost local: seq<seq<nat>>)
    requires IsGroup(raws, key, group) && Picked(raws, group, members)
    requires forall i :: 0 <= i < |members| ==> WellFormed(members[i].bbox)
    ensures GroupListed(raws, key, group, members, local) && PlacesBelow(local, |group|)
    ensures RowsStandFor(raws, Lift(group, local), rows)
  {
    var clusters := ClustersOf(members, BoxesOf(members));
    local :| ClustersAt(members, BoxesOf(members), local, clusters);
    LocalPlaces(|members|, (i: nat, j: nat) => Linked(BoxesOf(members), i, j), local);
    forall k | 0 <= k < |local| ensures clusters[k] != [] { assert Picked(members, local[k], clusters[k]); }
    rows := RowsOf(clusters);
    RowsStandForGroup(raws, key, group, members, local, clusters, rows);
  }

  lemma {:induction false} AllFiled(raws: seq<Raw>, met: seq<Key>, at: seq<seq<nat>>)
    requires met == KeysMet(KeysOf(raws), |raws|) && ComponentsSoFar(raws, met, at)
    ensures Components(|raws|, (i: nat, j: nat) => SameFeature(raws, i, j), at)
  {
    KeysMetHolds(KeysOf(raws), |raws|);
    forall i: nat ensures InSomeList(at, i) <==> i < |raws| {
      if i < |raws| { assert Met(KeysOf(raws), KeysOf(raws)[i], |raws|); }
    }
  }

  lemma {:induction false} GroupOfKey(raws: seq<Raw>, met: seq<Key>, groups: map<Key, seq<Raw>>, key: Key)
    requires Gathered(raws, KeysOf(raws), met, groups, |raws|) && key in met
    ensures var group := WithKey(KeysOf(raws), key, |raws|);
            IsGroup(raws, key, group) && key in groups && Picked(raws, group, groups[key])
  {
    WithKeyHolds(KeysOf(raws), key, |raws|);
    GatherIsPick(raws, KeysOf(raws), key, |raws|);
  }

  lemma NextKeyIsNew(met: seq<Key>, g: nat)
    requires Distinct(met) && g < |met|
    ensures met[g] in met && met[g] !in met[..g] && met[..g + 1] == met[..g] + [met[g]]
  {
  }

  /** The rows stand for the raws at `at`, and `at` the components of "the same feature". */
  ghost predicate MergedAt(raws: seq<Raw>, at: seq<seq<nat>>, rows: seq<Raw>) {
    Components(|raws|, (i: nat, j: nat) => SameFeature(raws, i, j), at) && RowsStandFor(raws, at, rows)
  }

  /** `merge`: one row for each feature of the whole list, and every raw in one of them. */
  method Merge(raws: seq<Raw>) returns (rows: seq<Raw>)
    requires forall i :: 0 <= i < |raws| ==> WellFormed(raws[i].bbox)
    ensures exists at :: MergedAt(raws, at, rows)
  {
    ghost var at;
    var met, groups := FileByKey(raws);
    KeysMetHolds(KeysOf(raws), |raws|);
    rows, at := [], [];
    for g := 0 to |met|
      invariant ComponentsSoFar(raws, met[..g], at) && RowsStandFor(raws, at, rows)
    {
      NextKeyIsNew(met, g);
      var key := met[g];
      GroupOfKey(raws, met, groups, key);
      ghost var group, local := WithKey(KeysOf(raws), key, |raws|), [];
      var more;
      more, local := RowsOfGroup(raws, groups[key], key, group);
      AddGroup(raws, met[..g], at, key, group, groups[key], local);
      MoreRows(raws, at, rows, Lift(group, local), more);
      rows, at := rows + more, at + Lift(group, local);
    }
    assert met[..|met|] == met;
    AllFiled(raws, met, at);
    assert MergedAt(raws, at, rows);
  }
}
