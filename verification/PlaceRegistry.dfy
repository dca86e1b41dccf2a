/**
 The registry's rows and their `near` column (topo/build_place_registry.py,
 `registry`): settlements first, each row told apart by a settlement near it.
 */
module PlaceRegistry {
  import opened Common
  import opened PlaceMerge
  import opened NearestGrid
  import Clusters
  import Grouping
  import Sorting

  const MAX_TIER := 2
  const MAX_RINGS := 5

  /** SETTLEMENT_TIERS, by the whole kind; None is not a settlement. */
  function TierOf(kind: string): (t: Option<nat>)
    ensures t.Some? ==> t.value <= MAX_TIER
  {
    if kind == "place=city" || kind == "place=town" then Some(0)
    else if kind == "place=village" || kind == "place=suburb" then Some(1)
    else if kind == "place=hamlet" || kind == "place=locality" then Some(2)
    else None
  }

  /** SETTLEMENT_TIERS as the source has it, by what follows "place=". */
  const TIERS: map<string, nat> :=
    map["city" := 0, "town" := 0, "village" := 1, "suburb" := 1, "hamlet" := 2, "locality" := 2]

  lemma TierOfPlace(place: string)
    ensures TierOf("place=" + place) == if place in TIERS then Some(TIERS[place]) else None
  {
    var kind := "place=" + place;
    assert kind[6..] == place;
    assert "place=city"[6..] == "city" && "place=town"[6..] == "town" && "place=village"[6..] == "village";
    assert "place=suburb"[6..] == "suburb" && "place=hamlet"[6..] == "hamlet" && "place=locality"[6..] == "locality";
    assert "place=" + "city" == "place=city" && "place=" + "town" == "place=town";
    assert "place=" + "village" == "place=village" && "place=" + "suburb" == "place=suburb";
    assert "place=" + "hamlet" == "place=hamlet" && "place=" + "locality" == "place=locality";
  }

  lemma OnlyPlacesAreSettlements(kind: string)
    requires |kind| < 6 || kind[..6] != "place="
    ensures TierOf(kind) == None
  {
  }

  predicate IsSettlement(row: Raw) {
    TierOf(row.kind).Some?
  }

  // ------------------------------------------------------------- the row order

  predicate StringLeq(a: string, b: string) {
    a == "" || (b != "" && (a[0] < b[0] || (a[0] == b[0] && StringLeq(a[1..], b[1..]))))
  }

  lemma {:induction false} StringTotal(a: string, b: string)
    ensures StringLeq(a, b) || StringLeq(b, a)
    ensures StringLeq(a, b) && StringLeq(b, a) ==> a == b
  {
    if a != "" && b != "" && a[0] == b[0] {
      StringTotal(a[1..], b[1..]);
      assert a == [a[0]] + a[1..] && b == [b[0]] + b[1..];
    }
  }

  lemma {:induction false} StringTransitive(a: string, b: string, c: string)
    requires StringLeq(a, b) && StringLeq(b, c)
    ensures StringLeq(a, c)
  {
    if a != "" && a[0] == b[0] == c[0] {
      StringTransitive(a[1..], b[1..], c[1..]);
    }
  }

  /** `a` is before `b` in the dictionary: a proper prefix, or the lesser where they first differ. */
  ghost predicate Before(a: string, b: string) {
    exists k: nat :: FirstDifferAt(a, b, k) && (k == |a| || a[k] < b[k])
  }

  /** They agree below `k`, and not at `k`: there one ends, or they differ. */
  predicate FirstDifferAt(a: string, b: string, k: nat) {
    k <= |a| && k < |b| && (forall i :: 0 <= i < k ==> a[i] == b[i]) && (k < |a| ==> a[k] != b[k])
  }

  lemma {:induction false} StringLeqIsDictionaryOrder(a: string, b: string)
    ensures StringLeq(a, b) <==> a == b || Before(a, b)
  {
    if a == "" {
      if b != "" { assert FirstDifferAt(a, b, 0); }
    } else if b != "" {
      if a[0] != b[0] {
        if a[0] < b[0] { assert FirstDifferAt(a, b, 0); }
      } else {
        StringLeqIsDictionaryOrder(a[1..], b[1..]);
        assert a == [a[0]] + a[1..] && b == [b[0]] + b[1..];
        BeforeTail(a, b);
      }
    }
  }

  lemma BeforeTail(a: string, b: string)
    requires a != "" && b != "" && a[0] == b[0]
    ensures Before(a, b) <==> Before(a[1..], b[1..])
  {
    if Before(a, b) {
      var k: nat :| FirstDifferAt(a, b, k) && (k == |a| || a[k] < b[k]);
      assert k > 0;
      assert a[1..][..k - 1] == a[..k][1..] && b[1..][..k - 1] == b[..k][1..];
      assert FirstDifferAt(a[1..], b[1..], k - 1);
    }
    if Before(a[1..], b[1..]) {
      var k: nat :| FirstDifferAt(a[1..], b[1..], k) && (k == |a[1..]| || a[1..][k] < b[1..][k]);
      assert a[..k + 1] == [a[0]] + a[1..][..k] && b[..k + 1] == [b[0]] + b[1..][..k];
      assert FirstDifferAt(a, b, k + 1);
    }
  }

  /** The sort key `(not is_settlement, name, lon)`. */
  predicate RowLeq(a: Raw, b: Raw) {
    if IsSettlement(a) != IsSettlement(b) then IsSettlement(a)
    else if a.name != b.name then StringLeq(a.name, b.name)
    else a.lon <= b.lon
  }

  lemma RowLeqIsTotal()
    ensures Sorting.TotalPreorder(RowLeq)
  {
    forall a, b ensures RowLeq(a, b) || RowLeq(b, a) {
      StringTotal(a.name, b.name);
    }
    forall a, b, c | RowLeq(a, b) && RowLeq(b, c) ensures RowLeq(a, c) {
      StringTotal(a.name, b.name);
      StringTotal(b.name, c.name);
      StringTotal(a.name, c.name);
      if StringLeq(a.name, b.name) && StringLeq(b.name, c.name) { StringTransitive(a.name, b.name, c.name); }
    }
  }

  /** The rows' order: settlements, then by name, then from the west. */
  ghost predicate InOrder(a: Raw, b: Raw) {
    (IsSettlement(b) ==> IsSettlement(a)) &&
    (IsSettlement(a) == IsSettlement(b) ==> Before(a.name, b.name) || (a.name == b.name && a.lon <= b.lon))
  }

  ghost predicate AllInOrder(rows: seq<Raw>) {
    forall i, j :: 0 <= i < j < |rows| ==> InOrder(rows[i], rows[j])
  }

  lemma SortedIsInOrder(rows: seq<Raw>)
    requires Sorting.SortedBy(rows, RowLeq)
    ensures AllInOrder(rows)
  {
    forall i, j | 0 <= i < j < |rows| ensures InOrder(rows[i], rows[j]) {
      assert RowLeq(rows[i], rows[j]);
      StringLeqIsDictionaryOrder(rows[i].name, rows[j].name);
    }
  }

  // ------------------------------------------------------------ the near column

  /** The settlements of tier `t` or bigger, each with its row number: `grids[t]`. */
  ghost function Settlements(rows: seq<Raw>, t: nat): (points: set<Point>)
    ensures forall p :: p in points <==>
              p.idx < |rows| && p.lon == rows[p.idx].lon && p.lat == rows[p.idx].lat &&
              TierOf(rows[p.idx].kind).Some? && TierOf(rows[p.idx].kind).value <= t
  {
    set i: nat | i < |rows| && TierOf(rows[i].kind).Some? && TierOf(rows[i].kind).value <= t ::
      Point(rows[i].lon, rows[i].lat, i)
  }

  method PointsOfTier(rows: seq<Raw>, t: nat) returns (points: seq<Point>)
    ensures (set p | p in points) == Settlements(rows, t)
  {
    points := [];
    for i := 0 to |rows|
      invariant forall p :: p in points <==> p in Settlements(rows, t) && p.idx < i
    {
      var tier := TierOf(rows[i].kind);
      if tier.Some? && tier.value <= t {
        points := points + [Point(rows[i].lon, rows[i].lat, i)];
      }
    }
  }

  /** Asking for a settlement near row `i`: `cos` gives the cosine of a latitude in degrees. */
  function NearQuery(rows: seq<Raw>, cos: real -> real, i: nat): Query
    requires i < |rows|
  {
    Query(rows[i].lon, rows[i].lat, cos(rows[i].lat), i)
  }

  /** The other settlements of tier `t` or bigger within MAX_RINGS cells of row `i`. */
  ghost function InReach(rows: seq<Raw>, cos: real -> real, i: nat, t: nat): set<Point>
    requires i < |rows|
  {
    set p | p in Within(NearQuery(rows, cos, i), Settlements(rows, t), MAX_RINGS) && p.idx != i
  }

  /** `near` is a nearest of `points`, or -1 when there are none. */
  ghost predicate IsNearest(q: Query, points: set<Point>, near: int) {
    if points == {} then near == -1
    else exists p :: p in points && p.idx == near && forall o :: o in points ==> Distance2(q, p) <= Distance2(q, o)
  }

  /** What `near` must be: of the row's own tier or bigger when one is in reach, else any settlement. */
  ghost predicate NearIsRight(rows: seq<Raw>, cos: real -> real, i: nat, near: int)
    requires i < |rows|
  {
    var own := TierOf(rows[i].kind);
    if own.Some? && InReach(rows, cos, i, own.value) != {}
    then IsNearest(NearQuery(rows, cos, i), InReach(rows, cos, i, own.value), near)
    else IsNearest(NearQuery(rows, cos, i), InReach(rows, cos, i, MAX_TIER), near)
  }

  ghost predicate IsGrid(rows: seq<Raw>, grid: Grid, t: nat)
    reads grid
  {
    grid.Valid() && grid.points == Settlements(rows, t)
  }

  /** The cosine of each row's latitude, which is between the poles, is in [0, 1]. */
  ghost predicate CosInRange(rows: seq<Raw>, cos: real -> real) {
    forall i :: 0 <= i < |rows| ==> 0.0 <= cos(rows[i].lat) <= 1.0
  }

  /** One query: the answer is a nearest other settlement of the tier. */
  method Ask(rows: seq<Raw>, cos: real -> real, grid: Grid, t: nat, i: nat) returns (near: Option<nat>)
    requires i < |rows| && IsGrid(rows, grid, t) && CosInRange(rows, cos)
    ensures near.None? <==> InReach(rows, cos, i, t) == {}
    ensures near.Some? ==> IsNearest(NearQuery(rows, cos, i), InReach(rows, cos, i, t), near.value)
  {
    var q := NearQuery(rows, cos, i);
    near := grid.Nearest(q, MAX_RINGS);
    ghost var d2 :| NearestGrid.Found(q, grid.points, MAX_RINGS, near, d2);
    if near.Some? {
      ghost var p :| p in Within(q, grid.points, MAX_RINGS) && p.idx == near.value && near.value != i &&
        Distance2(q, p) == d2;
      assert p in InReach(rows, cos, i, t);
    }
  }

  method MakeGrids(rows: seq<Raw>) returns (grids: seq<Grid>)
    ensures AreGrids(rows, grids)
  {
    grids := [];
    for t := 0 to MAX_TIER + 1
      invariant |grids| == t && forall k :: 0 <= k < t ==> IsGrid(rows, grids[k], k)
    {
      var points := PointsOfTier(rows, t);
      var grid := new Grid(points);
      grids := grids + [grid];
    }
  }

  ghost predicate AreGrids(rows: seq<Raw>, grids: seq<Grid>)
    reads grids
  {
    |grids| == MAX_TIER + 1 && forall t :: 0 <= t < |grids| ==> IsGrid(rows, grids[t], t)
  }

  /** One row's `near`: among its own tier or bigger if one is in reach, else among all. */
  method NearOf(rows: seq<Raw>, cos: real -> real, grids: seq<Grid>, i: nat) returns (near: int)
    requires i < |rows| && AreGrids(rows, grids) && CosInRange(rows, cos)
    ensures NearIsRight(rows, cos, i, near)
  {
    var found := None;
    var own := TierOf(rows[i].kind);
    if own.Some? { found := Ask(rows, cos, grids[own.value], own.value, i); }
    if found.None? { found := Ask(rows, cos, grids[|grids| - 1], MAX_TIER, i); }
    near := if found.None? then -1 else found.value;
  }

  /** The `near` column of rows already sorted. */
  method NearColumn(rows: seq<Raw>, cos: real -> real) returns (near: seq<int>)
    requires CosInRange(rows, cos)
    ensures |near| == |rows| && forall i :: 0 <= i < |rows| ==> NearIsRight(rows, cos, i, near[i])
  {
    var grids := MakeGrids(rows);
    near := [];
    for i := 0 to |rows|
      invariant AreGrids(rows, grids)
      invariant |near| == i && forall k :: 0 <= k < i ==> NearIsRight(rows, cos, k, near[k])
    {
      var found := NearOf(rows, cos, grids, i);
      near := near + [found];
    }
  }

  // ------------------------------------------------------------- what it comes to

  /** Settlements are rows `0 .. n`, and no other row is one. */
  ghost predicate SettlementsFirst(rows: seq<Raw>, n: nat) {
    n <= |rows| && forall i :: 0 <= i < |rows| ==> (IsSettlement(rows[i]) <==> i < n)
  }

  ghost function CountSettlements(rows: seq<Raw>): (n: nat)
    ensures n <= |rows|
  {
    if rows == [] then 0 else (if IsSettlement(rows[0]) then 1 + CountSettlements(rows[1..]) else 0)
  }

  lemma {:induction false} SortedPutsSettlementsFirst(rows: seq<Raw>)
    requires Sorting.SortedBy(rows, RowLeq)
    ensures SettlementsFirst(rows, CountSettlements(rows))
  {
    if rows != [] {
      if IsSettlement(rows[0]) {
        SortedPutsSettlementsFirst(rows[1..]);
        assert forall i :: 0 < i < |rows| ==> rows[i] == rows[1..][i - 1];
      } else {
        assert forall i :: 0 < i < |rows| ==> RowLeq(rows[0], rows[i]);
      }
    }
  }

  /** A right `near` is -1 or another row, a settlement, so an index into the prefix; and a
      settlement's is of its own tier or bigger whenever one is in reach. */
  lemma NearIsAnotherSettlement(rows: seq<Raw>, cos: real -> real, n: nat, i: nat, near: int)
    requires i < |rows| && SettlementsFirst(rows, n) && NearIsRight(rows, cos, i, near)
    ensures near == -1 <==> InReach(rows, cos, i, MAX_TIER) == {}
    ensures near != -1 ==> 0 <= near < n && near != i
    ensures near != -1 && IsSettlement(rows[i]) && InReach(rows, cos, i, TierOf(rows[i].kind).value) != {} ==>
              TierOf(rows[near].kind).value <= TierOf(rows[i].kind).value
  {
    var own := TierOf(rows[i].kind);
    var t := if own.Some? && InReach(rows, cos, i, own.value) != {} then own.value else MAX_TIER;
    if p :| p in InReach(rows, cos, i, t) {
      assert p in InReach(rows, cos, i, MAX_TIER);
      var best :| best in InReach(rows, cos, i, t) && best.idx == near;
    }
  }

  // The same in degrees, with no grid.

  /** Row `j` is another settlement, of tier `t` or bigger, at most five tenths of a degree's cells from
      row `i` each way. */
  ghost predicate CanBeNear(rows: seq<Raw>, i: nat, j: nat, t: nat)
    requires i < |rows| && j < |rows|
  {
    var a, b := rows[i], rows[j];
    j != i && TierOf(b.kind).Some? && TierOf(b.kind).value <= t &&
    Abs((10.0 * b.lon).Floor - (10.0 * a.lon).Floor) <= 5 && Abs((10.0 * b.lat).Floor - (10.0 * a.lat).Floor) <= 5
  }

  ghost predicate SomeNear(rows: seq<Raw>, i: nat, t: nat)
    requires i < |rows|
  {
    exists j: nat :: j < |rows| && CanBeNear(rows, i, j, t)
  }

  /** From `a` to `b`, squared: a degree of longitude shrinks by the cosine of `a`'s latitude. */
  ghost function Degrees2(cos: real -> real, a: Raw, b: Raw): real {
    var shrink, east, north := cos(a.lat), b.lon - a.lon, b.lat - a.lat;
    (shrink * shrink) * (east * east) + north * north
  }

  /** `near` is the nearest of those, of the row's own tier if there are any, else of all; or -1. */
  ghost predicate NearInDegrees(rows: seq<Raw>, cos: real -> real, i: nat, near: int)
    requires i < |rows|
  {
    var own := TierOf(rows[i].kind);
    var t := if own.Some? && SomeNear(rows, i, own.value) then own.value else 2;
    if !SomeNear(rows, i, t) then near == -1
    else
      0 <= near < |rows| && CanBeNear(rows, i, near, t) &&
      forall j: nat :: j < |rows| && CanBeNear(rows, i, j, t) ==>
        Degrees2(cos, rows[i], rows[near]) <= Degrees2(cos, rows[i], rows[j])
  }

  lemma InReachIsNear(rows: seq<Raw>, cos: real -> real, i: nat, t: nat, p: Point)
    requires i < |rows|
    ensures p in InReach(rows, cos, i, t) <==>
            p.idx < |rows| && p == Point(rows[p.idx].lon, rows[p.idx].lat, p.idx) && CanBeNear(rows, i, p.idx, t)
  {
    ColumnIsTenths(p.lon);
    ColumnIsTenths(p.lat);
    ColumnIsTenths(rows[i].lon);
    ColumnIsTenths(rows[i].lat);
  }

  lemma SomeInReach(rows: seq<Raw>, cos: real -> real, i: nat, t: nat)
    requires i < |rows|
    ensures InReach(rows, cos, i, t) != {} <==> SomeNear(rows, i, t)
  {
    if p :| p in InReach(rows, cos, i, t) { InReachIsNear(rows, cos, i, t, p); }
    if j: nat :| j < |rows| && CanBeNear(rows, i, j, t) {
      InReachIsNear(rows, cos, i, t, Point(rows[j].lon, rows[j].lat, j));
    }
  }

  lemma DegreesIsDistance(rows: seq<Raw>, cos: real -> real, i: nat, p: Point)
    requires i < |rows| && p.idx < |rows| && p == Point(rows[p.idx].lon, rows[p.idx].lat, p.idx)
    ensures Degrees2(cos, rows[i], rows[p.idx]) == Distance2(NearQuery(rows, cos, i), p)
  {
    DistanceIsShrunk(NearQuery(rows, cos, i), p);
  }

  lemma NearestInDegrees(rows: seq<Raw>, cos: real -> real, i: nat, t: nat, near: int)
    requires i < |rows| && SomeNear(rows, i, t)
    requires IsNearest(NearQuery(rows, cos, i), InReach(rows, cos, i, t), near)
    ensures 0 <= near < |rows| && CanBeNear(rows, i, near, t)
    ensures forall j: nat :: j < |rows| && CanBeNear(rows, i, j, t) ==>
              Degrees2(cos, rows[i], rows[near]) <= Degrees2(cos, rows[i], rows[j])
  {
    var q, points := NearQuery(rows, cos, i), InReach(rows, cos, i, t);
    SomeInReach(rows, cos, i, t);
    var p :| p in points && p.idx == near && forall o :: o in points ==> Distance2(q, p) <= Distance2(q, o);
    InReachIsNear(rows, cos, i, t, p);
    DegreesIsDistance(rows, cos, i, p);
    forall j: nat | j < |rows| && CanBeNear(rows, i, j, t)
      ensures Degrees2(cos, rows[i], rows[near]) <= Degrees2(cos, rows[i], rows[j])
    {
      var o := Point(rows[j].lon, rows[j].lat, j);
      InReachIsNear(rows, cos, i, t, o);
      DegreesIsDistance(rows, cos, i, o);
    }
  }

  lemma NearIsInDegrees(rows: seq<Raw>, cos: real -> real, i: nat, near: int)
    requires i < |rows| && NearIsRight(rows, cos, i, near)
    ensures NearInDegrees(rows, cos, i, near)
  {
    var own := TierOf(rows[i].kind);
    var t := if own.Some? && SomeNear(rows, i, own.value) then own.value else 2;
    if own.Some? { SomeInReach(rows, cos, i, own.value); }
    SomeInReach(rows, cos, i, t);
    if SomeNear(rows, i, t) { NearestInDegrees(rows, cos, i, t, near); }
  }

  /** A merged row stands at the latitude of one of its raws. */
  lemma MergedAtRawLatitude(raws: seq<Raw>, at: seq<seq<nat>>, merged: seq<Raw>, k: nat) returns (i: nat)
    requires MergedAt(raws, at, merged) && k < |merged|
    ensures i < |raws| && raws[i].lat == merged[k].lat
  {
    assert StandIn(raws)(at[k], merged[k]);
    var cluster: seq<Raw> :| Grouping.Picked(raws, at[k], cluster) && cluster != [] && StandsFor(cluster, merged[k]);
    var a :| NearestAt(cluster, a) && merged[k].lat == cluster[a].lat;
    i := at[k][a];
  }

  /** So the cosine's range carries over to the rows, in any order. */
  lemma RowsKeepCosInRange(raws: seq<Raw>, at: seq<seq<nat>>, merged: seq<Raw>, rows: seq<Raw>, cos: real -> real)
    requires MergedAt(raws, at, merged) && CosInRange(raws, cos) && multiset(rows) == multiset(merged)
    ensures CosInRange(rows, cos)
  {
    forall j | 0 <= j < |rows| ensures 0.0 <= cos(rows[j].lat) <= 1.0 {
      assert rows[j] in multiset(merged);
      var k: nat :| k < |merged| && merged[k] == rows[j];
      var i := MergedAtRawLatitude(raws, at, merged, k);
    }
  }

  /** The same rows, those of one name and longitude as they came. */
  ghost predicate IsStableSort(merged: seq<Raw>, rows: seq<Raw>) {
    multiset(rows) == multiset(merged) &&
    forall z :: Sorting.TiedWith(rows, RowLeq, z) == Sorting.TiedWith(merged, RowLeq, z)
  }

  /** `registry`, from merged rows to the sorted rows and their `near` column. */
  method Registry(raws: seq<Raw>, cos: real -> real) returns (rows: seq<Raw>, near: seq<int>)
    requires forall i :: 0 <= i < |raws| ==> Clusters.WellFormed(raws[i].bbox)
    requires CosInRange(raws, cos)
    ensures AllInOrder(rows) && SettlementsFirst(rows, CountSettlements(rows))
    ensures |near| == |rows|
    ensures forall i :: 0 <= i < |rows| ==> NearIsRight(rows, cos, i, near[i]) && NearInDegrees(rows, cos, i, near[i])
    ensures exists merged, at :: IsStableSort(merged, rows) && MergedAt(raws, at, merged)
  {
    var merged := Merge(raws);
    RowLeqIsTotal();
    rows := Sorting.Sorted(merged, RowLeq);
    SortedPutsSettlementsFirst(rows);
    SortedIsInOrder(rows);
    forall z ensures Sorting.TiedWith(rows, RowLeq, z) == Sorting.TiedWith(merged, RowLeq, z) {
      Sorting.SortedIsStable(merged, RowLeq, z);
    }
    ghost var at :| MergedAt(raws, at, merged);
    RowsKeepCosInRange(raws, at, merged, rows, cos);
    near := NearColumn(rows, cos);
    forall i | 0 <= i < |rows| ensures NearInDegrees(rows, cos, i, near[i]) { NearIsInDegrees(rows, cos, i, near[i]); }
  }
}
