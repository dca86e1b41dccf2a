/**
 The nearest settlement (topo/build_place_registry.py, `Grid` and `nearest`).

 Points are filed by tenth-of-a-degree cell and searched ring by ring outward,
 stopping as soon as a further ring cannot hold a closer one. Distances are kept
 squared: the code's `hypot` values are compared with each other and with a
 non-negative bound, which squaring does not change.
 */
module NearestGrid {
  import opened Common

  const CELL := 0.1

  datatype Point = Point(lon: real, lat: real, idx: nat)

  /** `shrink` is the cosine of the latitude; `exclude` the one index not to answer with. */
  datatype Query = Query(lon: real, lat: real, shrink: real, exclude: int)

  function Column(x: real): int { (x / CELL).Floor }

  function KeyOf(lon: real, lat: real): (int, int) { (Column(lon), Column(lat)) }

  /** Cells are tenths of a degree, counted from 0, the lower edge in. */
  lemma ColumnIsTenths(x: real)
    ensures Column(x) == (10.0 * x).Floor
    ensures Column(x) as real * 0.1 <= x < (Column(x) + 1) as real * 0.1
  {
    assert x / CELL == 10.0 * x;
  }

  function MaxOf(a: nat, b: nat): nat { if a < b then b else a }

  /** How many cells out from the query's cell. */
  function Ring(q: Query, p: Point): nat {
    MaxOf(Abs(Column(p.lon) - Column(q.lon)), Abs(Column(p.lat) - Column(q.lat)))
  }

  function Square(x: real): real {
    x * x
  }

  function Shrunk2(gap: real, shrink: real): real {
    Square(gap * shrink)
  }

  function Distance2(q: Query, p: Point): real {
    Shrunk2(p.lon - q.lon, q.shrink) + Square(p.lat - q.lat)
  }

  /** How far `ring` whole cells reach. */
  function Width(ring: nat): real {
    ring as real * CELL
  }

  /** The squared distance nothing beyond `ring` can come within. */
  function Reach2(q: Query, ring: nat): real {
    Shrunk2(Width(ring), q.shrink)
  }

  /** The metric: degrees, those of longitude shrunk by the cosine of the query's latitude. */
  ghost function Apart2(q: Query, p: Point): real {
    var east, north := p.lon - q.lon, p.lat - q.lat;
    (q.shrink * q.shrink) * (east * east) + north * north
  }

  lemma DistanceIsShrunk(q: Query, p: Point)
    ensures Distance2(q, p) == Apart2(q, p)
  {
    var east := p.lon - q.lon;
    assert (east * q.shrink) * (east * q.shrink) == (q.shrink * q.shrink) * (east * east);
  }

  // ----------------------------------------------------------------- the bound

  lemma SquareGrows(a: real, b: real)
    requires 0.0 <= a <= b
    ensures Square(a) <= Square(b)
  {
    assert a * a <= a * b;
    assert a * b <= b * b;
  }

  /** Points more than `ring` columns apart differ by at least `ring` cells. */
  lemma ColumnsApart(x: real, y: real, ring: nat)
    requires Abs(Column(x) - Column(y)) > ring
    ensures x - y >= Width(ring) || y - x >= Width(ring)
  {
  }

  /** A gap of at least `bound`, shrunk or not, is at least `bound` shrunk. */
  lemma ShrunkGap(gap: real, bound: real, shrink: real)
    requires 0.0 <= shrink <= 1.0 && 0.0 <= bound <= gap
    ensures Shrunk2(bound, shrink) <= Shrunk2(gap, shrink) && Shrunk2(bound, shrink) <= Square(gap)
  {
    assert 0.0 <= bound * shrink <= gap * shrink <= gap;
    SquareGrows(bound * shrink, gap * shrink);
    SquareGrows(bound * shrink, gap);
  }

  lemma EitherSide(gap: real, bound: real, shrink: real)
    requires 0.0 <= shrink <= 1.0 && 0.0 <= bound && (gap >= bound || -gap >= bound)
    ensures Shrunk2(bound, shrink) <= Shrunk2(gap, shrink) && Shrunk2(bound, shrink) <= Square(gap)
  {
    if gap >= bound {
      ShrunkGap(gap, bound, shrink);
    } else {
      ShrunkGap(-gap, bound, shrink);
      assert (-gap) * shrink == -(gap * shrink);
    }
  }

  lemma FarEitherWay(gapX: real, gapY: real, bound: real, shrink: real)
    requires 0.0 <= shrink <= 1.0 && 0.0 <= bound
    requires gapX >= bound || -gapX >= bound || gapY >= bound || -gapY >= bound
    ensures Shrunk2(gapX, shrink) + Square(gapY) >= Shrunk2(bound, shrink)
  {
    SquareIsPositive(gapX * shrink);
    SquareIsPositive(gapY);
    EitherSide(if gapX >= bound || -gapX >= bound then gapX else gapY, bound, shrink);
  }

  lemma SquareIsPositive(x: real)
    ensures Square(x) >= 0.0
  {
  }

  /** Why the search may stop: a point beyond `ring` is at least that far away. */
  lemma BeyondRingIsFar(q: Query, p: Point, ring: nat)
    requires 0.0 <= q.shrink <= 1.0 && Ring(q, p) > ring
    ensures Distance2(q, p) >= Reach2(q, ring)
  {
    if Abs(Column(p.lon) - Column(q.lon)) > ring {
      ColumnsApart(p.lon, q.lon, ring);
    } else {
      ColumnsApart(p.lat, q.lat, ring);
    }
    FarEitherWay(p.lon - q.lon, p.lat - q.lat, Width(ring), q.shrink);
  }

  // -------------------------------------------------------------- what is asked

  /** `best` is the least distance in `seen` of a point not excluded, and `idx` has it. */
  ghost predicate IsLeast(q: Query, seen: set<Point>, idx: nat, best2: real) {
    (exists p :: p in seen && p.idx == idx && idx != q.exclude && Distance2(q, p) == best2) &&
    forall p :: p in seen && p.idx != q.exclude ==> best2 <= Distance2(q, p)
  }

  ghost predicate Answers(q: Query, seen: set<Point>, best: Option<nat>, best2: real) {
    match best
    case None => forall p :: p in seen ==> p.idx == q.exclude
    case Some(idx) => IsLeast(q, seen, idx, best2)
  }

  /** The points within `rings` cells of the query. */
  ghost function Within(q: Query, points: set<Point>, rings: nat): set<Point> {
    set p | p in points && Ring(q, p) <= rings
  }

  /** A least point of the near rings that is also within reach is least of all. */
  lemma NearIsNearestOfAll(q: Query, points: set<Point>, rings: nat, idx: nat, best2: real)
    requires 0.0 <= q.shrink <= 1.0
    requires IsLeast(q, Within(q, points, rings), idx, best2) && best2 <= Reach2(q, rings)
    ensures IsLeast(q, points, idx, best2)
  {
    forall p | p in points && p.idx != q.exclude ensures best2 <= Distance2(q, p) {
      if Ring(q, p) > rings { BeyondRingIsFar(q, p, rings); }
    }
  }

  /** What the search finds: a least point of the rings, and least of all when it is within reach. */
  ghost predicate Found(q: Query, points: set<Point>, rings: nat, best: Option<nat>, best2: real) {
    Answers(q, Within(q, points, rings), best, best2) &&
    (best.Some? && best2 <= Reach2(q, rings) ==> IsLeast(q, points, best.value, best2))
  }

  /** `idx` is a point of `seen` that is not excluded, and none of those is nearer in the metric. */
  ghost predicate IsNearestOf(q: Query, seen: set<Point>, idx: nat) {
    exists p :: p in seen && p.idx == idx && idx != q.exclude &&
                forall o :: o in seen && o.idx != q.exclude ==> Apart2(q, p) <= Apart2(q, o)
  }

  lemma LeastIsNearest(q: Query, seen: set<Point>, idx: nat, best2: real)
    requires IsLeast(q, seen, idx, best2)
    ensures IsNearestOf(q, seen, idx)
  {
    var p :| p in seen && p.idx == idx && idx != q.exclude && Distance2(q, p) == best2;
    DistanceIsShrunk(q, p);
    forall o | o in seen && o.idx != q.exclude ensures Apart2(q, p) <= Apart2(q, o) {
      DistanceIsShrunk(q, o);
    }
  }

  // ------------------------------------------------------------------ the search

  /** One bucket of the search: the innermost loop. */
  method ScanBucket(q: Query, bucket: seq<Point>, best0: Option<nat>, best20: real, ghost seen: set<Point>)
    returns (best: Option<nat>, best2: real)
    requires Answers(q, seen, best0, best20)
    ensures Answers(q, seen + (set p | p in bucket), best, best2)
  {
    best, best2 := best0, best20;
    ghost var all := seen;
    for i := 0 to |bucket|
      invariant forall p :: p in all <==> p in seen || p in bucket[..i]
      invariant Answers(q, all, best, best2)
    {
      var p := bucket[i];
      var d := Distance2(q, p);
      all := all + {p};
      if (best.None? || d < best2) && p.idx != q.exclude {
        best, best2 := Some(p.idx), d;
      }
    }
    assert all == seen + (set p | p in bucket);
  }

  /** Whether the cell `dx`, `dy` of ring `ring` comes before (`x`, `y`) in the search. */
  predicate Earlier(ring: nat, dx: int, dy: int, x: int, y: int) {
    var r := MaxOf(Abs(dx), Abs(dy));
    r < ring || (r == ring && (dx < x || (dx == x && dy < y)))
  }

  /** The points filed in the cells searched before (`x`, `y`) of ring `ring`. */
  ghost function SearchedSoFar(q: Query, points: set<Point>, ring: nat, x: int, y: int): set<Point> {
    set p | p in points && Earlier(ring, Column(p.lon) - Column(q.lon), Column(p.lat) - Column(q.lat), x, y)
  }

  /** Searching a cell adds its bucket, if the cell is in the ring. */
  lemma CellAdds(q: Query, points: set<Point>, ring: nat, dx: int, dy: int, bucket: set<Point>)
    requires bucket == set p | p in points && Column(p.lon) == Column(q.lon) + dx && Column(p.lat) == Column(q.lat) + dy
    ensures MaxOf(Abs(dx), Abs(dy)) == ring ==>
              SearchedSoFar(q, points, ring, dx, dy + 1) == SearchedSoFar(q, points, ring, dx, dy) + bucket
    ensures MaxOf(Abs(dx), Abs(dy)) < ring ==>
              SearchedSoFar(q, points, ring, dx, dy + 1) == SearchedSoFar(q, points, ring, dx, dy)
  {
  }

  lemma ColumnDone(q: Query, points: set<Point>, ring: nat, dx: int)
    ensures SearchedSoFar(q, points, ring, dx, ring + 1) == SearchedSoFar(q, points, ring, dx + 1, -(ring as int))
  {
  }

  lemma RingDone(q: Query, points: set<Point>, ring: nat)
    ensures SearchedSoFar(q, points, ring, ring + 1, -(ring as int)) == Within(q, points, ring)
    ensures SearchedSoFar(q, points, ring + 1, -(ring as int + 1), -(ring as int + 1)) == Within(q, points, ring)
  {
  }

  class Grid {
    var cells: map<(int, int), seq<Point>>
    ghost var points: set<Point>

    /** Every point is in its own cell's bucket, and the buckets hold nothing else. */
    ghost predicate Valid()
      reads this
    {
      (forall k, p :: k in cells && p in cells[k] ==> p in points && KeyOf(p.lon, p.lat) == k) &&
      forall p :: p in points ==> KeyOf(p.lon, p.lat) in cells && p in cells[KeyOf(p.lon, p.lat)]
    }

    constructor (all: seq<Point>)
      ensures Valid() && points == set p | p in all
    {
      cells, points := map[], {};
      new;
      for i := 0 to |all|
        invariant Valid() && points == set p | p in all[..i]
      {
        var p := all[i];
        var key := KeyOf(p.lon, p.lat);
        var bucket := if key in cells then cells[key] else [];
        assert forall k :: k in bucket + [p] <==> k in bucket || k == p;
        cells := cells[key := bucket + [p]];
        points := points + {p};
      }
      assert all[..|all|] == all;
    }

    /** `self.cells.get(key, ())`: exactly the points of that cell. */
    function Bucket(key: (int, int)): (bucket: seq<Point>)
      requires Valid()
      reads this
      ensures forall p :: p in bucket <==> p in points && KeyOf(p.lon, p.lat) == key
    {
      if key in cells then cells[key] else []
    }

    /** One cell of the square: scanned if it is on the ring. */
    method VisitCell(q: Query, ring: nat, dx: int, dy: int, best0: Option<nat>, best20: real)
      returns (best: Option<nat>, best2: real)
      requires Valid() && Abs(dx) <= ring && Abs(dy) <= ring
      requires Answers(q, SearchedSoFar(q, points, ring, dx, dy), best0, best20)
      ensures Answers(q, SearchedSoFar(q, points, ring, dx, dy + 1), best, best2)
    {
      best, best2 := best0, best20;
      ghost var seen := SearchedSoFar(q, points, ring, dx, dy);
      var bucket := Bucket((Column(q.lon) + dx, Column(q.lat) + dy));
      CellAdds(q, points, ring, dx, dy, set p | p in bucket);
      if MaxOf(Abs(dx), Abs(dy)) == ring {
        best, best2 := ScanBucket(q, bucket, best, best2, seen);
      }
    }

    /** One ring of the search: its cells column by column. */
    method SearchRing(q: Query, ring: int, best0: Option<nat>, best20: real)
      returns (best: Option<nat>, best2: real)
      requires Valid() && 0 <= ring
      requires Answers(q, SearchedSoFar(q, points, ring, -ring, -ring), best0, best20)
      ensures Answers(q, Within(q, points, ring), best, best2)
    {
      best, best2 := best0, best20;
      for dx := -ring to ring + 1
        invariant Answers(q, SearchedSoFar(q, points, ring, dx, -ring), best, best2)
      {
        for dy := -ring to ring + 1
          invariant Answers(q, SearchedSoFar(q, points, ring, dx, dy), best, best2)
        {
          best, best2 := VisitCell(q, ring, dx, dy, best, best2);
        }
        ColumnDone(q, points, ring, dx);
      }
      RingDone(q, points, ring);
    }

    /** The closest point other than `exclude` within `maxRings` cells, or None when there is
        none. Within reach of those rings it is the closest of all. */
    method Nearest(q: Query, maxRings: nat) returns (best: Option<nat>)
      requires Valid() && 0.0 <= q.shrink <= 1.0
      ensures exists d2 :: Found(q, points, maxRings, best, d2)
      ensures best.Some? ==> IsNearestOf(q, Within(q, points, maxRings), best.value)
    {
      best := None;
      var d2 := 0.0;
      for ring := 0 to maxRings + 1
        invariant Answers(q, SearchedSoFar(q, points, ring, -ring, -ring), best, d2)
      {
        best, d2 := SearchRing(q, ring, best, d2);
        if best.Some? && d2 <= Reach2(q, ring) {
          NearIsNearestOfAll(q, points, ring, best.value, d2);
          assert Found(q, points, maxRings, best, d2);
          LeastIsNearest(q, Within(q, points, maxRings), best.value, d2);
          return;
        }
        RingDone(q, points, ring);
      }
      RingDone(q, points, maxRings);
      if best.Some? && d2 <= Reach2(q, maxRings) {
        NearIsNearestOfAll(q, points, maxRings, best.value, d2);
      }
      assert Found(q, points, maxRings, best, d2);
      if best.Some? { LeastIsNearest(q, Within(q, points, maxRings), best.value, d2); }
    }
  }
}
