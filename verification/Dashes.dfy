/**
 Dashed lines (topo/pipeline.py: `draw_dashed_line`).

 Distances run along the whole polyline. The theorem: what is drawn is exactly
 where the distance, modulo the dash period, is below the dash length, whatever
 the bends.
 */
module Dashes {
  datatype Point = Point(x: real, y: real)

  type Metric = (Point, Point) -> real

  /** A stroke on leg `leg`, from `d` along it for `run`, as the two points drawn. */
  datatype Stroke = Stroke(leg: nat, d: real, run: real, a: Point, b: Point)

  // --------------------------------------------------------------- the period

  /** How many whole periods lie before `s`. */
  function Cycle(s: real, period: real): int
    requires period > 0.0
  {
    (s / period).Floor
  }

  /** `s % period`. */
  function Phase(s: real, period: real): real
    requires period > 0.0
  {
    s - Times(Cycle(s, period), period)
  }

  function Times(n: int, period: real): real {
    n as real * period
  }

  /** Comparing quotients by comparing what they divide. */
  lemma TimesOrder(a: real, b: real, period: real)
    requires period > 0.0
    ensures a < b <==> a * period < b * period
  {
    assert (b - a) * period == b * period - a * period;
    if a < b { assert (b - a) * period > 0.0; }
    if a >= b { assert (a - b) * period >= 0.0; }
  }

  lemma FloorBounds(s: real, period: real, q: real, n: real)
    requires period > 0.0 && q * period == s && n <= q < n + 1.0
    ensures n * period <= s < n * period + period
  {
    var below, above := q - n, n + 1.0 - q;
    assert below * period >= 0.0 && below * period == s - n * period;
    assert above * period > 0.0 && above * period == n * period + period - s;
  }

  lemma PhaseBounds(s: real, period: real)
    requires period > 0.0
    ensures 0.0 <= Phase(s, period) < period
  {
    assert (s / period) * period == s;
    FloorBounds(s, period, s / period, Cycle(s, period) as real);
  }

  lemma QuotientFloor(s: real, period: real, n: int, q: real)
    requires period > 0.0 && q * period == s && n as real * period <= s < n as real * period + period
    ensures q.Floor == n
  {
    TimesOrder(q, n as real, period);
    TimesOrder(q, n as real + 1.0, period);
  }

  lemma CycleIs(s: real, period: real, n: int)
    requires period > 0.0 && Times(n, period) <= s < Times(n, period) + period
    ensures Cycle(s, period) == n
  {
    assert (s / period) * period == s;
    QuotientFloor(s, period, n, s / period);
  }

  /** The phase is what is left of `s` after whole periods, and nothing else is. */
  lemma PhaseIsRemainder(s: real, period: real, t: real)
    requires period > 0.0
    ensures t == Phase(s, period) <==> 0.0 <= t < period && exists n: int :: s == Times(n, period) + t
  {
    PhaseBounds(s, period);
    if t == Phase(s, period) {
      assert s == Times(Cycle(s, period), period) + t;
    } else if n: int :| s == Times(n, period) + t {
      if 0.0 <= t < period { CycleIs(s, period, n); }
    }
  }

  /** Inside a period the phase just grows. */
  lemma PhaseGrows(s: real, t: real, period: real)
    requires period > 0.0 && s <= t < s + (period - Phase(s, period))
    ensures Cycle(t, period) == Cycle(s, period) && Phase(t, period) == Phase(s, period) + (t - s)
  {
    PhaseBounds(s, period);
    CycleIs(t, period, Cycle(s, period));
  }

  /** The next period starts at phase 0. */
  lemma PhaseWraps(s: real, period: real)
    requires period > 0.0
    ensures var t := s + (period - Phase(s, period));
            Cycle(t, period) == Cycle(s, period) + 1 && Phase(t, period) == 0.0
  {
    var t, n := s + (period - Phase(s, period)), Cycle(s, period) + 1;
    assert Times(n, period) == Times(n - 1, period) + period;
    CycleIs(t, period, n);
  }

  /** The ends of dashes and gaps before `s`. */
  function Boundaries(s: real, on: real, period: real): int
    requires period > 0.0
  {
    2 * Cycle(s, period) + if Phase(s, period) < on then 0 else 1
  }

  lemma CyclesGrow(s: real, t: real, period: real)
    requires period > 0.0 && s <= t
    ensures Cycle(s, period) <= Cycle(t, period)
  {
    var a, b := s / period, t / period;
    assert a * period == s && b * period == t;
    TimesOrder(b, a, period);
  }

  lemma BoundariesGrow(s: real, t: real, on: real, period: real)
    requires 0.0 < on < period && s <= t
    ensures Boundaries(s, on, period) <= Boundaries(t, on, period)
  {
    CyclesGrow(s, t, period);
  }

  // ----------------------------------------------------------------- the legs

  ghost predicate IsMetric(hypot: Metric) {
    forall a, b :: hypot(a, b) >= 0.0
  }

  /** The distance along the polyline to the start of leg `n`. */
  ghost function LengthTo(pts: seq<Point>, hypot: Metric, n: nat): real
    requires n < |pts|
  {
    if n == 0 then 0.0 else LengthTo(pts, hypot, n - 1) + hypot(pts[n - 1], pts[n])
  }

  /** The point `d` along the leg from `p` to `q`, `seg` long. */
  function PointAt(p: Point, q: Point, seg: real, d: real): Point
    requires seg > 0.0
  {
    Point(p.x + (q.x - p.x) / seg * d, p.y + (q.y - p.y) / seg * d)
  }

  /** The stroke lies on its leg, and is drawn there. */
  ghost predicate OnLeg(pts: seq<Point>, hypot: Metric, k: Stroke) {
    k.leg + 1 < |pts| && 0.0 <= k.d && k.run > 0.0 && k.d + k.run <= hypot(pts[k.leg], pts[k.leg + 1]) &&
    var p, q, seg := pts[k.leg], pts[k.leg + 1], hypot(pts[k.leg], pts[k.leg + 1]);
    k.a == PointAt(p, q, seg, k.d) && k.b == PointAt(p, q, seg, k.d + k.run)
  }

  /** A leg's ends are its points, so dashes meet at a bend. */
  lemma LegEnds(p: Point, q: Point, seg: real)
    requires seg > 0.0
    ensures PointAt(p, q, seg, 0.0) == p && PointAt(p, q, seg, seg) == q
  {
    assert (q.x - p.x) / seg * seg == q.x - p.x;
    assert (q.y - p.y) / seg * seg == q.y - p.y;
  }

  /** Between them the point moves in proportion to the distance. */
  lemma PointIsProportional(p: Point, q: Point, seg: real, d: real)
    requires seg > 0.0
    ensures var at := PointAt(p, q, seg, d);
            (at.x - p.x) * seg == (q.x - p.x) * d && (at.y - p.y) * seg == (q.y - p.y) * d
  {
    UnitTimes(q.x - p.x, seg, d);
    UnitTimes(q.y - p.y, seg, d);
  }

  lemma UnitTimes(x: real, seg: real, d: real)
    requires seg > 0.0
    ensures x / seg * d * seg == x * d
  {
    assert x / seg * seg == x;
    assert x / seg * d * seg == x / seg * seg * d;
  }

  ghost predicate AllOnLegs(pts: seq<Point>, hypot: Metric, strokes: seq<Stroke>) {
    forall i :: 0 <= i < |strokes| ==> OnLeg(pts, hypot, strokes[i])
  }

  /** The stroke covers distance `s`. */
  ghost predicate CoversAt(pts: seq<Point>, hypot: Metric, k: Stroke, s: real)
    requires k.leg < |pts|
  {
    var start := LengthTo(pts, hypot, k.leg) + k.d;
    start <= s < start + k.run
  }

  ghost predicate Covered(pts: seq<Point>, hypot: Metric, strokes: seq<Stroke>, s: real)
    requires AllOnLegs(pts, hypot, strokes)
  {
    exists i :: 0 <= i < |strokes| && CoversAt(pts, hypot, strokes[i], s)
  }

  /** Up to `end`, what is drawn is exactly what is in a dash; past it, nothing yet. */
  ghost predicate DrawnTo(pts: seq<Point>, hypot: Metric, strokes: seq<Stroke>, on: real, period: real, end: real)
    requires AllOnLegs(pts, hypot, strokes) && period > 0.0
  {
    forall s :: s >= 0.0 ==> (Covered(pts, hypot, strokes, s) <==> s < end && Phase(s, period) < on)
  }

  lemma CoveredGrows(pts: seq<Point>, hypot: Metric, strokes: seq<Stroke>, k: Stroke, s: real)
    requires AllOnLegs(pts, hypot, strokes) && OnLeg(pts, hypot, k)
    ensures AllOnLegs(pts, hypot, strokes + [k])
    ensures Covered(pts, hypot, strokes + [k], s) <==> Covered(pts, hypot, strokes, s) || CoversAt(pts, hypot, k, s)
  {
    var more := strokes + [k];
    if Covered(pts, hypot, strokes, s) {
      var i :| 0 <= i < |strokes| && CoversAt(pts, hypot, strokes[i], s);
      assert more[i] == strokes[i];
    }
    if CoversAt(pts, hypot, k, s) { assert more[|strokes|] == k; }
  }

  /** One stroke, within the dash at `x`. */
  lemma DashDrawn(pts: seq<Point>, hypot: Metric, strokes: seq<Stroke>, k: Stroke, on: real, period: real, x: real)
    requires AllOnLegs(pts, hypot, strokes) && OnLeg(pts, hypot, k) && 0.0 < on < period && x >= 0.0
    requires DrawnTo(pts, hypot, strokes, on, period, x) && x == LengthTo(pts, hypot, k.leg) + k.d
    requires Phase(x, period) + k.run <= on
    ensures AllOnLegs(pts, hypot, strokes + [k]) && DrawnTo(pts, hypot, strokes + [k], on, period, x + k.run)
  {
    forall s | s >= 0.0
      ensures Covered(pts, hypot, strokes + [k], s) <==> s < x + k.run && Phase(s, period) < on
    {
      CoveredGrows(pts, hypot, strokes, k, s);
      if x <= s < x + k.run { PhaseGrows(x, s, period); }
    }
  }

  /** A gap draws nothing. */
  lemma GapSkipped(pts: seq<Point>, hypot: Metric, strokes: seq<Stroke>, on: real, period: real, x: real, end: real)
    requires AllOnLegs(pts, hypot, strokes) && 0.0 < on < period && x >= 0.0
    requires DrawnTo(pts, hypot, strokes, on, period, x) && x <= end <= x + (period - Phase(x, period)) &&
             Phase(x, period) >= on
    ensures DrawnTo(pts, hypot, strokes, on, period, end)
  {
    forall s | s >= 0.0 ensures Covered(pts, hypot, strokes, s) <==> s < end && Phase(s, period) < on {
      if x <= s < end { PhaseGrows(x, s, period); }
    }
  }

  function Min(x: real, y: real): real { if x < y then x else y }

  function Max(x: real, y: real): real { if x < y then y else x }

  /** The dash ends, or the leg does. */
  lemma DashStep(x: real, run: real, on: real, period: real)
    requires 0.0 < on < period && Phase(x, period) < on && run == on - Phase(x, period)
    ensures Boundaries(x + run, on, period) == Boundaries(x, on, period) + 1
  {
    PhaseBounds(x, period);
    PhaseGrows(x, x + run, period);
  }

  lemma GapStep(x: real, on: real, period: real)
    requires 0.0 < on < period && Phase(x, period) >= on
    ensures Boundaries(x + (period - Phase(x, period)), on, period) == Boundaries(x, on, period) + 1
  {
    PhaseWraps(x, period);
  }

  /** One turn of the loop over leg `leg`, from `d` along it. */
  method DrawOne(pts: seq<Point>, hypot: Metric, leg: nat, pos: real, seg: real, on: real, period: real,
                 before: seq<Stroke>, from: real)
    returns (strokes: seq<Stroke>, d: real)
    requires leg + 1 < |pts| && seg == hypot(pts[leg], pts[leg + 1]) && 0.0 <= from < seg && 0.0 < on < period
    requires pos == LengthTo(pts, hypot, leg) && pos >= 0.0
    requires AllOnLegs(pts, hypot, before) && DrawnTo(pts, hypot, before, on, period, pos + from)
    ensures d > from && AllOnLegs(pts, hypot, strokes) && DrawnTo(pts, hypot, strokes, on, period, pos + Min(d, seg))
    ensures d == seg || Boundaries(pos + d, on, period) == Boundaries(pos + from, on, period) + 1
  {
    var x, p, q := pos + from, pts[leg], pts[leg + 1];
    var phase := Phase(x, period);
    PhaseBounds(x, period);
    if phase < on {
      var run := Min(on - phase, seg - from);
      var k := Stroke(leg, from, run, PointAt(p, q, seg, from), PointAt(p, q, seg, from + run));
      DashDrawn(pts, hypot, before, k, on, period, x);
      if run == on - phase { DashStep(x, run, on, period); }
      strokes, d := before + [k], from + run;
      assert x + run == pos + d;
    } else {
      strokes, d := before, from + (period - phase);
      assert x + (period - phase) == pos + d;
      GapSkipped(pts, hypot, before, on, period, x, pos + Min(d, seg));
      GapStep(x, on, period);
    }
  }

  /** One leg: dashes and gaps from distance `pos`. It ends because each turn passes a boundary. */
  method DrawLeg(pts: seq<Point>, hypot: Metric, leg: nat, pos: real, seg: real, on: real, period: real,
                 before: seq<Stroke>)
    returns (strokes: seq<Stroke>)
    requires leg + 1 < |pts| && seg == hypot(pts[leg], pts[leg + 1]) && seg > 0.0 && 0.0 < on < period
    requires pos == LengthTo(pts, hypot, leg) && pos >= 0.0
    requires AllOnLegs(pts, hypot, before) && DrawnTo(pts, hypot, before, on, period, pos)
    ensures AllOnLegs(pts, hypot, strokes) && DrawnTo(pts, hypot, strokes, on, period, pos + seg)
  {
    strokes := before;
    var d := 0.0;
    while d < seg
      invariant d >= 0.0 && AllOnLegs(pts, hypot, strokes)
      invariant DrawnTo(pts, hypot, strokes, on, period, pos + Min(d, seg))
      decreases Boundaries(pos + seg, on, period) - Boundaries(pos + d, on, period) + if d < seg then 1 else 0
    {
      BoundariesGrow(pos + d, pos + seg, on, period);
      strokes, d := DrawOne(pts, hypot, leg, pos, seg, on, period, strokes, d);
    }
  }

  /** `draw_dashed_line`: `hypot` is the distance it measures by. */
  method DrawDashedLine(pts: seq<Point>, width: real, dash: (real, real), hypot: Metric)
    returns (strokes: seq<Stroke>, ghost on: real, ghost period: real)
    requires IsMetric(hypot)
    ensures on == (if dash.0 * width > 1.0 then dash.0 * width else 1.0)
    ensures period == on + if dash.1 * width > 1.0 then dash.1 * width else 1.0
    ensures AllOnLegs(pts, hypot, strokes)
    ensures |pts| > 0 ==> DrawnTo(pts, hypot, strokes, on, period, LengthTo(pts, hypot, |pts| - 1))
    ensures |pts| == 0 ==> strokes == []
  {
    var onPx, offPx := Max(1.0, dash.0 * width), Max(1.0, dash.1 * width);
    var all := onPx + offPx;
    on, period := onPx, all;
    strokes := [];
    if |pts| == 0 { return; }
    var pos := 0.0;
    for leg := 0 to |pts| - 1
      invariant pos == LengthTo(pts, hypot, leg) && pos >= 0.0
      invariant AllOnLegs(pts, hypot, strokes) && DrawnTo(pts, hypot, strokes, onPx, all, pos)
    {
      var seg := hypot(pts[leg], pts[leg + 1]);
      if seg <= 0.0 { continue; }
      strokes := DrawLeg(pts, hypot, leg, pos, seg, onPx, all, strokes);
      pos := pos + seg;
    }
  }
}
