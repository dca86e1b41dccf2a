/**
 Morphological closing (topo/pipeline.py: `_binary_close`).

 The passes use the four neighbours, so the element is a diamond. A mask is the
 set of its cells that are on; everything happens inside the `h` x `w` grid.
 */
module Closing {
  import opened Common

  datatype Cell = Cell(r: int, c: int)

  function Cells(h: nat, w: nat): set<Cell> {
    set r, c | 0 <= r < h && 0 <= c < w :: Cell(r, c)
  }

  function Distance(p: Cell, q: Cell): nat {
    Abs(p.r - q.r) + Abs(p.c - q.c)
  }

  /** One pass: a cell comes on if it or a neighbour is on. */
  ghost function Dilated(s: set<Cell>, h: nat, w: nat): set<Cell> {
    set p | p in Cells(h, w) && exists q :: q in s && Distance(p, q) <= 1
  }

  /** One pass: a cell stays on if it and its neighbours in the grid are on. */
  ghost function Eroded(s: set<Cell>, h: nat, w: nat): set<Cell> {
    set p | p in Cells(h, w) && forall q :: q in Cells(h, w) && Distance(p, q) <= 1 ==> q in s
  }

  ghost function DilatedBy(s: set<Cell>, n: nat, h: nat, w: nat): set<Cell> {
    if n == 0 then s else Dilated(DilatedBy(s, n - 1, h, w), h, w)
  }

  ghost function ErodedBy(s: set<Cell>, n: nat, h: nat, w: nat): set<Cell> {
    if n == 0 then s else Eroded(ErodedBy(s, n - 1, h, w), h, w)
  }

  ghost function Closed(s: set<Cell>, radius: int, h: nat, w: nat): set<Cell> {
    if radius <= 0 then s else ErodedBy(DilatedBy(s, radius, h, w), radius, h, w)
  }

  // ------------------------------------------------------------ the diamond

  /** The neighbour of `p` one step nearer `q`. */
  function Toward(p: Cell, q: Cell): Cell {
    if p.r < q.r then Cell(p.r + 1, p.c) else if p.r > q.r then Cell(p.r - 1, p.c)
    else if p.c < q.c then Cell(p.r, p.c + 1) else if p.c > q.c then Cell(p.r, p.c - 1) else p
  }

  lemma TowardIsNearer(p: Cell, q: Cell, h: nat, w: nat)
    requires p in Cells(h, w) && q in Cells(h, w)
    ensures Toward(p, q) in Cells(h, w) && Distance(p, Toward(p, q)) <= 1
    ensures p != q ==> Distance(Toward(p, q), q) == Distance(p, q) - 1
  {
  }

  lemma Triangle(p: Cell, q: Cell, m: Cell)
    ensures Distance(p, q) <= Distance(p, m) + Distance(m, q)
  {
  }

  ghost predicate HasWithin(s: set<Cell>, n: nat, p: Cell) {
    exists q :: q in s && Distance(p, q) <= n
  }

  ghost predicate AllWithin(s: set<Cell>, n: nat, p: Cell, h: nat, w: nat) {
    forall q :: q in Cells(h, w) && Distance(p, q) <= n ==> q in s
  }

  /** `n` dilations reach exactly the cells within `n` steps. */
  lemma {:induction false} DilatedIsDiamond(s: set<Cell>, n: nat, h: nat, w: nat, p: Cell)
    requires s <= Cells(h, w) && p in Cells(h, w)
    ensures p in DilatedBy(s, n, h, w) <==> HasWithin(s, n, p)
  {
    if n > 0 {
      var before := DilatedBy(s, n - 1, h, w);
      if p in DilatedBy(s, n, h, w) {
        var m :| m in before && Distance(p, m) <= 1;
        DilationStaysInGrid(s, n - 1, h, w);
        DilatedIsDiamond(s, n - 1, h, w, m);
        var q :| q in s && Distance(m, q) <= n - 1;
        Triangle(p, q, m);
      }
      if HasWithin(s, n, p) {
        var q :| q in s && Distance(p, q) <= n;
        TowardIsNearer(p, q, h, w);
        DilatedIsDiamond(s, n - 1, h, w, Toward(p, q));
      }
    }
  }

  lemma {:induction false} DilationStaysInGrid(s: set<Cell>, n: nat, h: nat, w: nat)
    requires s <= Cells(h, w)
    ensures DilatedBy(s, n, h, w) <= Cells(h, w)
  {
    if n > 0 { DilationStaysInGrid(s, n - 1, h, w); }
  }

  /** `n` erosions keep exactly the cells with the whole of their diamond on. */
  lemma {:induction false} ErodedIsDiamond(s: set<Cell>, n: nat, h: nat, w: nat, p: Cell)
    requires s <= Cells(h, w) && p in Cells(h, w)
    ensures p in ErodedBy(s, n, h, w) <==> AllWithin(s, n, p, h, w)
  {
    if n > 0 {
      var before := ErodedBy(s, n - 1, h, w);
      if p in ErodedBy(s, n, h, w) {
        forall q | q in Cells(h, w) && Distance(p, q) <= n ensures q in s {
          TowardIsNearer(p, q, h, w);
          ErodedIsDiamond(s, n - 1, h, w, Toward(p, q));
        }
      }
      if AllWithin(s, n, p, h, w) {
        forall m | m in Cells(h, w) && Distance(p, m) <= 1 ensures m in before {
          forall q | q in Cells(h, w) && Distance(m, q) <= n - 1 ensures q in s {
            Triangle(p, q, m);
          }
          ErodedIsDiamond(s, n - 1, h, w, m);
        }
      }
    }
  }

  // ------------------------------------------------------------ a true closing

  /** Erosion is the adjoint of dilation, border clipping and all. */
  lemma ErosionIsAdjoint(s: set<Cell>, t: set<Cell>, n: nat, h: nat, w: nat)
    requires s <= Cells(h, w) && t <= Cells(h, w)
    ensures DilatedBy(s, n, h, w) <= t <==> s <= ErodedBy(t, n, h, w)
  {
    DilationStaysInGrid(s, n, h, w);
    if DilatedBy(s, n, h, w) <= t {
      forall p | p in s ensures p in ErodedBy(t, n, h, w) {
        forall q | q in Cells(h, w) && Distance(p, q) <= n ensures q in t {
          Symmetric(p, q);
          DilatedIsDiamond(s, n, h, w, q);
        }
        ErodedIsDiamond(t, n, h, w, p);
      }
    }
    if s <= ErodedBy(t, n, h, w) {
      forall q | q in DilatedBy(s, n, h, w) ensures q in t {
        DilatedIsDiamond(s, n, h, w, q);
        var p :| p in s && Distance(q, p) <= n;
        Symmetric(p, q);
        ErodedIsDiamond(t, n, h, w, p);
      }
    }
  }

  lemma Symmetric(p: Cell, q: Cell)
    ensures Distance(p, q) == Distance(q, p)
  {
  }

  lemma {:induction false} ErosionShrinks(s: set<Cell>, n: nat, h: nat, w: nat)
    requires s <= Cells(h, w)
    ensures ErodedBy(s, n, h, w) <= s
  {
    if n > 0 { ErosionShrinks(s, n - 1, h, w); }
  }

  lemma ClosingStaysInGrid(s: set<Cell>, radius: int, h: nat, w: nat)
    requires s <= Cells(h, w)
    ensures Closed(s, radius, h, w) <= Cells(h, w)
  {
    if radius > 0 {
      DilationStaysInGrid(s, radius, h, w);
      ErosionShrinks(DilatedBy(s, radius, h, w), radius, h, w);
    }
  }

  /** Closing loses nothing. */
  lemma ClosingIsExtensive(s: set<Cell>, radius: int, h: nat, w: nat)
    requires s <= Cells(h, w)
    ensures s <= Closed(s, radius, h, w)
  {
    if radius > 0 {
      DilationStaysInGrid(s, radius, h, w);
      ErosionIsAdjoint(s, DilatedBy(s, radius, h, w), radius, h, w);
    }
  }

  /** A larger mask closes to a larger one. */
  lemma ClosingIsMonotone(s: set<Cell>, t: set<Cell>, radius: int, h: nat, w: nat)
    requires s <= t <= Cells(h, w)
    ensures Closed(s, radius, h, w) <= Closed(t, radius, h, w)
  {
    ClosingStaysInGrid(s, radius, h, w);
    forall p | p in Closed(s, radius, h, w) ensures p in Closed(t, radius, h, w) {
      if radius > 0 {
        ClosedIsBetween(s, radius, h, w, p);
        ClosedIsBetween(t, radius, h, w, p);
      }
    }
  }

  /** Closing again changes nothing. */
  lemma ClosingIsIdempotent(s: set<Cell>, radius: int, h: nat, w: nat)
    requires s <= Cells(h, w)
    ensures Closed(Closed(s, radius, h, w), radius, h, w) == Closed(s, radius, h, w)
  {
    if radius > 0 {
      var grown, once := DilatedBy(s, radius, h, w), Closed(s, radius, h, w);
      DilationStaysInGrid(s, radius, h, w);
      ClosingStaysInGrid(s, radius, h, w);
      ErosionIsAdjoint(once, grown, radius, h, w);
      assert DilatedBy(once, radius, h, w) <= grown;
      ClosingIsExtensive(s, radius, h, w);
      DilationIsMonotone(s, once, radius, h, w);
      assert DilatedBy(once, radius, h, w) == grown;
    }
  }

  lemma {:induction false} DilationIsMonotone(s: set<Cell>, t: set<Cell>, n: nat, h: nat, w: nat)
    requires s <= t
    ensures DilatedBy(s, n, h, w) <= DilatedBy(t, n, h, w)
  {
    if n > 0 { DilationIsMonotone(s, t, n - 1, h, w); }
  }

  /** What is on after closing: a cell all of whose diamond is within a diamond of the mask. */
  lemma ClosedIsBetween(s: set<Cell>, radius: int, h: nat, w: nat, p: Cell)
    requires radius > 0 && s <= Cells(h, w) && p in Cells(h, w)
    ensures p in Closed(s, radius, h, w) <==>
            forall q :: q in Cells(h, w) && Distance(p, q) <= radius ==> HasWithin(s, radius, q)
  {
    DilationStaysInGrid(s, radius, h, w);
    ErodedIsDiamond(DilatedBy(s, radius, h, w), radius, h, w, p);
    forall q | q in Cells(h, w) ensures q in DilatedBy(s, radius, h, w) <==> HasWithin(s, radius, q) {
      DilatedIsDiamond(s, radius, h, w, q);
    }
  }

  // ------------------------------------------------------------ bridging a gap

  /** Everything but the columns from `a` to `a + gap`. */
  function Sides(a: nat, gap: nat, h: nat, w: nat): set<Cell> {
    set p | p in Cells(h, w) && !(a <= p.c < a + gap)
  }

  /** A gap between two sides is bridged exactly when it is no wider than twice the radius. */
  lemma GapIsBridged(a: nat, gap: nat, h: nat, w: nat, radius: nat)
    requires h > 0 && 0 < a && a + gap < w
    ensures Closed(Sides(a, gap, h, w), radius, h, w) == Cells(h, w) <==> gap <= 2 * radius
  {
    var s := Sides(a, gap, h, w);
    ClosingStaysInGrid(s, radius, h, w);
    if radius == 0 {
      if gap > 0 { assert Cell(0, a) in Cells(h, w); }
    } else if gap <= 2 * radius {
      forall p | p in Cells(h, w) ensures p in Closed(s, radius, h, w) {
        forall q | q in Cells(h, w) ensures HasWithin(s, radius, q) {
          var side := if q in s then q else if q.c < a + radius then Cell(q.r, a - 1) else Cell(q.r, a + gap);
          assert side in s && Distance(q, side) <= radius;
        }
        ClosedIsBetween(s, radius, h, w, p);
      }
    } else {
      var middle := Cell(0, a + radius);
      assert middle in Cells(h, w) && Distance(middle, middle) <= radius;
      assert !HasWithin(s, radius, middle);
      ClosedIsBetween(s, radius, h, w, middle);
    }
  }

  // ------------------------------------------------------------ the operations

  ghost function On(a: array2<bool>): (s: set<Cell>)
    reads a
    ensures s <= Cells(a.Length0, a.Length1)
    ensures forall p :: p in s <==> p in Cells(a.Length0, a.Length1) && a[p.r, p.c]
  {
    set p | p in Cells(a.Length0, a.Length1) && a[p.r, p.c]
  }

  method Copy(a: array2<bool>) returns (out: array2<bool>)
    ensures fresh(out) && out.Length0 == a.Length0 && out.Length1 == a.Length1
    ensures forall r, c :: 0 <= r < a.Length0 && 0 <= c < a.Length1 ==> out[r, c] == a[r, c]
  {
    out := new bool[a.Length0, a.Length1]((r, c) requires 0 <= r < a.Length0 && 0 <= c < a.Length1 reads a => a[r, c]);
  }

  /** The cell or one of its four neighbours is on. */
  predicate AnyNear(a: array2<bool>, r: int, c: int)
    requires 0 <= r < a.Length0 && 0 <= c < a.Length1
    reads a
  {
    a[r, c] || (1 <= r && a[r - 1, c]) || (r < a.Length0 - 1 && a[r + 1, c]) ||
    (1 <= c && a[r, c - 1]) || (c < a.Length1 - 1 && a[r, c + 1])
  }

  predicate AllNear(a: array2<bool>, r: int, c: int)
    requires 0 <= r < a.Length0 && 0 <= c < a.Length1
    reads a
  {
    a[r, c] && (1 <= r ==> a[r - 1, c]) && (r < a.Length0 - 1 ==> a[r + 1, c]) &&
    (1 <= c ==> a[r, c - 1]) && (c < a.Length1 - 1 ==> a[r, c + 1])
  }

  lemma AnyNearIsDilated(a: array2<bool>, r: int, c: int)
    requires 0 <= r < a.Length0 && 0 <= c < a.Length1
    ensures AnyNear(a, r, c) <==> Cell(r, c) in Dilated(On(a), a.Length0, a.Length1)
  {
    var p, s := Cell(r, c), On(a);
    if AnyNear(a, r, c) {
      var q := if a[r, c] then p else if 1 <= r && a[r - 1, c] then Cell(r - 1, c)
               else if r < a.Length0 - 1 && a[r + 1, c] then Cell(r + 1, c)
               else if 1 <= c && a[r, c - 1] then Cell(r, c - 1) else Cell(r, c + 1);
      assert q in s && Distance(p, q) <= 1;
    }
    if exists q :: q in s && Distance(p, q) <= 1 {
      var q :| q in s && Distance(p, q) <= 1;
      NeighboursAreFour(p, q);
    }
  }

  lemma AllNearIsEroded(a: array2<bool>, r: int, c: int)
    requires 0 <= r < a.Length0 && 0 <= c < a.Length1
    ensures AllNear(a, r, c) <==> Cell(r, c) in Eroded(On(a), a.Length0, a.Length1)
  {
    var p, s, grid := Cell(r, c), On(a), Cells(a.Length0, a.Length1);
    if AllNear(a, r, c) {
      forall q | q in grid && Distance(p, q) <= 1 ensures q in s {
        NeighboursAreFour(p, q);
      }
    }
    if p in Eroded(s, a.Length0, a.Length1) {
      assert forall q :: q in grid && Distance(p, q) <= 1 ==> q in s;
      assert p in grid && (1 <= r ==> Cell(r - 1, c) in grid) && (r < a.Length0 - 1 ==> Cell(r + 1, c) in grid);
      assert (1 <= c ==> Cell(r, c - 1) in grid) && (c < a.Length1 - 1 ==> Cell(r, c + 1) in grid);
    }
  }

  lemma NeighboursAreFour(p: Cell, q: Cell)
    ensures Distance(p, q) <= 1 <==>
            q == p || q == Cell(p.r - 1, p.c) || q == Cell(p.r + 1, p.c) || q == Cell(p.r, p.c - 1) ||
              q == Cell(p.r, p.c + 1)
  {
  }

  /** `dilate_once`: each of the four `|=` over its slice. */
  method DilateOnce(a: array2<bool>) returns (out: array2<bool>)
    ensures fresh(out) && out.Length0 == a.Length0 && out.Length1 == a.Length1
    ensures On(out) == Dilated(On(a), a.Length0, a.Length1)
  {
    var h, w := a.Length0, a.Length1;
    out := Copy(a);
    forall r, c | 1 <= r < h && 0 <= c < w { out[r, c] := out[r, c] || a[r - 1, c]; }
    forall r, c | 0 <= r < h - 1 && 0 <= c < w { out[r, c] := out[r, c] || a[r + 1, c]; }
    forall r, c | 0 <= r < h && 1 <= c < w { out[r, c] := out[r, c] || a[r, c - 1]; }
    forall r, c | 0 <= r < h && 0 <= c < w - 1 { out[r, c] := out[r, c] || a[r, c + 1]; }
    forall p | p in Cells(h, w) ensures p in On(out) <==> p in Dilated(On(a), h, w) {
      assert out[p.r, p.c] == AnyNear(a, p.r, p.c);
      AnyNearIsDilated(a, p.r, p.c);
    }
  }

  /** `erode_once`. */
  method ErodeOnce(a: array2<bool>) returns (out: array2<bool>)
    ensures fresh(out) && out.Length0 == a.Length0 && out.Length1 == a.Length1
    ensures On(out) == Eroded(On(a), a.Length0, a.Length1)
  {
    var h, w := a.Length0, a.Length1;
    out := Copy(a);
    forall r, c | 1 <= r < h && 0 <= c < w { out[r, c] := out[r, c] && a[r - 1, c]; }
    forall r, c | 0 <= r < h - 1 && 0 <= c < w { out[r, c] := out[r, c] && a[r + 1, c]; }
    forall r, c | 0 <= r < h && 1 <= c < w { out[r, c] := out[r, c] && a[r, c - 1]; }
    forall r, c | 0 <= r < h && 0 <= c < w - 1 { out[r, c] := out[r, c] && a[r, c + 1]; }
    forall p | p in Cells(h, w) ensures p in On(out) <==> p in Eroded(On(a), h, w) {
      assert out[p.r, p.c] == AllNear(a, p.r, p.c);
      AllNearIsEroded(a, p.r, p.c);
    }
  }

  /** `_binary_close`: a radius of 0 or less gives the mask back. */
  method BinaryClose(mask: array2<bool>, radius: int) returns (m: array2<bool>)
    ensures m.Length0 == mask.Length0 && m.Length1 == mask.Length1
    ensures On(m) == Closed(On(mask), radius, mask.Length0, mask.Length1)
    ensures radius <= 0 ==> m == mask
  {
    if radius <= 0 { return mask; }
    var h, w := mask.Length0, mask.Length1;
    m := Copy(mask);
    assert On(m) == On(mask);
    for n := 0 to radius
      invariant m.Length0 == h && m.Length1 == w && On(m) == DilatedBy(On(mask), n, h, w)
    {
      m := DilateOnce(m);
    }
    for n := 0 to radius
      invariant m.Length0 == h && m.Length1 == w && On(m) == ErodedBy(DilatedBy(On(mask), radius, h, w), n, h, w)
    {
      m := ErodeOnce(m);
    }
  }
}
