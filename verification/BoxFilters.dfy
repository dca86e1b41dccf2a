/**
 Box filters by running sums (topo/pipeline.py: `_box_sum_2d`, `_box_blur`).

 Each is proved equal to the direct sum over its padded window.
 */
module BoxFilters {
  import opened Common
  import opened Windows

  /** What an array holds. */
  ghost predicate Shows(a: array2<real>, f: Field<real>)
    reads a
  {
    forall r, c :: 0 <= r < a.Length0 && 0 <= c < a.Length1 ==> a[r, c] == f(r, c)
  }

  datatype Axis = Down | Across

  /** A column of the grid, or a row. */
  ghost function LineOf(f: Field<real>, axis: Axis, l: int): Line {
    if axis == Down then p => f(p, l) else p => f(l, p)
  }

  /** The sums from the start of each line: `np.cumsum`. */
  ghost function Running(f: Field<real>, axis: Axis): Field<real> {
    if axis == Down then (r: int, c: int) => Sum(LineOf(f, Down, c), 0, r + 1)
    else (r: int, c: int) => Sum(LineOf(f, Across, r), 0, c + 1)
  }

  lemma SumStep(f: Line, n: nat)
    ensures Sum(f, 0, n + 1) == (if n == 0 then 0.0 else Sum(f, 0, n)) + f(n)
  {
  }

  lemma RunningStep(f: Field<real>, r: nat, c: nat)
    ensures Running(f, Down)(r, c) == (if r == 0 then 0.0 else Running(f, Down)(r - 1, c)) + f(r, c)
    ensures Running(f, Across)(r, c) == (if c == 0 then 0.0 else Running(f, Across)(r, c - 1)) + f(r, c)
  {
    SumStep(LineOf(f, Down, c), r);
    SumStep(LineOf(f, Across, r), c);
  }

  method CumSumDown(a: array2<real>, ghost f: Field<real>) returns (s: array2<real>)
    requires Shows(a, f)
    ensures fresh(s) && s.Length0 == a.Length0 && s.Length1 == a.Length1 && Shows(s, Running(f, Down))
  {
    var h, w := a.Length0, a.Length1;
    ghost var sums := Running(f, Down);
    s := new real[h, w];
    for n := 0 to h
      invariant forall r, c :: 0 <= r < n && 0 <= c < w ==> s[r, c] == sums(r, c)
    {
      forall c | 0 <= c < w { s[n, c] := (if n == 0 then 0.0 else s[n - 1, c]) + a[n, c]; }
      forall c | 0 <= c < w ensures s[n, c] == sums(n, c) { RunningStep(f, n, c); }
    }
  }

  method CumSumAcross(a: array2<real>, ghost f: Field<real>) returns (s: array2<real>)
    requires Shows(a, f)
    ensures fresh(s) && s.Length0 == a.Length0 && s.Length1 == a.Length1 && Shows(s, Running(f, Across))
  {
    var h, w := a.Length0, a.Length1;
    ghost var sums := Running(f, Across);
    s := new real[h, w];
    for n := 0 to w
      invariant forall r, c :: 0 <= r < h && 0 <= c < n ==> s[r, c] == sums(r, c)
    {
      forall r | 0 <= r < h { s[r, n] := (if n == 0 then 0.0 else s[r, n - 1]) + a[r, n]; }
      forall r | 0 <= r < h ensures s[r, n] == sums(r, n) { RunningStep(f, r, n); }
    }
  }

  /** `np.cumsum(a, axis)`. */
  method CumSum(a: array2<real>, axis: Axis, ghost f: Field<real>) returns (s: array2<real>)
    requires Shows(a, f)
    ensures fresh(s) && s.Length0 == a.Length0 && s.Length1 == a.Length1 && Shows(s, Running(f, axis))
  {
    if axis == Down {
      s := CumSumDown(a, f);
    } else {
      s := CumSumAcross(a, f);
    }
  }

  // ---------------------------------------------------------- the box sum

  /** A rectangle's sum, added cell by cell, column by column. */
  ghost function RectSum(f: Field<real>, r0: int, r1: int, c0: int, c1: int): real {
    Sum(ColumnSums(f, r0, r1), c0, c1)
  }

  ghost function ColumnSums(f: Field<real>, r0: int, r1: int): Line {
    c => Sum(LineOf(f, Down, c), r0, r1)
  }

  lemma RectSplitsRows(f: Field<real>, r0: int, r1: int, r2: int, c0: int, c1: int)
    requires r0 <= r1 <= r2
    ensures RectSum(f, r0, r2, c0, c1) == RectSum(f, r0, r1, c0, c1) + RectSum(f, r1, r2, c0, c1)
  {
    forall c | c0 <= c < c1
      ensures ColumnSums(f, r0, r2)(c) == ColumnSums(f, r0, r1)(c) + ColumnSums(f, r1, r2)(c)
    {
      SumSplits(LineOf(f, Down, c), r0, r1, r2);
    }
    SumOfSums(ColumnSums(f, r0, r1), ColumnSums(f, r1, r2), ColumnSums(f, r0, r2), c0, c1);
  }

  /** A rectangle from the four corners of the summed-area table. */
  lemma RectFromCorners(f: Field<real>, r0: int, r1: int, c0: int, c1: int)
    requires 0 <= r0 <= r1 && 0 <= c0 <= c1
    ensures RectSum(f, r0, r1, c0, c1) ==
            RectSum(f, 0, r1, 0, c1) - RectSum(f, 0, r0, 0, c1) - RectSum(f, 0, r1, 0, c0) + RectSum(f, 0, r0, 0, c0)
  {
    RectSplitsRows(f, 0, r0, r1, 0, c1);
    RectSplitsRows(f, 0, r0, r1, 0, c0);
    SumSplits(ColumnSums(f, r0, r1), 0, c0, c1);
  }

  lemma EmptyRect(f: Field<real>, r: int, c0: int, c1: int)
    ensures RectSum(f, r, r, c0, c1) == 0.0
    decreases c1 - c0
  {
    if c0 < c1 { EmptyRect(f, r, c0, c1 - 1); }
  }

  lemma RunningIsRect(f: Field<real>, r: nat, c: nat)
    ensures Running(Running(f, Down), Across)(r, c) == RectSum(f, 0, r + 1, 0, c + 1)
  {
    SumsAgree(LineOf(Running(f, Down), Across, r), ColumnSums(f, 0, r + 1), 0, c + 1);
  }

  /** The grid reflected past its edges. */
  ghost function Reflected(f: Field<real>, h: nat, w: nat): Field<real>
    requires h > 0 && w > 0
  {
    (r: int, c: int) => f(Reflect(r, h), Reflect(c, w))
  }

  ghost function Moved(f: Field<real>, off: int): Field<real> {
    (r: int, c: int) => f(r - off, c - off)
  }

  /** A window of the padded grid is the same window of the reflected one. */
  lemma RectMoves(f: Field<real>, off: int, r0: int, r1: int, c0: int, c1: int)
    ensures RectSum(Moved(f, off), r0, r1, c0, c1) == RectSum(f, r0 - off, r1 - off, c0 - off, c1 - off)
  {
    var g := Moved(f, off);
    forall c | c0 <= c < c1 ensures ColumnSums(g, r0, r1)(c) == ColumnSums(f, r0 - off, r1 - off)(c - off) {
      SumShifts(LineOf(g, Down, c), LineOf(f, Down, c - off), -off, r0, r1);
    }
    SumShifts(ColumnSums(g, r0, r1), ColumnSums(f, r0 - off, r1 - off), -off, c0, c1);
  }

  /** `arr` is there, `top` rows down and `left` columns in. */
  ghost predicate HasInside(padded: array2<real>, arr: array2<real>, top: nat, left: nat)
    requires padded.Length0 >= top + arr.Length0 && padded.Length1 >= left + arr.Length1
    reads padded, arr
  {
    forall r, c {:trigger InsideAt(padded, arr, top, left, r, c)} ::
      0 <= r < arr.Length0 && 0 <= c < arr.Length1 ==> InsideAt(padded, arr, top, left, r, c)
  }

  ghost predicate InsideAt(padded: array2<real>, arr: array2<real>, top: nat, left: nat, r: nat, c: nat)
    requires padded.Length0 >= top + arr.Length0 && padded.Length1 >= left + arr.Length1
    requires r < arr.Length0 && c < arr.Length1
    reads padded, arr
  {
    padded[top + r, left + c] == arr[r, c]
  }

  /** Rows that are mirror images about row `top` or the `h`th from it are the same. */
  ghost predicate RowsMirror(padded: array2<real>, top: nat, h: nat)
    reads padded
  {
    forall r, s {:trigger AreMirrored(r - top, s - top, h)} ::
      0 <= r < padded.Length0 && 0 <= s < padded.Length0 && AreMirrored(r - top, s - top, h) ==>
        SameRow(padded, r, s)
  }

  ghost predicate SameRow(a: array2<real>, r: nat, s: nat)
    requires r < a.Length0 && s < a.Length0
    reads a
  {
    forall c :: 0 <= c < a.Length1 ==> a[r, c] == a[s, c]
  }

  ghost predicate ColumnsMirror(padded: array2<real>, left: nat, w: nat)
    reads padded
  {
    forall c, d {:trigger AreMirrored(c - left, d - left, w)} ::
      0 <= c < padded.Length1 && 0 <= d < padded.Length1 && AreMirrored(c - left, d - left, w) ==>
        SameColumn(padded, c, d)
  }

  ghost predicate SameColumn(a: array2<real>, c: nat, d: nat)
    requires c < a.Length1 && d < a.Length1
    reads a
  {
    forall r :: 0 <= r < a.Length0 ==> a[r, c] == a[r, d]
  }

  ghost predicate IsReflected(padded: array2<real>, arr: array2<real>, top: nat, left: nat)
    requires arr.Length0 > 0 && arr.Length1 > 0
    reads padded, arr
  {
    padded.Length0 == arr.Length0 + 2 * top && padded.Length1 == arr.Length1 + 2 * left &&
    forall r, c :: 0 <= r < padded.Length0 && 0 <= c < padded.Length1 ==>
      padded[r, c] == arr[Reflect(r - top, arr.Length0), Reflect(c - left, arr.Length1)]
  }

  lemma ReflectedMirrors(padded: array2<real>, arr: array2<real>, top: nat, left: nat)
    requires arr.Length0 > 0 && arr.Length1 > 0 && IsReflected(padded, arr, top, left)
    ensures HasInside(padded, arr, top, left)
    ensures RowsMirror(padded, top, arr.Length0) && ColumnsMirror(padded, left, arr.Length1)
  {
    forall r, c | 0 <= r < arr.Length0 && 0 <= c < arr.Length1 ensures InsideAt(padded, arr, top, left, r, c) {
      assert top + r - top == r && left + c - left == c;
    }
    forall r, s | 0 <= r < padded.Length0 && 0 <= s < padded.Length0 && AreMirrored(r - top, s - top, arr.Length0)
      ensures SameRow(padded, r, s)
    {
      MirroredReadAlike(r - top, s - top, arr.Length0);
    }
    forall c, d | 0 <= c < padded.Length1 && 0 <= d < padded.Length1 && AreMirrored(c - left, d - left, arr.Length1)
      ensures SameColumn(padded, c, d)
    {
      MirroredReadAlike(c - left, d - left, arr.Length1);
    }
  }

  /** `np.pad(arr, half, mode="reflect")`: the array within, and every row and column past its edges
      the mirror image of one on the other side. */
  method PadReflect(arr: array2<real>, half: nat) returns (padded: array2<real>)
    requires arr.Length0 > 0 && arr.Length1 > 0
    ensures fresh(padded) && padded.Length0 == arr.Length0 + 2 * half && padded.Length1 == arr.Length1 + 2 * half
    ensures HasInside(padded, arr, half, half)
    ensures RowsMirror(padded, half, arr.Length0) && ColumnsMirror(padded, half, arr.Length1)
    ensures IsReflected(padded, arr, half, half)
  {
    var h, w := arr.Length0, arr.Length1;
    var h1, w1 := h + 2 * half, w + 2 * half;
    padded := new real[h1, w1];
    forall r, c | 0 <= r < h1 && 0 <= c < w1 { padded[r, c] := arr[Reflect(r - half, h), Reflect(c - half, w)]; }
    ReflectedMirrors(padded, arr, half, half);
  }

  ghost predicate IsTable(sat: array2<real>, f: Field<real>)
    reads sat
  {
    forall r, c :: 0 <= r < sat.Length0 && 0 <= c < sat.Length1 ==> sat[r, c] == RectSum(f, 0, r, 0, c)
  }

  /** The summed-area table, with a leading row and column of zeros. */
  method SummedArea(padded: array2<real>, ghost f: Field<real>) returns (sat: array2<real>)
    requires Shows(padded, f)
    ensures fresh(sat) && sat.Length0 == padded.Length0 + 1 && sat.Length1 == padded.Length1 + 1 && IsTable(sat, f)
  {
    var h, w := padded.Length0, padded.Length1;
    var down := CumSum(padded, Down, f);
    var both := CumSum(down, Across, Running(f, Down));
    sat := new real[h + 1, w + 1]((_, _) => 0.0);
    forall r, c | 1 <= r <= h && 1 <= c <= w { sat[r, c] := both[r - 1, c - 1]; }
    forall r, c | 0 <= r <= h && 0 <= c <= w ensures sat[r, c] == RectSum(f, 0, r, 0, c) {
      if r == 0 {
        EmptyRect(f, 0, 0, c);
      } else if c > 0 {
        RunningIsRect(f, r - 1, c - 1);
      }
    }
  }

  /** What it should be: the sum over the `2 * half + 1` square centred on each cell, reflected past
      the edges. */
  ghost function WindowSums(f: Field<real>, h: nat, w: nat, half: nat): Field<real>
    requires h > 0 && w > 0
  {
    (r: int, c: int) => RectSum(Reflected(f, h, w), r - half, r + half + 1, c - half, c + half + 1)
  }

  /** `g` reads `f` on the grid, and is its own mirror image about its first and last row and column. */
  ghost predicate IsMirroredGrid(f: Field<real>, g: Field<real>, h: nat, w: nat) {
    (forall r, c :: 0 <= r < h && 0 <= c < w ==> g(r, c) == f(r, c)) &&
    (forall c :: IsMirrored(LineOf(g, Down, c), LineOf(g, Down, c), h)) &&
    forall r :: IsMirrored(LineOf(g, Across, r), LineOf(g, Across, r), w)
  }

  lemma MirroredGridDecides(f: Field<real>, g: Field<real>, h: nat, w: nat, r: int, c: int)
    requires h > 0 && w > 0 && IsMirroredGrid(f, g, h, w)
    ensures g(r, c) == Reflected(f, h, w)(r, c)
  {
    MirrorsDecide(LineOf(g, Down, c), LineOf(g, Down, c), h, r);
    MirrorsDecide(LineOf(g, Across, Reflect(r, h)), LineOf(g, Across, Reflect(r, h)), w, c);
  }

  lemma ColumnOfMirrored(f: Field<real>, g: Field<real>, h: nat, w: nat, r0: int, r1: int, d: int)
    requires h > 0 && w > 0 && IsMirroredGrid(f, g, h, w)
    ensures ColumnSums(Reflected(f, h, w), r0, r1)(d) == ColumnSums(g, r0, r1)(d)
  {
    var one, other := LineOf(Reflected(f, h, w), Down, d), LineOf(g, Down, d);
    forall p | r0 <= p < r1 ensures one(p) == other(p) { MirroredGridDecides(f, g, h, w, p, d); }
    SumsAgree(one, other, r0, r1);
  }

  /** The window's sum is the same read from any grid that is its own mirror image so, which decides it
      by the array's own cells. */
  lemma WindowOfMirrored(f: Field<real>, g: Field<real>, h: nat, w: nat, half: nat, r: int, c: int)
    requires h > 0 && w > 0 && IsMirroredGrid(f, g, h, w)
    ensures WindowSums(f, h, w, half)(r, c) == RectSum(g, r - half, r + half + 1, c - half, c + half + 1)
  {
    var whole, r0, r1 := Reflected(f, h, w), r - half, r + half + 1;
    forall d ensures ColumnSums(whole, r0, r1)(d) == ColumnSums(g, r0, r1)(d) {
      ColumnOfMirrored(f, g, h, w, r0, r1, d);
    }
    SumsAgree(ColumnSums(whole, r0, r1), ColumnSums(g, r0, r1), c - half, c + half + 1);
    assert WindowSums(f, h, w, half)(r, c) == RectSum(whole, r0, r1, c - half, c + half + 1);
  }

  /** The `k` x `k` window at each cell of the padded grid. */
  ghost function Rects(f: Field<real>, k: nat): Field<real> {
    (r: int, c: int) => RectSum(f, r, r + k, c, c + k)
  }

  /** Four slices of the table. */
  method CornerDifferences(sat: array2<real>, h: nat, w: nat, k: nat) returns (sums: array2<real>)
    requires sat.Length0 == h + k && sat.Length1 == w + k
    ensures fresh(sums) && sums.Length0 == h && sums.Length1 == w
    ensures forall r, c :: 0 <= r < h && 0 <= c < w ==>
              sums[r, c] == sat[r + k, c + k] - sat[r, c + k] - sat[r + k, c] + sat[r, c]
  {
    sums := new real[h, w];
    forall r, c | 0 <= r < h && 0 <= c < w {
      sums[r, c] := sat[r + k, c + k] - sat[r, c + k] - sat[r + k, c] + sat[r, c];
    }
  }

  method FromCorners(sat: array2<real>, h: nat, w: nat, k: nat, ghost f: Field<real>) returns (sums: array2<real>)
    requires sat.Length0 == h + k && sat.Length1 == w + k && IsTable(sat, f)
    ensures fresh(sums) && sums.Length0 == h && sums.Length1 == w
    ensures Shows(sums, Rects(f, k))
  {
    sums := CornerDifferences(sat, h, w, k);
    forall r, c | 0 <= r < h && 0 <= c < w ensures sums[r, c] == Rects(f, k)(r, c) {
      RectFromCorners(f, r, r + k, c, c + k);
    }
  }

  lemma WindowMoves(f: Field<real>, h: nat, w: nat, half: nat, r: int, c: int)
    requires h > 0 && w > 0
    ensures Rects(Moved(Reflected(f, h, w), half), 2 * half + 1)(r, c) == WindowSums(f, h, w, half)(r, c)
  {
    RectMoves(Reflected(f, h, w), half, r, r + (2 * half + 1), c, c + (2 * half + 1));
  }

  lemma PaddedShows(arr: array2<real>, padded: array2<real>, half: nat, f: Field<real>)
    requires arr.Length0 > 0 && arr.Length1 > 0 && Shows(arr, f) && IsReflected(padded, arr, half, half)
    ensures Shows(padded, Moved(Reflected(f, arr.Length0, arr.Length1), half))
  {
  }

  method BoxSumOdd(arr: array2<real>, half: nat, ghost f: Field<real>) returns (sums: array2<real>)
    requires Shows(arr, f) && arr.Length0 > 0 && arr.Length1 > 0
    ensures fresh(sums) && sums.Length0 == arr.Length0 && sums.Length1 == arr.Length1
    ensures Shows(sums, WindowSums(f, arr.Length0, arr.Length1, half))
  {
    var h, w, k := arr.Length0, arr.Length1, 2 * half + 1;
    ghost var moved := Moved(Reflected(f, h, w), half);
    var padded := PadReflect(arr, half);
    PaddedShows(arr, padded, half, f);
    var sat := SummedArea(padded, moved);
    sums := FromCorners(sat, h, w, k, moved);
    forall r, c | 0 <= r < h && 0 <= c < w ensures sums[r, c] == WindowSums(f, h, w, half)(r, c) {
      WindowMoves(f, h, w, half, r, c);
    }
  }

  /** `_box_sum_2d`. `None` where it raises: an even or negative window, or an empty grid to pad. */
  method BoxSum(arr: array2<real>, k: int, ghost f: Field<real>) returns (out: Option<array2<real>>)
    requires Shows(arr, f)
    ensures out.Some? <==> k > 0 && k % 2 == 1 && (k == 1 || (arr.Length0 > 0 && arr.Length1 > 0))
    ensures out.Some? ==> out.value.Length0 == arr.Length0 && out.value.Length1 == arr.Length1
    ensures out.Some? && arr.Length0 > 0 && arr.Length1 > 0 ==>
              Shows(out.value, WindowSums(f, arr.Length0, arr.Length1, k / 2))
  {
    if k % 2 != 1 || k < 0 { return None; }
    if arr.Length0 == 0 || arr.Length1 == 0 { return if k > 1 then None else Some(arr); }
    var sums := BoxSumOdd(arr, k / 2, f);
    out := Some(sums);
  }

  // --------------------------------------------------------- the box blur

  /** The half of `max(n | 1, 1)`: the least odd window that is `n` or more, so it is centred. */
  function HalfOf(n: int): (half: nat)
    ensures var w := 2 * half + 1; n <= w && (w == 1 || w - 2 < n)
  {
    if n < 0 then 0 else n / 2
  }

  ghost function EdgePadded(f: Line, n: nat): Line
    requires n > 0
  {
    p => f(Clamp(p, n))
  }

  /** The mean of the cells within `half` of `p`, the end cells repeated past the ends. */
  ghost function MeanAt(f: Line, n: nat, half: nat, p: int): real
    requires n > 0
  {
    Over(Sum(EdgePadded(f, n), p - half, p + half + 1), 2 * half + 1)
  }

  /** One pass along one axis, on an `h` x `w` grid. */
  ghost function Smoothed(f: Field<real>, axis: Axis, h: nat, w: nat, half: nat): Field<real>
    requires h > 0 && w > 0
  {
    if axis == Down then (r: int, c: int) => MeanAt(LineOf(f, Down, c), h, half, r)
    else (r: int, c: int) => MeanAt(LineOf(f, Across, r), w, half, c)
  }

  ghost function Blurred(f: Field<real>, h: nat, w: nat, half: nat, passes: nat): Field<real>
    requires h > 0 && w > 0
  {
    if passes == 0 then f
    else Smoothed(Smoothed(Blurred(f, h, w, half, passes - 1), Down, h, w, half), Across, h, w, half)
  }

  /** The grid, its edge cells repeated past the edges. */
  ghost function Clamped(f: Field<real>, h: nat, w: nat): Field<real>
    requires h > 0 && w > 0
  {
    (r: int, c: int) => f(Clamp(r, h), Clamp(c, w))
  }

  lemma MeanTimes(f: Line, n: nat, half: nat, p: int)
    requires n > 0
    ensures TimesIs(MeanAt(f, n, half, p), (2 * half + 1) as real, Sum(EdgePadded(f, n), p - half, p + half + 1))
  {
    DividedTimes(Sum(EdgePadded(f, n), p - half, p + half + 1), (2 * half + 1) as real);
  }

  /** The means down a column, as sums over the clamped grid. */
  lemma DownTimes(f: Field<real>, h: nat, w: nat, half: nat, r: int, c: int)
    requires h > 0 && w > 0
    ensures TimesIs(EdgePadded(LineOf(Smoothed(f, Down, h, w, half), Across, r), w)(c), (2 * half + 1) as real,
                    ColumnSums(Clamped(f, h, w), r - half, r + half + 1)(c))
  {
    var column := LineOf(f, Down, Clamp(c, w));
    MeanTimes(column, h, half, r);
    SumsAgree(EdgePadded(column, h), LineOf(Clamped(f, h, w), Down, c), r - half, r + half + 1);
  }

  lemma TimesTwice(x: real, s: real, y: real, z: real)
    requires TimesIs(x, s, y) && TimesIs(y, s, z)
    ensures TimesIs(x, s * s, z)
  {
  }

  /** No pass leaves the grid alone; one more takes, at each cell, the mean of the `2 * half + 1`
      square about it, the edge cells repeated past the edges. */
  lemma PassIsMean(f: Field<real>, h: nat, w: nat, half: nat, passes: nat, r: int, c: int)
    requires h > 0 && w > 0
    ensures Blurred(f, h, w, half, 0)(r, c) == f(r, c)
    ensures var side := (2 * half + 1) as real;
            TimesIs(Blurred(f, h, w, half, passes + 1)(r, c), side * side,
                    RectSum(Clamped(Blurred(f, h, w, half, passes), h, w), r - half, r + half + 1,
                            c - half, c + half + 1))
  {
    var before, side := Blurred(f, h, w, half, passes), (2 * half + 1) as real;
    var row := LineOf(Smoothed(before, Down, h, w, half), Across, r);
    var columns := ColumnSums(Clamped(before, h, w), r - half, r + half + 1);
    MeanTimes(row, w, half, c);
    forall d ensures TimesIs(EdgePadded(row, w)(d), side, columns(d)) { DownTimes(before, h, w, half, r, d); }
    SumTimes(EdgePadded(row, w), side, columns, c - half, c + half + 1);
    TimesTwice(MeanAt(row, w, half, c), side, Sum(EdgePadded(row, w), c - half, c + half + 1),
               Sum(columns, c - half, c + half + 1));
  }

  /** The padded grid: `before` cells and more past each end of every line. */
  ghost function Padded(f: Field<real>, axis: Axis, n: nat, before: nat): Field<real>
    requires n > 0
  {
    if axis == Down then (r: int, c: int) => f(Clamp(r - before, n), c)
      else (r: int, c: int) => f(r, Clamp(c - before, n))
  }

  lemma PaddedIsEdge(f: Field<real>, axis: Axis, n: nat, before: nat, l: int, p: int)
    requires n > 0
    ensures LineOf(Padded(f, axis, n, before), axis, l)(p) == EdgePadded(LineOf(f, axis, l), n)(p - before)
  {
  }

  lemma DifferenceShifts(padded: Line, edge: Line, off: int, a: int, b: int)
    requires 0 <= a <= b && Shifted(padded, edge, off, a, b)
    ensures Sum(padded, 0, b) - Sum(padded, 0, a) == Sum(edge, a + off, b + off)
  {
    SumSplits(padded, 0, a, b);
    SumShifts(padded, edge, off, a, b);
  }

  /** A window's sum from two running sums of the padded line. */
  lemma WindowFromRunning(f: Field<real>, axis: Axis, n: nat, half: nat, l: int, p: nat)
    requires n > 0 && p < n
    ensures var c := LineOf(Padded(f, axis, n, half + 1), axis, l);
            Sum(c, 0, p + 2 * half + 2) - Sum(c, 0, p + 1) ==
            Sum(EdgePadded(LineOf(f, axis, l), n), p - half, p + half + 1)
  {
    var edge, padded := EdgePadded(LineOf(f, axis, l), n), LineOf(Padded(f, axis, n, half + 1), axis, l);
    var off := -(half + 1);
    forall q | p + 1 <= q < p + 2 * half + 2 ensures padded(q) == edge(q + off) {
      PaddedIsEdge(f, axis, n, half + 1, l, q);
    }
    DifferenceShifts(padded, edge, off, p + 1, p + 2 * half + 2);
  }

  /** `np.pad(out, pad, mode="edge")`, along one axis. */
  method PadEdge(a: array2<real>, axis: Axis, before: nat, after: nat) returns (padded: array2<real>)
    requires a.Length0 > 0 && a.Length1 > 0
    ensures fresh(padded)
    ensures axis == Down ==> padded.Length0 == a.Length0 + before + after && padded.Length1 == a.Length1
    ensures axis == Across ==> padded.Length0 == a.Length0 && padded.Length1 == a.Length1 + before + after
    ensures forall r, c :: 0 <= r < padded.Length0 && 0 <= c < padded.Length1 ==>
              padded[r, c] == if axis == Down then a[Clamp(r - before, a.Length0), c]
                else a[r, Clamp(c - before, a.Length1)]
  {
    var h, w := a.Length0, a.Length1;
    if axis == Down {
      var h1 := h + before + after;
      padded := new real[h1, w];
      forall r, c | 0 <= r < h1 && 0 <= c < w { padded[r, c] := a[Clamp(r - before, h), c]; }
    } else {
      var w1 := w + before + after;
      padded := new real[h, w1];
      forall r, c | 0 <= r < h && 0 <= c < w1 { padded[r, c] := a[r, Clamp(c - before, w)]; }
    }
  }

  /** `hi - lo`: two slices of the running sums. */
  method SliceDifference(c: array2<real>, axis: Axis, h: nat, w: nat, win: nat) returns (d: array2<real>)
    requires c.Length0 == h + (if axis == Down then win else 0) && c.Length1 == w + (if axis == Across then win else 0)
    ensures fresh(d) && d.Length0 == h && d.Length1 == w
    ensures axis == Down ==> forall i, j :: 0 <= i < h && 0 <= j < w ==> d[i, j] == c[i + win, j] - c[i, j]
    ensures axis == Across ==> forall i, j :: 0 <= i < h && 0 <= j < w ==> d[i, j] == c[i, j + win] - c[i, j]
  {
    d := new real[h, w];
    if axis == Down {
      forall i, j | 0 <= i < h && 0 <= j < w { d[i, j] := c[i + win, j] - c[i, j]; }
    } else {
      forall i, j | 0 <= i < h && 0 <= j < w { d[i, j] := c[i, j + win] - c[i, j]; }
    }
  }

  function Over(x: real, n: nat): real
    requires n > 0
  {
    x / n as real
  }

  method Divided(d: array2<real>, n: nat) returns (out: array2<real>)
    requires n > 0
    ensures fresh(out) && out.Length0 == d.Length0 && out.Length1 == d.Length1
    ensures forall i, j :: 0 <= i < d.Length0 && 0 <= j < d.Length1 ==> out[i, j] == Over(d[i, j], n)
  {
    out := new real[d.Length0, d.Length1];
    forall i, j | 0 <= i < d.Length0 && 0 <= j < d.Length1 { out[i, j] := Over(d[i, j], n); }
  }

  /** The sums `Smoothed` takes the means of. */
  ghost function WindowTotals(f: Field<real>, axis: Axis, h: nat, w: nat, half: nat): Field<real>
    requires h > 0 && w > 0
  {
    if axis == Down then (r: int, c: int) => Sum(EdgePadded(LineOf(f, Down, c), h), r - half, r + half + 1)
    else (r: int, c: int) => Sum(EdgePadded(LineOf(f, Across, r), w), c - half, c + half + 1)
  }

  lemma TotalsDown(f: Field<real>, h: nat, w: nat, half: nat, i: nat, j: nat)
    requires i < h && j < w
    ensures var c := Running(Padded(f, Down, h, half + 1), Down);
            c(i + (2 * half + 1), j) - c(i, j) == WindowTotals(f, Down, h, w, half)(i, j)
  {
    WindowFromRunning(f, Down, h, half, j, i);
  }

  lemma TotalsAcross(f: Field<real>, h: nat, w: nat, half: nat, i: nat, j: nat)
    requires i < h && j < w
    ensures var c := Running(Padded(f, Across, w, half + 1), Across);
            c(i, j + (2 * half + 1)) - c(i, j) == WindowTotals(f, Across, h, w, half)(i, j)
  {
    WindowFromRunning(f, Across, w, half, i, j);
  }

  method BlurTotals(a: array2<real>, axis: Axis, half: nat, ghost f: Field<real>) returns (d: array2<real>)
    requires a.Length0 > 0 && a.Length1 > 0 && Shows(a, f)
    ensures fresh(d) && d.Length0 == a.Length0 && d.Length1 == a.Length1
    ensures Shows(d, WindowTotals(f, axis, a.Length0, a.Length1, half))
  {
    var h, w := a.Length0, a.Length1;
    ghost var n := if axis == Down then h else w;
    var padded := PadEdge(a, axis, half + 1, half);
    var c := CumSum(padded, axis, Padded(f, axis, n, half + 1));
    d := SliceDifference(c, axis, h, w, 2 * half + 1);
    forall i, j | 0 <= i < h && 0 <= j < w ensures d[i, j] == WindowTotals(f, axis, h, w, half)(i, j) {
      if axis == Down {
        TotalsDown(f, h, w, half, i, j);
      } else {
        TotalsAcross(f, h, w, half, i, j);
      }
    }
  }

  lemma MeanOfTotal(f: Field<real>, axis: Axis, h: nat, w: nat, half: nat, i: int, j: int)
    requires h > 0 && w > 0
    ensures Smoothed(f, axis, h, w, half)(i, j) == Over(WindowTotals(f, axis, h, w, half)(i, j), 2 * half + 1)
  {
  }

  /** One axis of one pass. */
  method BlurAxis(a: array2<real>, axis: Axis, half: nat, ghost f: Field<real>) returns (out: array2<real>)
    requires a.Length0 > 0 && a.Length1 > 0 && Shows(a, f)
    ensures fresh(out) && out.Length0 == a.Length0 && out.Length1 == a.Length1
    ensures Shows(out, Smoothed(f, axis, a.Length0, a.Length1, half))
  {
    var d := BlurTotals(a, axis, half, f);
    out := Divided(d, 2 * half + 1);
    forall i, j | 0 <= i < a.Length0 && 0 <= j < a.Length1
      ensures out[i, j] == Smoothed(f, axis, a.Length0, a.Length1, half)(i, j)
    {
      MeanOfTotal(f, axis, a.Length0, a.Length1, half, i, j);
    }
  }

  /** `_box_blur`. `None` where padding an empty grid raises. */
  method BoxBlur(arr: array2<real>, n: int, passes: nat, ghost f: Field<real>) returns (out: Option<array2<real>>)
    requires Shows(arr, f)
    ensures out.Some? <==> passes == 0 || (arr.Length0 > 0 && arr.Length1 > 0)
    ensures out.Some? ==> out.value.Length0 == arr.Length0 && out.value.Length1 == arr.Length1
    ensures out.Some? && arr.Length0 > 0 && arr.Length1 > 0 ==>
              Shows(out.value, Blurred(f, arr.Length0, arr.Length1, HalfOf(n), passes))
  {
    var half, h, w := HalfOf(n), arr.Length0, arr.Length1;
    if h == 0 || w == 0 { return if passes > 0 then None else Some(arr); }
    var a := arr;
    for pass := 0 to passes
      invariant a.Length0 == h && a.Length1 == w && Shows(a, Blurred(f, h, w, half, pass))
    {
      a := BlurAxis(a, Down, half, Blurred(f, h, w, half, pass));
      a := BlurAxis(a, Across, half, Smoothed(Blurred(f, h, w, half, pass), Down, h, w, half));
    }
    out := Some(a);
  }

  // --------------------------------------------------- what blurring keeps

  ghost predicate Within(f: Field<real>, h: nat, w: nat, lo: real, hi: real) {
    forall r, c :: 0 <= r < h && 0 <= c < w ==> lo <= f(r, c) <= hi
  }

  ghost predicate LineWithin(f: Line, a: int, b: int, lo: real, hi: real) {
    forall p :: a <= p < b ==> lo <= f(p) <= hi
  }

  lemma {:induction false} SumWithin(f: Line, a: int, b: int, lo: real, hi: real)
    requires a <= b && LineWithin(f, a, b, lo, hi)
    ensures lo * (b - a) as real <= Sum(f, a, b) <= hi * (b - a) as real
    decreases b - a
  {
    if a < b {
      SumWithin(f, a, b - 1, lo, hi);
      var n := (b - 1 - a) as real;
      assert (b - a) as real == n + 1.0;
      assert lo * (n + 1.0) == lo * n + lo && hi * (n + 1.0) == hi * n + hi;
    }
  }

  lemma EdgeWithin(f: Line, n: nat, a: int, b: int, lo: real, hi: real)
    requires n > 0 && LineWithin(f, 0, n, lo, hi)
    ensures LineWithin(EdgePadded(f, n), a, b, lo, hi)
  {
    var padded := EdgePadded(f, n);
    forall p | a <= p < b ensures lo <= padded(p) <= hi {
      var i := Clamp(p, n);
      assert lo <= f(i) <= hi;
    }
  }

  lemma MeanWithin(f: Line, n: nat, half: nat, p: int, lo: real, hi: real)
    requires n > 0 && LineWithin(f, 0, n, lo, hi)
    ensures lo <= MeanAt(f, n, half, p) <= hi
  {
    var a, b := p - half, p + half + 1;
    EdgeWithin(f, n, a, b, lo, hi);
    SumWithin(EdgePadded(f, n), a, b, lo, hi);
    QuotientWithin(Sum(EdgePadded(f, n), a, b), (2 * half + 1) as real, lo, hi);
  }

  lemma QuotientWithin(x: real, d: real, lo: real, hi: real)
    requires d > 0.0 && lo * d <= x <= hi * d
    ensures lo <= x / d <= hi
  {
    assert x / d * d == x;
  }

  /** However many passes, values stay between the least and the greatest: a mask stays in [0, 1], and
      a grid of one value (all ones) keeps it. */
  lemma {:induction false} BlurStaysWithin(f: Field<real>, h: nat, w: nat, half: nat, passes: nat, lo: real, hi: real)
    requires h > 0 && w > 0 && Within(f, h, w, lo, hi)
    ensures Within(Blurred(f, h, w, half, passes), h, w, lo, hi)
  {
    if passes > 0 {
      var before := Blurred(f, h, w, half, passes - 1);
      var down := Smoothed(before, Down, h, w, half);
      BlurStaysWithin(f, h, w, half, passes - 1, lo, hi);
      forall r, c | 0 <= r < h && 0 <= c < w ensures lo <= down(r, c) <= hi {
        MeanWithin(LineOf(before, Down, c), h, half, r, lo, hi);
      }
      forall r, c | 0 <= r < h && 0 <= c < w ensures lo <= Smoothed(down, Across, h, w, half)(r, c) <= hi {
        MeanWithin(LineOf(down, Across, r), w, half, c, lo, hi);
      }
    }
  }

  /** An all-ones mask is untouched by any number of passes. */
  lemma OnesStayOnes(f: Field<real>, h: nat, w: nat, n: int, passes: nat)
    requires h > 0 && w > 0 && forall r, c :: 0 <= r < h && 0 <= c < w ==> f(r, c) == 1.0
    ensures forall r, c :: 0 <= r < h && 0 <= c < w ==> Blurred(f, h, w, HalfOf(n), passes)(r, c) == 1.0
  {
    BlurStaysWithin(f, h, w, HalfOf(n), passes, 1.0, 1.0);
  }
}
