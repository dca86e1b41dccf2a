/**
 The Gaussian that ignores no-data (topo/pipeline.py: `_blur_1d`,
 `_gaussian_blur_2d`, `_normalized_gaussian`).

 The weights `exp(...)` come in as positive numbers; what is proved holds for
 any such kernel.
 */
module Gaussian {
  import opened Common
  import opened Windows
  import opened BoxFilters

  // ------------------------------------------------------------ the kernel

  function Total(k: seq<real>, m: nat): real
    requires m <= |k|
  {
    if m == 0 then 0.0 else Total(k, m - 1) + k[m - 1]
  }

  ghost predicate Positive(k: seq<real>) {
    forall i :: 0 <= i < |k| ==> k[i] > 0.0
  }

  /** An odd number of positive weights that add to one. */
  ghost predicate IsKernel(k: seq<real>) {
    |k| % 2 == 1 && Positive(k) && Total(k, |k|) == 1.0
  }

  lemma {:induction false} TotalIsPositive(k: seq<real>, m: nat)
    requires Positive(k) && 0 < m <= |k|
    ensures Total(k, m) > 0.0
  {
    if m > 1 { TotalIsPositive(k, m - 1); }
  }

  lemma {:induction false} TotalScales(raw: seq<real>, k: seq<real>, s: real, m: nat)
    requires |k| == |raw| && m <= |k| && forall i :: 0 <= i < |k| ==> TimesIs(k[i], s, raw[i])
    ensures TimesIs(Total(k, m), s, Total(raw, m))
  {
    if m > 0 {
      TotalScales(raw, k, s, m - 1);
      AddTimesIs(Total(k, m - 1), k[m - 1], s, Total(raw, m - 1), raw[m - 1]);
    }
  }

  lemma Cancel(x: real, s: real)
    requires s > 0.0 && TimesIs(x, s, s)
    ensures x == 1.0
  {
    assert (x - 1.0) * s == 0.0;
  }

  lemma DividedIsPositive(x: real, s: real)
    requires x > 0.0 && s > 0.0
    ensures x / s > 0.0
  {
  }

  /** `kernel /= kernel.sum()`. */
  function Normalised(raw: seq<real>): (k: seq<real>)
    requires |raw| > 0 && Positive(raw)
    ensures |k| == |raw| && Positive(k) && Total(k, |k|) == 1.0
    ensures forall i :: 0 <= i < |k| ==> TimesIs(k[i], Total(raw, |raw|), raw[i])
  {
    TotalIsPositive(raw, |raw|);
    var s := Total(raw, |raw|);
    var k := seq(|raw|, i requires 0 <= i < |raw| => raw[i] / s);
    assert Positive(k) && Total(k, |k|) == 1.0 by {
      forall i | 0 <= i < |k| ensures k[i] > 0.0 && TimesIs(k[i], s, raw[i]) {
        DividedIsPositive(raw[i], s);
        DividedTimes(raw[i], s);
      }
      TotalScales(raw, k, s, |k|);
      Cancel(Total(k, |k|), s);
    }
    k
  }

  // -------------------------------------------------------------- the blur

  function PlusTimes(x: real, weight: real, y: real): real {
    x + weight * y
  }

  /** The first `m` weights of the kernel centred on `p`, the line reflected past its ends. */
  ghost function Weighted(f: Line, n: nat, k: seq<real>, p: int, m: nat): real
    requires n > 0 && m <= |k|
  {
    if m == 0 then 0.0 else PlusTimes(Weighted(f, n, k, p, m - 1), k[m - 1], f(Reflect(p + (m - 1) - |k| / 2, n)))
  }

  /** Along one axis, the first `m` weights added. */
  ghost function Added(f: Field<real>, axis: Axis, h: nat, w: nat, k: seq<real>, m: nat): Field<real>
    requires h > 0 && w > 0 && m <= |k|
  {
    if axis == Down then (r: int, c: int) => Weighted(LineOf(f, Down, c), h, k, r, m)
    else (r: int, c: int) => Weighted(LineOf(f, Across, r), w, k, c, m)
  }

  ghost function Blur1(f: Field<real>, axis: Axis, h: nat, w: nat, k: seq<real>): Field<real>
    requires h > 0 && w > 0
  {
    Added(f, axis, h, w, k, |k|)
  }

  ghost function Blur2(f: Field<real>, h: nat, w: nat, k: seq<real>): Field<real>
    requires h > 0 && w > 0
  {
    Blur1(Blur1(f, Across, h, w, k), Down, h, w, k)
  }

  ghost predicate IsPadded(a: array2<real>, padded: array2<real>, axis: Axis, radius: nat)
    requires a.Length0 > 0 && a.Length1 > 0
    reads a, padded
  {
    (axis == Down ==> padded.Length0 == a.Length0 + 2 * radius && padded.Length1 == a.Length1) &&
    (axis == Across ==> padded.Length0 == a.Length0 && padded.Length1 == a.Length1 + 2 * radius) &&
    forall r, c :: 0 <= r < padded.Length0 && 0 <= c < padded.Length1 ==>
      (axis == Down ==> padded[r, c] == a[Reflect(r - radius, a.Length0), c]) &&
      (axis == Across ==> padded[r, c] == a[r, Reflect(c - radius, a.Length1)])
  }

  /** The array within, and every line past its ends the mirror image of one on the other side. */
  ghost predicate MirrorsAlong(a: array2<real>, padded: array2<real>, axis: Axis, radius: nat)
    requires a.Length0 > 0 && a.Length1 > 0 && IsPadded(a, padded, axis, radius)
    reads a, padded
  {
    if axis == Down then HasInside(padded, a, radius, 0) && RowsMirror(padded, radius, a.Length0)
    else HasInside(padded, a, 0, radius) && ColumnsMirror(padded, radius, a.Length1)
  }

  lemma PaddedMirrorsAlong(a: array2<real>, padded: array2<real>, axis: Axis, radius: nat)
    requires a.Length0 > 0 && a.Length1 > 0 && IsPadded(a, padded, axis, radius)
    ensures MirrorsAlong(a, padded, axis, radius)
  {
    if axis == Down {
      assert IsReflected(padded, a, radius, 0);
      ReflectedMirrors(padded, a, radius, 0);
    } else {
      assert IsReflected(padded, a, 0, radius);
      ReflectedMirrors(padded, a, 0, radius);
    }
  }

  /** `np.pad(a, pad_width, mode="reflect")`, along one axis. */
  method PadReflectAlong(a: array2<real>, axis: Axis, radius: nat) returns (padded: array2<real>)
    requires a.Length0 > 0 && a.Length1 > 0
    ensures fresh(padded) && IsPadded(a, padded, axis, radius) && MirrorsAlong(a, padded, axis, radius)
  {
    var h, w := a.Length0, a.Length1;
    if axis == Down {
      var h1 := h + 2 * radius;
      padded := new real[h1, w];
      forall r, c | 0 <= r < h1 && 0 <= c < w { padded[r, c] := a[Reflect(r - radius, h), c]; }
    } else {
      var w1 := w + 2 * radius;
      padded := new real[h, w1];
      forall r, c | 0 <= r < h && 0 <= c < w1 { padded[r, c] := a[r, Reflect(c - radius, w)]; }
    }
    PaddedMirrorsAlong(a, padded, axis, radius);
  }

  /** `padded[tuple(index)]`: the grid `i` cells along. */
  method Slice(padded: array2<real>, axis: Axis, h: nat, w: nat, i: nat) returns (s: array2<real>)
    requires padded.Length0 >= h + (if axis == Down then i else 0) &&
             padded.Length1 >= w + (if axis == Across then i else 0)
    ensures fresh(s) && s.Length0 == h && s.Length1 == w
    ensures axis == Down ==> forall r, c :: 0 <= r < h && 0 <= c < w ==> s[r, c] == padded[r + i, c]
    ensures axis == Across ==> forall r, c :: 0 <= r < h && 0 <= c < w ==> s[r, c] == padded[r, c + i]
  {
    s := new real[h, w];
    if axis == Down {
      forall r, c | 0 <= r < h && 0 <= c < w { s[r, c] := padded[r + i, c]; }
    } else {
      forall r, c | 0 <= r < h && 0 <= c < w { s[r, c] := padded[r, c + i]; }
    }
  }

  /** `out += weight * slice`. */
  method AddTimes(out: array2<real>, weight: real, s: array2<real>)
    requires out != s && out.Length0 == s.Length0 && out.Length1 == s.Length1
    modifies out
    ensures forall r, c :: 0 <= r < out.Length0 && 0 <= c < out.Length1 ==>
              out[r, c] == PlusTimes(old(out[r, c]), weight, s[r, c])
  {
    forall r, c | 0 <= r < out.Length0 && 0 <= c < out.Length1 { out[r, c] := PlusTimes(out[r, c], weight, s[r, c]); }
  }

  /** What the slice for weight `i` shows. */
  ghost function Along(f: Field<real>, axis: Axis, h: nat, w: nat, k: seq<real>, i: int): Field<real>
    requires h > 0 && w > 0
  {
    if axis == Down then (r: int, c: int) => f(Reflect(r + i - |k| / 2, h), c)
    else (r: int, c: int) => f(r, Reflect(c + i - |k| / 2, w))
  }

  lemma SliceShows(a: array2<real>, padded: array2<real>, s: array2<real>, axis: Axis, k: seq<real>, i: nat,
                   f: Field<real>)
    requires a.Length0 > 0 && a.Length1 > 0 && Shows(a, f) && i <= 2 * (|k| / 2)
    requires s.Length0 == a.Length0 && s.Length1 == a.Length1
    requires IsPadded(a, padded, axis, |k| / 2)
    requires axis == Down ==> forall r, c :: 0 <= r < a.Length0 && 0 <= c < a.Length1 ==> s[r, c] == padded[r + i, c]
    requires axis == Across ==> forall r, c :: 0 <= r < a.Length0 && 0 <= c < a.Length1 ==> s[r, c] == padded[r, c + i]
    ensures Shows(s, Along(f, axis, a.Length0, a.Length1, k, i))
  {
  }

  lemma AddedStep(f: Field<real>, axis: Axis, h: nat, w: nat, k: seq<real>, i: nat, r: int, c: int)
    requires h > 0 && w > 0 && i < |k|
    ensures Added(f, axis, h, w, k, i + 1)(r, c) ==
            PlusTimes(Added(f, axis, h, w, k, i)(r, c), k[i], Along(f, axis, h, w, k, i)(r, c))
  {
  }

  /** One weight of the loop: `out += weight * padded[...]`. */
  method AddSlice(a: array2<real>, padded: array2<real>, out: array2<real>, k: seq<real>, axis: Axis, i: nat,
                  ghost f: Field<real>)
    requires a.Length0 > 0 && a.Length1 > 0 && Shows(a, f) && IsPadded(a, padded, axis, |k| / 2) && i < |k|
    requires out != a && out != padded && out.Length0 == a.Length0 && out.Length1 == a.Length1
    requires Shows(out, Added(f, axis, a.Length0, a.Length1, k, i))
    modifies out
    ensures Shows(out, Added(f, axis, a.Length0, a.Length1, k, i + 1))
  {
    var h, w := a.Length0, a.Length1;
    var s := Slice(padded, axis, h, w, i);
    SliceShows(a, padded, s, axis, k, i, f);
    AddTimes(out, k[i], s);
    forall r, c | 0 <= r < h && 0 <= c < w ensures out[r, c] == Added(f, axis, h, w, k, i + 1)(r, c) {
      AddedStep(f, axis, h, w, k, i, r, c);
    }
  }

  /** `_blur_1d`: shift and accumulate. */
  method Blur1d(a: array2<real>, k: seq<real>, axis: Axis, ghost f: Field<real>) returns (out: array2<real>)
    requires a.Length0 > 0 && a.Length1 > 0 && Shows(a, f)
    ensures fresh(out) && out.Length0 == a.Length0 && out.Length1 == a.Length1
    ensures Shows(out, Blur1(f, axis, a.Length0, a.Length1, k))
  {
    var h, w := a.Length0, a.Length1;
    var padded := PadReflectAlong(a, axis, |k| / 2);
    out := new real[h, w]((_, _) => 0.0);
    for i := 0 to |k|
      invariant IsPadded(a, padded, axis, |k| / 2) && Shows(a, f)
      invariant Shows(out, Added(f, axis, h, w, k, i))
    {
      AddSlice(a, padded, out, k, axis, i, f);
    }
  }

  /** `_gaussian_blur_2d`. `None` where padding an empty grid raises. */
  method GaussianBlur(a: array2<real>, sigma: real, raw: seq<real>, ghost f: Field<real>)
    returns (out: Option<array2<real>>)
    requires Shows(a, f) && |raw| % 2 == 1 && Positive(raw)
    ensures out.Some? <==> sigma <= 0.0 || (a.Length0 > 0 && a.Length1 > 0)
    ensures out.Some? ==> out.value.Length0 == a.Length0 && out.value.Length1 == a.Length1
    ensures out.Some? && sigma <= 0.0 ==> Shows(out.value, f)
    ensures out.Some? && sigma > 0.0 ==> Shows(out.value, Blur2(f, a.Length0, a.Length1, Normalised(raw)))
  {
    if sigma <= 0.0 { return Some(a); }
    if a.Length0 == 0 || a.Length1 == 0 { return None; }
    var kernel := Normalised(raw);
    var across := Blur1d(a, kernel, Across, f);
    var both := Blur1d(across, kernel, Down, Blur1(f, Across, a.Length0, a.Length1, kernel));
    out := Some(both);
  }

  /** `k[i] * g(p + i - |k| / 2)`: the kernel centred on `p`. */
  ghost function Terms(g: Line, k: seq<real>, p: int): Line {
    i => if 0 <= i < |k| then k[i] * g(p + i - |k| / 2) else 0.0
  }

  lemma WeightedStep(f: Line, g: Line, n: nat, k: seq<real>, p: int, m: nat)
    requires n > 0 && m < |k| && IsMirrored(f, g, n)
    ensures Weighted(f, n, k, p, m + 1) == Weighted(f, n, k, p, m) + Terms(g, k, p)(m)
  {
    MirrorsDecide(f, g, n, p + m - |k| / 2);
  }

  lemma {:induction false} WeightedIsSum(f: Line, g: Line, n: nat, k: seq<real>, p: int, m: nat)
    requires n > 0 && m <= |k| && IsMirrored(f, g, n)
    ensures Weighted(f, n, k, p, m) == Sum(Terms(g, k, p), 0, m)
  {
    if m > 0 {
      WeightedIsSum(f, g, n, k, p, m - 1);
      WeightedStep(f, g, n, k, p, m - 1);
    }
  }

  /** One pass at (`p`, `l`) is the kernel's weighted sum over any line that reads column `l` inside the
      grid and is its own mirror image about both ends, which decides it by the array's own cells; */
  lemma DownIsConvolution(f: Field<real>, h: nat, w: nat, k: seq<real>, g: Line, p: int, l: int)
    requires h > 0 && w > 0 && IsMirrored(q => f(q, l), g, h)
    ensures Blur1(f, Down, h, w, k)(p, l) == Sum(Terms(g, k, p), 0, |k|)
  {
    assert IsMirrored(LineOf(f, Down, l), g, h);
    WeightedIsSum(LineOf(f, Down, l), g, h, k, p, |k|);
  }

  /** and so for a row. */
  lemma AcrossIsConvolution(f: Field<real>, h: nat, w: nat, k: seq<real>, g: Line, l: int, p: int)
    requires h > 0 && w > 0 && IsMirrored(q => f(l, q), g, w)
    ensures Blur1(f, Across, h, w, k)(l, p) == Sum(Terms(g, k, p), 0, |k|)
  {
    assert IsMirrored(LineOf(f, Across, l), g, w);
    WeightedIsSum(LineOf(f, Across, l), g, w, k, p, |k|);
  }

  // ---------------------------------------------- ignoring what is not known

  type Mask = Field<bool>

  /** `np.where(valid, values, 0.0)`. */
  ghost function Masked(values: Field<real>, valid: Mask): Field<real> {
    (r: int, c: int) => if valid(r, c) then values(r, c) else 0.0
  }

  /** `valid.astype(np.float64)`. */
  ghost function Weight(valid: Mask): Field<real> {
    (r: int, c: int) => if valid(r, c) then 1.0 else 0.0
  }

  /** The blur `sigma` asks for. */
  ghost function Blur(f: Field<real>, h: nat, w: nat, sigma: real, k: seq<real>): Field<real>
    requires h > 0 && w > 0
  {
    if sigma <= 0.0 then f else Blur2(f, h, w, k)
  }

  const THRESHOLD := 0.000001

  /** The smoothed value, from the blurred values and the blurred mask. */
  function Ratio(v: real, w: real, value: real): real {
    if w > THRESHOLD then v / w else value
  }

  ghost function Normalized(values: Field<real>, valid: Mask, h: nat, w: nat, sigma: real, k: seq<real>): Field<real>
    requires h > 0 && w > 0
  {
    (r: int, c: int) =>
      Ratio(Blur(Masked(values, valid), h, w, sigma, k)(r, c), Blur(Weight(valid), h, w, sigma, k)(r, c), values(r, c))
  }

  /** The quotient where the blurred mask passes a millionth, and the value itself where it does not. */
  lemma QuotientOrKept(values: Field<real>, valid: Mask, h: nat, w: nat, sigma: real, k: seq<real>, r: int, c: int)
    requires h > 0 && w > 0
    ensures var weight := Blur(Weight(valid), h, w, sigma, k)(r, c);
            var out := Normalized(values, valid, h, w, sigma, k)(r, c);
            if weight > 0.000001 then TimesIs(out, weight, Blur(Masked(values, valid), h, w, sigma, k)(r, c))
            else out == values(r, c)
  {
    RatioTimes(Blur(Masked(values, valid), h, w, sigma, k)(r, c), Blur(Weight(valid), h, w, sigma, k)(r, c),
               values(r, c));
  }

  lemma RatioTimes(v: real, weight: real, value: real)
    ensures if weight > 0.000001 then TimesIs(Ratio(v, weight, value), weight, v) else Ratio(v, weight, value) == value
  {
    if weight > 0.000001 { DividedTimes(v, weight); }
  }

  ghost predicate Holds(a: array2<bool>, m: Mask)
    reads a
  {
    forall r, c :: 0 <= r < a.Length0 && 0 <= c < a.Length1 ==> a[r, c] == m(r, c)
  }

  method MaskArrays(values: array2<real>, valid: array2<bool>, ghost f: Field<real>, ghost m: Mask)
    returns (v: array2<real>, w: array2<real>)
    requires valid.Length0 == values.Length0 && valid.Length1 == values.Length1 && Shows(values, f) && Holds(valid, m)
    ensures fresh(v) && v.Length0 == values.Length0 && v.Length1 == values.Length1 && Shows(v, Masked(f, m))
    ensures fresh(w) && w.Length0 == values.Length0 && w.Length1 == values.Length1 && Shows(w, Weight(m))
  {
    v := new real[values.Length0, values.Length1];
    w := new real[values.Length0, values.Length1];
    forall r, c | 0 <= r < v.Length0 && 0 <= c < v.Length1 { v[r, c] := if valid[r, c] then values[r, c] else 0.0; }
    forall r, c | 0 <= r < w.Length0 && 0 <= c < w.Length1 { w[r, c] := if valid[r, c] then 1.0 else 0.0; }
  }

  method RatioArray(v: array2<real>, w: array2<real>, values: array2<real>) returns (out: array2<real>)
    requires v.Length0 == w.Length0 == values.Length0 && v.Length1 == w.Length1 == values.Length1
    ensures fresh(out) && out.Length0 == values.Length0 && out.Length1 == values.Length1
    ensures forall r, c :: 0 <= r < out.Length0 && 0 <= c < out.Length1 ==>
            out[r, c] == Ratio(v[r, c], w[r, c], values[r, c])
  {
    out := new real[values.Length0, values.Length1];
    forall r, c | 0 <= r < out.Length0 && 0 <= c < out.Length1 { out[r, c] := Ratio(v[r, c], w[r, c], values[r, c]); }
  }

  /** `_normalized_gaussian`. `None` where padding an empty grid raises. */
  method NormalizedGaussian(values: array2<real>, valid: array2<bool>, sigma: real, raw: seq<real>,
                            ghost f: Field<real>, ghost m: Mask)
    returns (out: Option<array2<real>>)
    requires valid.Length0 == values.Length0 && valid.Length1 == values.Length1 && Shows(values, f) && Holds(valid, m)
    requires |raw| % 2 == 1 && Positive(raw)
    ensures out.Some? <==> sigma <= 0.0 || (values.Length0 > 0 && values.Length1 > 0)
    ensures out.Some? ==> out.value.Length0 == values.Length0 && out.value.Length1 == values.Length1
    ensures out.Some? && values.Length0 > 0 && values.Length1 > 0 ==>
              Shows(out.value, Normalized(f, m, values.Length0, values.Length1, sigma, Normalised(raw)))
  {
    var v, w := MaskArrays(values, valid, f, m);
    var bv := GaussianBlur(v, sigma, raw, Masked(f, m));
    var bw := GaussianBlur(w, sigma, raw, Weight(m));
    if bv.None? { return None; }
    var smoothed := RatioArray(bv.value, bw.value, values);
    out := Some(smoothed);
  }

  // ------------------------------------------------------- what smoothing keeps

  /** `lo * g <= f <= hi * g`, cell by cell. */
  ghost predicate Between(f: Field<real>, g: Field<real>, h: nat, w: nat, lo: real, hi: real) {
    forall r, c :: 0 <= r < h && 0 <= c < w ==> IsBetween(f(r, c), g(r, c), lo, hi)
  }

  predicate IsBetween(x: real, y: real, lo: real, hi: real) {
    lo * y <= x <= hi * y
  }

  lemma BetweenAdds(x: real, y: real, weight: real, x1: real, y1: real, lo: real, hi: real)
    requires weight > 0.0 && IsBetween(x, y, lo, hi) && IsBetween(x1, y1, lo, hi)
    ensures IsBetween(PlusTimes(x, weight, x1), PlusTimes(y, weight, y1), lo, hi)
  {
    var below, above := x1 - lo * y1, hi * y1 - x1;
    assert weight * below >= 0.0 && weight * above >= 0.0;
    assert lo * (y + weight * y1) == lo * y + weight * (lo * y1);
    assert hi * (y + weight * y1) == hi * y + weight * (hi * y1);
  }

  /** A weighting keeps the bounds: it is linear, with positive weights. */
  lemma {:induction false} WeightedBetween(f: Line, g: Line, n: nat, k: seq<real>, p: int, m: nat, lo: real, hi: real)
    requires n > 0 && Positive(k) && m <= |k| && forall q :: 0 <= q < n ==> IsBetween(f(q), g(q), lo, hi)
    ensures IsBetween(Weighted(f, n, k, p, m), Weighted(g, n, k, p, m), lo, hi)
  {
    if m > 0 {
      WeightedBetween(f, g, n, k, p, m - 1, lo, hi);
      var q := Reflect(p + (m - 1) - |k| / 2, n);
      BetweenAdds(Weighted(f, n, k, p, m - 1), Weighted(g, n, k, p, m - 1), k[m - 1], f(q), g(q), lo, hi);
    }
  }

  lemma Blur1Between(f: Field<real>, g: Field<real>, axis: Axis, h: nat, w: nat, k: seq<real>, lo: real, hi: real)
    requires h > 0 && w > 0 && Positive(k) && Between(f, g, h, w, lo, hi)
    ensures Between(Blur1(f, axis, h, w, k), Blur1(g, axis, h, w, k), h, w, lo, hi)
  {
    forall r, c | 0 <= r < h && 0 <= c < w
      ensures IsBetween(Blur1(f, axis, h, w, k)(r, c), Blur1(g, axis, h, w, k)(r, c), lo, hi)
    {
      if axis == Down {
        WeightedBetween(LineOf(f, Down, c), LineOf(g, Down, c), h, k, r, |k|, lo, hi);
      } else {
        WeightedBetween(LineOf(f, Across, r), LineOf(g, Across, r), w, k, c, |k|, lo, hi);
      }
    }
  }

  lemma BlurBetween(f: Field<real>, g: Field<real>, h: nat, w: nat, sigma: real, k: seq<real>, lo: real, hi: real)
    requires h > 0 && w > 0 && Positive(k) && Between(f, g, h, w, lo, hi)
    ensures Between(Blur(f, h, w, sigma, k), Blur(g, h, w, sigma, k), h, w, lo, hi)
  {
    if sigma > 0.0 {
      Blur1Between(f, g, Across, h, w, k, lo, hi);
      Blur1Between(Blur1(f, Across, h, w, k), Blur1(g, Across, h, w, k), Down, h, w, k, lo, hi);
    }
  }

  ghost predicate ValidWithin(values: Field<real>, valid: Mask, h: nat, w: nat, lo: real, hi: real) {
    forall r, c :: 0 <= r < h && 0 <= c < w && valid(r, c) ==> lo <= values(r, c) <= hi
  }

  lemma RatioBetween(x: real, y: real, lo: real, hi: real)
    requires y > 0.0 && IsBetween(x, y, lo, hi)
    ensures lo <= x / y <= hi
  {
    QuotientWithin(x, y, lo, hi);
  }

  /** Wherever the blurred mask passes its threshold, the result lies between the least and the
      greatest valid value: no-data never bleeds in. */
  lemma SmoothedIsBetween(values: Field<real>, valid: Mask, h: nat, w: nat, sigma: real, k: seq<real>, lo: real,
                          hi: real, r: int, c: int)
    requires h > 0 && w > 0 && IsKernel(k) && ValidWithin(values, valid, h, w, lo, hi) && 0 <= r < h && 0 <= c < w
    requires Blur(Weight(valid), h, w, sigma, k)(r, c) > THRESHOLD
    ensures lo <= Normalized(values, valid, h, w, sigma, k)(r, c) <= hi
  {
    forall i, j | 0 <= i < h && 0 <= j < w ensures IsBetween(Masked(values, valid)(i, j), Weight(valid)(i, j), lo, hi) {
    }
    BlurBetween(Masked(values, valid), Weight(valid), h, w, sigma, k, lo, hi);
    RatioBetween(Blur(Masked(values, valid), h, w, sigma, k)(r, c), Blur(Weight(valid), h, w, sigma, k)(r, c), lo, hi);
  }

  ghost predicate Same(f: Field<real>, g: Field<real>, h: nat, w: nat) {
    forall r, c :: 0 <= r < h && 0 <= c < w ==> f(r, c) == g(r, c)
  }

  lemma {:induction false} WeightedSame(f: Line, g: Line, n: nat, k: seq<real>, p: int, m: nat)
    requires n > 0 && m <= |k| && forall q :: 0 <= q < n ==> f(q) == g(q)
    ensures Weighted(f, n, k, p, m) == Weighted(g, n, k, p, m)
  {
    if m > 0 { WeightedSame(f, g, n, k, p, m - 1); }
  }

  lemma Blur1Same(f: Field<real>, g: Field<real>, axis: Axis, h: nat, w: nat, k: seq<real>)
    requires h > 0 && w > 0 && Same(f, g, h, w)
    ensures Same(Blur1(f, axis, h, w, k), Blur1(g, axis, h, w, k), h, w)
  {
    forall r, c | 0 <= r < h && 0 <= c < w ensures Blur1(f, axis, h, w, k)(r, c) == Blur1(g, axis, h, w, k)(r, c) {
      if axis == Down {
        WeightedSame(LineOf(f, Down, c), LineOf(g, Down, c), h, k, r, |k|);
      } else {
        WeightedSame(LineOf(f, Across, r), LineOf(g, Across, r), w, k, c, |k|);
      }
    }
  }

  lemma BlurSame(f: Field<real>, g: Field<real>, h: nat, w: nat, sigma: real, k: seq<real>)
    requires h > 0 && w > 0 && Same(f, g, h, w)
    ensures Same(Blur(f, h, w, sigma, k), Blur(g, h, w, sigma, k), h, w)
  {
    if sigma > 0.0 {
      Blur1Same(f, g, Across, h, w, k);
      Blur1Same(Blur1(f, Across, h, w, k), Blur1(g, Across, h, w, k), Down, h, w, k);
    }
  }

  /** What stands at invalid cells makes no difference there. */
  lemma InvalidIsIgnored(values: Field<real>, other: Field<real>, valid: Mask, h: nat, w: nat, sigma: real,
                         k: seq<real>, r: int, c: int)
    requires h > 0 && w > 0 && 0 <= r < h && 0 <= c < w
    requires forall i, j :: 0 <= i < h && 0 <= j < w && valid(i, j) ==> values(i, j) == other(i, j)
    requires Blur(Weight(valid), h, w, sigma, k)(r, c) > THRESHOLD
    ensures Normalized(values, valid, h, w, sigma, k)(r, c) == Normalized(other, valid, h, w, sigma, k)(r, c)
  {
    BlurSame(Masked(values, valid), Masked(other, valid), h, w, sigma, k);
  }

  // ------------------------------------------------------------ who passes

  ghost predicate NonNegative(f: Field<real>, h: nat, w: nat) {
    forall r, c :: 0 <= r < h && 0 <= c < w ==> f(r, c) >= 0.0
  }

  lemma TimesNonNegative(x: real, weight: real, y: real)
    requires x >= 0.0 && weight > 0.0 && y >= 0.0
    ensures PlusTimes(x, weight, y) >= x && PlusTimes(x, weight, y) >= PlusTimes(0.0, weight, y)
  {
    assert weight * y >= 0.0;
  }

  /** A weighting is at least its centre's share. */
  lemma {:induction false} WeightedHasCentre(f: Line, n: nat, k: seq<real>, p: int, m: nat)
    requires n > 0 && Positive(k) && m <= |k| && 0 <= p < n && forall q :: 0 <= q < n ==> f(q) >= 0.0
    ensures Weighted(f, n, k, p, m) >= 0.0
    ensures m > |k| / 2 ==> Weighted(f, n, k, p, m) >= PlusTimes(0.0, k[|k| / 2], f(p))
  {
    if m > 0 {
      WeightedHasCentre(f, n, k, p, m - 1);
      var q := Reflect(p + (m - 1) - |k| / 2, n);
      TimesNonNegative(Weighted(f, n, k, p, m - 1), k[m - 1], f(q));
    }
  }

  lemma Blur1HasCentre(f: Field<real>, axis: Axis, h: nat, w: nat, k: seq<real>)
    requires h > 0 && w > 0 && IsKernel(k) && NonNegative(f, h, w)
    ensures NonNegative(Blur1(f, axis, h, w, k), h, w)
    ensures forall r, c :: 0 <= r < h && 0 <= c < w ==>
              Blur1(f, axis, h, w, k)(r, c) >= PlusTimes(0.0, k[|k| / 2], f(r, c))
  {
    forall r, c | 0 <= r < h && 0 <= c < w
      ensures Blur1(f, axis, h, w, k)(r, c) >= 0.0
      ensures Blur1(f, axis, h, w, k)(r, c) >= PlusTimes(0.0, k[|k| / 2], f(r, c))
    {
      if axis == Down {
        WeightedHasCentre(LineOf(f, Down, c), h, k, r, |k|);
      } else {
        WeightedHasCentre(LineOf(f, Across, r), w, k, c, |k|);
      }
    }
  }

  lemma SquareOfCentre(weight: real, x: real, y: real)
    requires weight > 0.0 && x >= PlusTimes(0.0, weight, 1.0) && y >= PlusTimes(0.0, weight, x)
    ensures y >= weight * weight
  {
    assert weight * (x - weight) >= 0.0;
  }

  /** Both passes keep the centre's share. */
  lemma Blur2HasCentre(f: Field<real>, h: nat, w: nat, k: seq<real>, r: int, c: int)
    requires h > 0 && w > 0 && IsKernel(k) && NonNegative(f, h, w) && 0 <= r < h && 0 <= c < w && f(r, c) == 1.0
    ensures var x := Blur1(f, Across, h, w, k)(r, c);
            x >= PlusTimes(0.0, k[|k| / 2], 1.0) && Blur2(f, h, w, k)(r, c) >= PlusTimes(0.0, k[|k| / 2], x)
  {
    Blur1HasCentre(f, Across, h, w, k);
    Blur1HasCentre(Blur1(f, Across, h, w, k), Down, h, w, k);
  }

  lemma BlurredMaskAtLeast(valid: Mask, h: nat, w: nat, k: seq<real>, r: int, c: int, weight: real)
    requires h > 0 && w > 0 && IsKernel(k) && 0 <= r < h && 0 <= c < w && valid(r, c) && weight == k[|k| / 2]
    ensures Blur2(Weight(valid), h, w, k)(r, c) >= weight * weight
  {
    var f := Weight(valid);
    assert NonNegative(f, h, w);
    Blur2HasCentre(f, h, w, k, r, c);
    SquareOfCentre(weight, Blur1(f, Across, h, w, k)(r, c), Blur2(f, h, w, k)(r, c));
  }

  /** A valid cell always passes, if the square of the centre weight does. */
  lemma ValidPasses(valid: Mask, h: nat, w: nat, sigma: real, k: seq<real>, r: int, c: int)
    requires h > 0 && w > 0 && IsKernel(k) && 0 <= r < h && 0 <= c < w && valid(r, c)
    requires k[|k| / 2] * k[|k| / 2] > THRESHOLD
    ensures Blur(Weight(valid), h, w, sigma, k)(r, c) > THRESHOLD
  {
    if sigma > 0.0 { BlurredMaskAtLeast(valid, h, w, k, r, c, k[|k| / 2]); }
  }

  /** A line that is 0 but at `p`, where no mirror image reaches: the centre weight alone counts. */
  lemma {:induction false} WeightedLone(f: Line, n: nat, k: seq<real>, p: int, m: nat)
    requires |k| / 2 <= p && p + |k| / 2 < n && |k| % 2 == 1 && m <= |k|
    requires forall q :: 0 <= q < n && q != p ==> f(q) == 0.0
    ensures Weighted(f, n, k, p, m) == if m > |k| / 2 then PlusTimes(0.0, k[|k| / 2], f(p)) else 0.0
  {
    if m > 0 {
      WeightedLone(f, n, k, p, m - 1);
      assert 0 <= p + (m - 1) - |k| / 2 < n;
    }
  }

  lemma {:induction false} WeightedZero(f: Line, n: nat, k: seq<real>, p: int, m: nat)
    requires n > 0 && m <= |k| && forall q :: 0 <= q < n ==> f(q) == 0.0
    ensures Weighted(f, n, k, p, m) == 0.0
  {
    if m > 0 { WeightedZero(f, n, k, p, m - 1); }
  }

  /** One pass over a grid that is 0 but at (`r`, `c`): there the centre weight's share, and 0 in the
      rest of its column. */
  lemma LoneAcross(f: Field<real>, h: nat, w: nat, k: seq<real>, r: int, c: int)
    requires |k| % 2 == 1 && 0 <= r < h && |k| / 2 <= c && c + |k| / 2 < w
    requires forall i, j :: 0 <= i < h && 0 <= j < w && !(i == r && j == c) ==> f(i, j) == 0.0
    ensures Blur1(f, Across, h, w, k)(r, c) == PlusTimes(0.0, k[|k| / 2], f(r, c))
    ensures forall i :: 0 <= i < h && i != r ==> Blur1(f, Across, h, w, k)(i, c) == 0.0
  {
    WeightedLone(LineOf(f, Across, r), w, k, c, |k|);
    forall i | 0 <= i < h && i != r ensures Blur1(f, Across, h, w, k)(i, c) == 0.0 {
      WeightedZero(LineOf(f, Across, i), w, k, c, |k|);
    }
  }

  /** The bound is exact: a lone valid cell away from the edges passes only so. */
  lemma LoneCellPassesIff(valid: Mask, h: nat, w: nat, sigma: real, k: seq<real>, r: int, c: int)
    requires IsKernel(k) && sigma > 0.0 && |k| / 2 <= r && r + |k| / 2 < h && |k| / 2 <= c && c + |k| / 2 < w
    requires forall i, j :: 0 <= i < h && 0 <= j < w ==> (valid(i, j) <==> i == r && j == c)
    ensures Blur(Weight(valid), h, w, sigma, k)(r, c) > THRESHOLD <==> k[|k| / 2] * k[|k| / 2] > THRESHOLD
  {
    var f := Weight(valid);
    var f1 := Blur1(f, Across, h, w, k);
    LoneAcross(f, h, w, k, r, c);
    WeightedLone(LineOf(f1, Down, c), h, k, r, |k|);
    LoneProduct(k[|k| / 2], f1(r, c), Blur2(f, h, w, k)(r, c));
  }

  lemma LoneProduct(weight: real, x: real, y: real)
    requires x == PlusTimes(0.0, weight, 1.0) && y == PlusTimes(0.0, weight, x)
    ensures y == weight * weight
  {
  }

  // ------------------------------------------------------ with nothing missing

  lemma {:induction false} WeightedOnes(f: Line, n: nat, k: seq<real>, p: int, m: nat)
    requires n > 0 && m <= |k| && forall q :: 0 <= q < n ==> f(q) == 1.0
    ensures Weighted(f, n, k, p, m) == Total(k, m)
  {
    if m > 0 { WeightedOnes(f, n, k, p, m - 1); }
  }

  ghost predicate AllOnes(f: Field<real>, h: nat, w: nat) {
    forall r, c :: 0 <= r < h && 0 <= c < w ==> f(r, c) == 1.0
  }

  lemma Blur1OfOnes(f: Field<real>, axis: Axis, h: nat, w: nat, k: seq<real>)
    requires h > 0 && w > 0 && IsKernel(k) && AllOnes(f, h, w)
    ensures AllOnes(Blur1(f, axis, h, w, k), h, w)
  {
    forall r, c | 0 <= r < h && 0 <= c < w ensures Blur1(f, axis, h, w, k)(r, c) == 1.0 {
      if axis == Down {
        WeightedOnes(LineOf(f, Down, c), h, k, r, |k|);
      } else {
        WeightedOnes(LineOf(f, Across, r), w, k, c, |k|);
      }
    }
  }

  lemma BlurOfOnes(f: Field<real>, h: nat, w: nat, sigma: real, k: seq<real>)
    requires h > 0 && w > 0 && IsKernel(k) && AllOnes(f, h, w)
    ensures AllOnes(Blur(f, h, w, sigma, k), h, w)
  {
    if sigma > 0.0 {
      Blur1OfOnes(f, Across, h, w, k);
      Blur1OfOnes(Blur1(f, Across, h, w, k), Down, h, w, k);
    }
  }

  /** With every cell valid it is the plain Gaussian. */
  lemma AllValidIsPlain(values: Field<real>, valid: Mask, h: nat, w: nat, sigma: real, k: seq<real>)
    requires h > 0 && w > 0 && IsKernel(k) && forall r, c :: 0 <= r < h && 0 <= c < w ==> valid(r, c)
    ensures Same(Normalized(values, valid, h, w, sigma, k), Blur(values, h, w, sigma, k), h, w)
  {
    BlurOfOnes(Weight(valid), h, w, sigma, k);
    BlurSame(Masked(values, valid), values, h, w, sigma, k);
  }
}
