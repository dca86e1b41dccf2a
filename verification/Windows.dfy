/**
 Sums over a window of a line, and how a line is read past its ends
 (`np.pad` in topo/pipeline.py). Shared by the box and Gaussian filters.
 */
module Windows {
  import opened Common

  /** A line of cells, by position. */
  type Line = int -> real

  /** `f(lo) + ... + f(hi - 1)`. */
  ghost function Sum(f: Line, lo: int, hi: int): real
    decreases hi - lo
  {
    if hi <= lo then 0.0 else Sum(f, lo, hi - 1) + f(hi - 1)
  }

  lemma {:induction false} SumSplits(f: Line, lo: int, mid: int, hi: int)
    requires lo <= mid <= hi
    ensures Sum(f, lo, hi) == Sum(f, lo, mid) + Sum(f, mid, hi)
    decreases hi - mid
  {
    if mid < hi { SumSplits(f, lo, mid, hi - 1); }
  }

  ghost predicate Agree(f: Line, g: Line, lo: int, hi: int) {
    forall p :: lo <= p < hi ==> f(p) == g(p)
  }

  lemma {:induction false} SumsAgree(f: Line, g: Line, lo: int, hi: int)
    requires Agree(f, g, lo, hi)
    ensures Sum(f, lo, hi) == Sum(g, lo, hi)
    decreases hi - lo
  {
    if lo < hi { SumsAgree(f, g, lo, hi - 1); }
  }

  ghost predicate Shifted(f: Line, g: Line, off: int, lo: int, hi: int) {
    forall p :: lo <= p < hi ==> f(p) == g(p + off)
  }

  lemma {:induction false} SumShifts(f: Line, g: Line, off: int, lo: int, hi: int)
    requires Shifted(f, g, off, lo, hi)
    ensures Sum(f, lo, hi) == Sum(g, lo + off, hi + off)
    decreases hi - lo
  {
    if lo < hi { SumShifts(f, g, off, lo, hi - 1); }
  }

  lemma {:induction false} SumOfSums(f: Line, g: Line, sum: Line, lo: int, hi: int)
    requires forall p :: lo <= p < hi ==> sum(p) == f(p) + g(p)
    ensures Sum(sum, lo, hi) == Sum(f, lo, hi) + Sum(g, lo, hi)
    decreases hi - lo
  {
    if lo < hi { SumOfSums(f, g, sum, lo, hi - 1); }
  }

  predicate TimesIs(x: real, s: real, y: real) {
    x * s == y
  }

  lemma AddTimesIs(x: real, y: real, s: real, a: real, b: real)
    requires TimesIs(x, s, a) && TimesIs(y, s, b)
    ensures TimesIs(x + y, s, a + b)
  {
  }

  lemma {:induction false} SumTimes(f: Line, s: real, g: Line, lo: int, hi: int)
    requires forall p :: lo <= p < hi ==> TimesIs(f(p), s, g(p))
    ensures TimesIs(Sum(f, lo, hi), s, Sum(g, lo, hi))
    decreases hi - lo
  {
    if lo < hi {
      SumTimes(f, s, g, lo, hi - 1);
      AddTimesIs(Sum(f, lo, hi - 1), f(hi - 1), s, Sum(g, lo, hi - 1), g(hi - 1));
    }
  }

  // ------------------------------------------------------------------ padding

  /** `mode="edge"`. */
  function Clamp(p: int, n: nat): (i: nat)
    requires n > 0
    ensures i < n && (0 <= p < n ==> i == p)
  {
    if p < 0 then 0 else if p < n then p else n - 1
  }

  /** No cell of the line is nearer. */
  lemma ClampIsNearest(p: int, n: nat, q: nat)
    requires q < n
    ensures Abs(p - Clamp(p, n)) <= Abs(p - q)
  {
  }

  /** `mode="reflect"`: mirrored about the end cells, which are not repeated, as often as needed; one
      cell alone is repeated. */
  function Reflect(p: int, n: nat): (i: nat)
    requires n > 0
    ensures i < n && (0 <= p < n ==> i == p)
    decreases Abs(p), p < 0
  {
    if n == 1 then 0
    else if p < 0 then Reflect(-p, n)
    else if p >= n then Reflect(2 * (n - 1) - p, n)
    else p
  }

  /** Both end cells are mirrors, and are not repeated. */
  lemma {:induction false} ReflectMirrors(p: int, n: nat)
    requires n > 0
    ensures Reflect(-p, n) == Reflect(p, n)
    ensures Reflect(n - 1 + p, n) == Reflect(n - 1 - p, n)
  {
    if p > 0 && n > 1 {
      assert 2 * (n - 1) - (n - 1 + p) == n - 1 - p;
    } else if p < 0 && n > 1 {
      assert 2 * (n - 1) - (n - 1 - p) == n - 1 + p;
    }
  }

  /** So just past the ends the line is read backwards from its second cell, */
  lemma ReflectPastEnds(p: int, n: nat)
    requires 0 < p < n
    ensures Reflect(-p, n) == p && Reflect(n - 1 + p, n) == n - 1 - p
  {
    ReflectMirrors(p, n);
  }

  /** and it repeats after every two of its lengths, less the two ends. */
  lemma ReflectRepeats(p: int, n: nat)
    requires n > 1
    ensures Reflect(p + 2 * (n - 1), n) == Reflect(p, n)
  {
    ReflectMirrors(p + n - 1, n);
    assert n - 1 + (p + n - 1) == p + 2 * (n - 1) && n - 1 - (p + n - 1) == -p;
    ReflectMirrors(p, n);
  }

  /** Mirror images of each other about the first of `n` cells or the last; of a cell alone, any two. */
  predicate AreMirrored(p: int, q: int, n: nat) {
    n == 1 || p + q == 0 || p + q == 2 * (n - 1)
  }

  lemma MirroredReadAlike(p: int, q: int, n: nat)
    requires n > 0 && AreMirrored(p, q, n)
    ensures Reflect(p, n) == Reflect(q, n)
  {
    if n > 1 {
      ReflectMirrors(p, n);
      ReflectMirrors(p - (n - 1), n);
      assert n - 1 + (p - (n - 1)) == p && n - 1 - (p - (n - 1)) == 2 * (n - 1) - p;
    }
  }

  /** `g` reads `f` inside the line, and is its own mirror image about both end cells. */
  ghost predicate IsMirrored(f: Line, g: Line, n: nat) {
    (forall p :: 0 <= p < n ==> g(p) == f(p)) &&
    forall p, q {:trigger AreMirrored(p, q, n)} :: AreMirrored(p, q, n) ==> g(p) == g(q)
  }

  /** Only reflection does that: it is decided by its two mirrors. */
  lemma {:induction false} MirrorsDecide(f: Line, g: Line, n: nat, p: int)
    requires n > 0 && IsMirrored(f, g, n)
    ensures g(p) == f(Reflect(p, n))
    decreases Abs(p), p < 0
  {
    if n == 1 {
      assert AreMirrored(p, 0, n);
    } else if p < 0 {
      assert AreMirrored(p, -p, n);
      MirrorsDecide(f, g, n, -p);
    } else if p >= n {
      assert AreMirrored(p, 2 * (n - 1) - p, n);
      MirrorsDecide(f, g, n, 2 * (n - 1) - p);
    }
  }
}
