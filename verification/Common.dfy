/** Shared values and arithmetic. */
module Common {
  datatype Option<+T> = None | Some(value: T)

  /** A value, or None for no-data (NaN). */
  type Pixel = Option<real>

  /** A grid of any extent, by row and column. */
  type Field<T> = (int, int) -> T

  function Abs(x: int): nat { if x < 0 then -x else x }

  function Pow2(n: nat): (p: nat)
    ensures p > 0
  {
    if n == 0 then 1 else 2 * Pow2(n - 1)
  }

  lemma DividedTimes(x: real, s: real)
    requires s > 0.0
    ensures x / s * s == x
  {
  }
}
