/**
 Heights as terrarium RGB (topo/build_nsw_dem.py: `encode_terrarium`,
 `decode_terrarium`; topo/sharpen.py: `rounding_at`).

 Values are rounded to a step of 2^-k and split into three bytes. The theorem
 says exactly when the bytes give the rounded value back.
 */
module Terrarium {
  import opened Common

  datatype Rgb = Rgb(r: int, g: int, b: int)

  /** `np.round`: to the nearest integer, a half to the even one. */
  function RoundHalfEven(x: real): (n: int)
    ensures -0.5 <= x - n as real <= 0.5 && (x - n as real == 0.5 || x - n as real == -0.5 ==> n % 2 == 0)
  {
    var down := x.Floor;
    var part := x - down as real;
    if part < 0.5 || (part == 0.5 && down % 2 == 0) then down else down + 1
  }

  /** `r` is `q` steps, at `s` steps to the metre. */
  predicate InSteps(r: real, s: real, q: int) {
    r * s == q as real
  }

  /** `q` steps, in metres. */
  function InMetres(q: int, s: real): (r: real)
    requires s > 0.0
    ensures InSteps(r, s, q)
  {
    DividedTimes(q as real, s);
    q as real / s
  }

  /** `np.round(heights / rounding) * rounding`, for `s` steps to the metre: the nearest whole step. */
  function RoundedTo(h: real, s: real): (r: real)
    requires s > 0.0
    ensures InSteps(r, s, RoundHalfEven(h * s))
  {
    InMetres(RoundHalfEven(h * s), s)
  }

  /** Rounded to a step of 2^-k. */
  function Rounded(h: real, k: nat): real {
    RoundedTo(h, Pow2(k) as real)
  }

  function Encode(p: Pixel, k: nat): Rgb {
    var v := if p.Some? then Rounded(p.value, k) + 32768.0 else 0.0;
    var r := (v / 256.0).Floor;
    var g := (v - r as real * 256.0).Floor;
    var b := ((v - r as real * 256.0 - g as real) * 256.0).Floor;
    Rgb(r, g, b)
  }

  function Decode(c: Rgb): Pixel {
    var value := c.r as real * 256.0 + c.g as real + c.b as real / 256.0 - 32768.0;
    if value <= -32000.0 then None else Some(value)
  }

  predicate IsByte(x: int) {
    0 <= x < 256
  }

  predicate InRange(x: real) {
    -32768.0 <= x < 32768.0
  }

  /** A multiple of a step no finer than 1/256 is a whole number of 256ths. */
  lemma {:induction false} StepsDivide256(k: nat) returns (m: int)
    requires k <= 8
    ensures m * Pow2(k) == 256
  {
    assert Pow2(0) == 1 && Pow2(1) == 2 && Pow2(2) == 4 && Pow2(3) == 8 && Pow2(4) == 16;
    assert Pow2(5) == 32 && Pow2(6) == 64 && Pow2(7) == 128 && Pow2(8) == 256;
    m := [256, 128, 64, 32, 16, 8, 4, 2, 1][k];
  }

  /** Splitting a whole number of 256ths below 65536 loses nothing. */
  lemma SplitIsExact(v: real, n: int)
    requires v * 256.0 == n as real && 0.0 <= v < 65536.0
    ensures var r := (v / 256.0).Floor;
            var g := (v - r as real * 256.0).Floor;
            var b := ((v - r as real * 256.0 - g as real) * 256.0).Floor;
            IsByte(r) && IsByte(g) && IsByte(b) && r as real * 256.0 + g as real + b as real / 256.0 == v
  {
    var r := (v / 256.0).Floor;
    var g := (v - r as real * 256.0).Floor;
    var rest := v - r as real * 256.0 - g as real;
    assert rest * 256.0 == (n - r * 65536 - g * 256) as real;
    assert (rest * 256.0).Floor == n - r * 65536 - g * 256;
  }

  lemma RoundedIs256ths(h: real, k: nat) returns (n: int)
    requires k <= 8
    ensures Rounded(h, k) * 256.0 == n as real
  {
    var m := StepsDivide256(k);
    var r, s, q := Rounded(h, k), Pow2(k), RoundHalfEven(h * Pow2(k) as real);
    n := q * m;
    assert (m * s) as real == 256.0;
    assert r * (s as real * m as real) == (r * s as real) * m as real;
  }

  /** The bytes are 256s, ones and 256ths of a metre above -32768, in that order. */
  lemma EncodeIsPositional(h: real, k: nat)
    requires k <= 8 && InRange(Rounded(h, k))
    ensures var c := Encode(Some(h), k);
            0 <= c.r < 256 && 0 <= c.g < 256 && 0 <= c.b < 256 &&
            c.r as real * 256.0 + c.g as real + c.b as real / 256.0 - 32768.0 == Rounded(h, k)
  {
    var n := RoundedIs256ths(h, k);
    SplitIsExact(Rounded(h, k) + 32768.0, n + 32768 * 256);
  }

  /** What a height comes back as: its rounded value if that is above -32000, else no-data. The
      channels fit their bytes, so the cast to `uint8` changes nothing. */
  lemma RoundTrip(h: real, k: nat)
    requires k <= 8 && InRange(Rounded(h, k))
    ensures var c := Encode(Some(h), k); IsByte(c.r) && IsByte(c.g) && IsByte(c.b)
    ensures Decode(Encode(Some(h), k)) == if Rounded(h, k) > -32000.0 then Some(Rounded(h, k)) else None
  {
    var n := RoundedIs256ths(h, k);
    SplitIsExact(Rounded(h, k) + 32768.0, n + 32768 * 256);
  }

  lemma SmallerOverStep(x: real, s: real)
    requires s > 0.0 && x * s <= 0.5
    ensures x <= 0.5 / s
  {
    DividedTimes(0.5, s);
    assert (x - 0.5 / s) * s <= 0.0;
  }

  /** The rounded value is within half a step of the height. */
  lemma RoundedIsNear(h: real, k: nat)
    ensures -(0.5 / Pow2(k) as real) <= h - Rounded(h, k) <= 0.5 / Pow2(k) as real
  {
    RoundedToIsNear(h, Pow2(k) as real);
  }

  lemma RoundedToIsNear(h: real, s: real)
    requires s > 0.0
    ensures -(0.5 / s) <= h - RoundedTo(h, s) <= 0.5 / s
  {
    var x := h * s;
    NearestStepIsNear(h, RoundedTo(h, s), s, x, RoundHalfEven(x));
  }

  predicate IsScaled(h: real, s: real, x: real) {
    h * s == x
  }

  lemma NearestStepIsNear(h: real, r: real, s: real, x: real, q: int)
    requires s > 0.0 && IsScaled(h, s, x) && InSteps(r, s, q) && -0.5 <= x - q as real <= 0.5
    ensures -(0.5 / s) <= h - r <= 0.5 / s
  {
    Distributes(h, r, s);
    SmallerOverStep(h - r, s);
    SmallerOverStep(r - h, s);
  }

  lemma Distributes(a: real, b: real, s: real)
    ensures (a - b) * s == a * s - b * s && (b - a) * s == b * s - a * s
  {
  }

  lemma RoundWhole(q: int)
    ensures RoundHalfEven(q as real) == q
  {
  }

  lemma RoundedIs(r: real, s: real, q: int)
    requires s > 0.0 && InSteps(r, s, q)
    ensures RoundedTo(r, s) == InMetres(q, s)
  {
    RoundWhole(q);
  }

  /** A whole number of steps rounds to itself. */
  lemma WholeStepsStay(q: int, s: real)
    requires s > 0.0
    ensures RoundedTo(InMetres(q, s), s) == InMetres(q, s)
  {
    var r := InMetres(q, s);
    assert InSteps(r, s, q);
    RoundedIs(r, s, q);
  }

  lemma RoundedTwice(h: real, k: nat)
    ensures Rounded(Rounded(h, k), k) == Rounded(h, k)
  {
    var s := Pow2(k) as real;
    WholeStepsStay(RoundHalfEven(h * s), s);
  }

  /** No-data is (0, 0, 0), and comes back as no-data. */
  lemma NoDataRoundTrip(k: nat)
    ensures Encode(None, k) == Rgb(0, 0, 0) && Decode(Encode(None, k)) == None
  {
  }

  /** Writing what was read writes the same bytes, except for a value read as no-data: one rounded
      to between -32768 and -32000 becomes (0, 0, 0). */
  lemma ReencodeIsIdentity(p: Pixel, k: nat)
    requires k <= 8 && (p.Some? ==> InRange(Rounded(p.value, k)))
    ensures Encode(Decode(Encode(p, k)), k) == Encode(p, k) <==>
            p.None? || Rounded(p.value, k) > -32000.0 || Rounded(p.value, k) == -32768.0
  {
    NoDataRoundTrip(k);
    if p.Some? {
      RoundTrip(p.value, k);
      RoundedTwice(p.value, k);
      var n := RoundedIs256ths(p.value, k);
      SplitIsExact(Rounded(p.value, k) + 32768.0, n + 32768 * 256);
    }
  }

  // ---------------------------------------------------------------- the layers

  datatype Layer = Heights | Slope

  const ZMIN := 15

  /** `layer.rounding`, and `rounding_at`'s: a quarter metre at zoom 15, halved each zoom deeper;
      a slope's whole degree at every zoom. */
  function RoundingAt(layer: Layer, z: nat): real
    requires z >= ZMIN
  {
    match layer
    case Slope => 1.0
    case Heights => 0.25 / Pow2(z - ZMIN) as real
  }

  lemma RoundingHalves(z: nat)
    requires z >= ZMIN
    ensures RoundingAt(Heights, 15) == 0.25 && RoundingAt(Slope, z) == 1.0
    ensures RoundingAt(Heights, z + 1) * 2.0 == RoundingAt(Heights, z)
  {
    var s := Pow2(z - ZMIN) as real;
    assert Pow2(z + 1 - ZMIN) as real == 2.0 * s;
    DividedTimes(0.25, s);
    DividedTimes(0.25, 2.0 * s);
    SameTimes(0.25 / (2.0 * s) * 2.0, 0.25 / s, s);
  }

  lemma SameTimes(x: real, y: real, s: real)
    requires s > 0.0 && x * s == y * s
    ensures x == y
  {
    assert (x - y) * s == 0.0;
  }

  /** The step as a power of two: `2^-k`. */
  function StepOf(layer: Layer, z: nat): nat
    requires z >= ZMIN
  {
    match layer
    case Slope => 0
    case Heights => z - ZMIN + 2
  }

  /** Every step the layers round to is one the bytes hold exactly, down to zoom 21. */
  lemma EveryStepIsExact(layer: Layer, z: nat, h: real)
    requires ZMIN <= z <= 21 && -32000.0 < Rounded(h, StepOf(layer, z)) < 32768.0
    ensures RoundingAt(layer, z) * Pow2(StepOf(layer, z)) as real == 1.0
    ensures Decode(Encode(Some(h), StepOf(layer, z))) == Some(Rounded(h, StepOf(layer, z)))
    ensures -(RoundingAt(layer, z) / 2.0) <= h - Rounded(h, StepOf(layer, z)) <= RoundingAt(layer, z) / 2.0
  {
    RoundTrip(h, StepOf(layer, z));
    RoundedIsNear(h, StepOf(layer, z));
    StepsAndRounding(layer, z);
  }

  lemma StepsAndRounding(layer: Layer, z: nat)
    requires z >= ZMIN
    ensures RoundingAt(layer, z) * Pow2(StepOf(layer, z)) as real == 1.0
    ensures 0.5 / Pow2(StepOf(layer, z)) as real == RoundingAt(layer, z) / 2.0
  {
    if layer == Heights {
      var s := Pow2(z - ZMIN);
      assert Pow2(z - ZMIN + 2) == 2 * Pow2(z - ZMIN + 1) == 4 * s;
      assert (0.25 / s as real) * (4 * s) as real == 1.0;
    }
  }
}
