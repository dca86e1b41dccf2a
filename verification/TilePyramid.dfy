/**
 The tile pyramid (topo/build_nsw_dem.py: `halve`, `halve_max`, `tiles_of`,
 `save_block`, `coarse_tiles`, `pack`; topo/sharpen.py: `pyramid`).

 Each block is reduced on its own to one tile, and those tiles across blocks to
 the coarsest zooms. The theorems say the partition cannot be seen: the archive
 holds exactly the tiles with a known pixel under them, each once, and each
 pixel is the reduction of all that lies under it.
 */
module TilePyramid {
  import opened Common

  const TILE := 256

  type Raster = seq<seq<Pixel>>

  /** How four pixels become one of the next coarser zoom. */
  type Reduce = (Pixel, Pixel, Pixel, Pixel) -> Pixel

  ghost predicate IsGrid(g: Raster, h: nat, w: nat) {
    |g| == h && forall r :: 0 <= r < h ==> |g[r]| == w
  }

  // -------------------------------------------------------------- the reductions

  /** `np.fmax`: the greater of two, no-data losing to a value. */
  function FMax(a: Pixel, b: Pixel): Pixel {
    if a.None? then b else if b.None? then a else if a.value < b.value then b else a
  }

  /** `halve_max`, on one 2x2. */
  function Max4(a: Pixel, b: Pixel, c: Pixel, d: Pixel): Pixel {
    FMax(FMax(FMax(a, b), c), d)
  }

  function Known(p: Pixel): nat { if p.Some? then 1 else 0 }

  function Value(p: Pixel): real { if p.Some? then p.value else 0.0 }

  /** `halve`, on one 2x2: the mean of those known. */
  function Mean4(a: Pixel, b: Pixel, c: Pixel, d: Pixel): Pixel {
    var count := Known(a) + Known(b) + Known(c) + Known(d);
    if count > 0 then Some((Value(a) + Value(b) + Value(c) + Value(d)) / count as real) else None
  }

  /** The mean of the known: it and those known sum to the same, however many they are. */
  lemma Mean4IsMean(a: Pixel, b: Pixel, c: Pixel, d: Pixel)
    ensures Mean4(a, b, c, d).Some? ==>
              var mean := Mean4(a, b, c, d).value;
              (if a.Some? then a.value - mean else 0.0) + (if b.Some? then b.value - mean else 0.0) +
              (if c.Some? then c.value - mean else 0.0) + (if d.Some? then d.value - mean else 0.0) == 0.0
  {
    var count, sum := Known(a) + Known(b) + Known(c) + Known(d), Value(a) + Value(b) + Value(c) + Value(d);
    if count > 0 {
      DividedTimes(sum, count as real);
      var mean, ka, kb, kc, kd := sum / count as real, Known(a) as real, Known(b) as real, Known(c) as real,
                                  Known(d) as real;
      assert count as real == ka + kb + kc + kd;
      assert mean * (ka + kb + kc + kd) == mean * ka + mean * kb + mean * kc + mean * kd;
    }
  }

  /** A reduction is no-data exactly when all four are. */
  ghost predicate KeepsKnown(reduce: Reduce) {
    forall a, b, c, d :: reduce(a, b, c, d).None? <==> a.None? && b.None? && c.None? && d.None?
  }

  lemma BothLayersKeepKnown()
    ensures KeepsKnown(Max4) && KeepsKnown(Mean4)
  {
  }

  // ------------------------------------------------- what the pyramid should hold

  /** The whole raster one zoom coarser. */
  function Coarser(f: Field<Pixel>, reduce: Reduce): Field<Pixel> {
    (y: int, x: int) => reduce(f(2 * y, 2 * x), f(2 * y, 2 * x + 1), f(2 * y + 1, 2 * x), f(2 * y + 1, 2 * x + 1))
  }

  /** The whole raster `k` zooms above the deepest. */
  ghost function AtZoom(v: Field<Pixel>, reduce: Reduce, k: nat): Field<Pixel> {
    if k == 0 then v else Coarser(AtZoom(v, reduce, k - 1), reduce)
  }

  /** One pixel of it, reduced from everything under it. */
  ghost function Reduced(v: Field<Pixel>, reduce: Reduce, k: nat, y: int, x: int): Pixel {
    AtZoom(v, reduce, k)(y, x)
  }

  /** A coordinate `k` zooms up: `a >> k`. */
  function Up(a: int, k: nat): int {
    if k == 0 then a else Up(a, k - 1) / 2
  }

  /** Pixel (`y1`, `x1`) of the deepest zoom lies under (`y`, `x`), `k` zooms up. */
  predicate Under(k: nat, y: int, x: int, y1: int, x1: int) {
    Up(y1, k) == y && Up(x1, k) == x
  }

  /** What lies under a pixel lies under one of its four children. */
  lemma UnderChild(k: nat, y: int, x: int, y1: int, x1: int)
    ensures Under(k + 1, y, x, y1, x1) <==>
            Under(k, 2 * y, 2 * x, y1, x1) || Under(k, 2 * y, 2 * x + 1, y1, x1) ||
            Under(k, 2 * y + 1, 2 * x, y1, x1) || Under(k, 2 * y + 1, 2 * x + 1, y1, x1)
  {
  }

  /** Something known lies under the pixel. */
  ghost predicate KnownUnder(v: Field<Pixel>, k: nat, y: int, x: int) {
    exists y1, x1 :: Under(k, y, x, y1, x1) && v(y1, x1).Some?
  }

  lemma FromFour(v: Field<Pixel>, reduce: Reduce, k: nat, y: int, x: int)
    requires k > 0
    ensures Reduced(v, reduce, k, y, x) ==
            reduce(Reduced(v, reduce, k - 1, 2 * y, 2 * x), Reduced(v, reduce, k - 1, 2 * y, 2 * x + 1),
                   Reduced(v, reduce, k - 1, 2 * y + 1, 2 * x), Reduced(v, reduce, k - 1, 2 * y + 1, 2 * x + 1))
  {
  }

  lemma KnownUnderChild(v: Field<Pixel>, k: nat, y: int, x: int)
    ensures KnownUnder(v, k + 1, y, x) <==>
            KnownUnder(v, k, 2 * y, 2 * x) || KnownUnder(v, k, 2 * y, 2 * x + 1) ||
            KnownUnder(v, k, 2 * y + 1, 2 * x) || KnownUnder(v, k, 2 * y + 1, 2 * x + 1)
  {
    forall y1, x1
      ensures Under(k + 1, y, x, y1, x1) <==>
              Under(k, 2 * y, 2 * x, y1, x1) || Under(k, 2 * y, 2 * x + 1, y1, x1) ||
              Under(k, 2 * y + 1, 2 * x, y1, x1) || Under(k, 2 * y + 1, 2 * x + 1, y1, x1)
    {
      UnderChild(k, y, x, y1, x1);
    }
  }

  lemma KnownOfFour(reduce: Reduce, a: Pixel, b: Pixel, c: Pixel, d: Pixel)
    requires KeepsKnown(reduce)
    ensures reduce(a, b, c, d).Some? <==> a.Some? || b.Some? || c.Some? || d.Some?
  {
  }

  lemma KnownFromFour(v: Field<Pixel>, reduce: Reduce, k: nat, y: int, x: int)
    requires KeepsKnown(reduce) && k > 0
    ensures Reduced(v, reduce, k, y, x).Some? <==>
            Reduced(v, reduce, k - 1, 2 * y, 2 * x).Some? || Reduced(v, reduce, k - 1, 2 * y, 2 * x + 1).Some? ||
            Reduced(v, reduce, k - 1, 2 * y + 1, 2 * x).Some? || Reduced(v, reduce, k - 1, 2 * y + 1, 2 * x + 1).Some?
  {
    FromFour(v, reduce, k, y, x);
    KnownOfFour(reduce, Reduced(v, reduce, k - 1, 2 * y, 2 * x), Reduced(v, reduce, k - 1, 2 * y, 2 * x + 1),
                Reduced(v, reduce, k - 1, 2 * y + 1, 2 * x), Reduced(v, reduce, k - 1, 2 * y + 1, 2 * x + 1));
  }

  /** A reduced pixel is no-data exactly when all under it are. */
  lemma {:induction false} ReducedIsKnown(v: Field<Pixel>, reduce: Reduce, k: nat, y: int, x: int)
    requires KeepsKnown(reduce)
    ensures Reduced(v, reduce, k, y, x).Some? <==> KnownUnder(v, k, y, x)
  {
    if k == 0 {
      assert Under(0, y, x, y, x);
    } else {
      ReducedIsKnown(v, reduce, k - 1, 2 * y, 2 * x);
      ReducedIsKnown(v, reduce, k - 1, 2 * y, 2 * x + 1);
      ReducedIsKnown(v, reduce, k - 1, 2 * y + 1, 2 * x);
      ReducedIsKnown(v, reduce, k - 1, 2 * y + 1, 2 * x + 1);
      KnownFromFour(v, reduce, k, y, x);
      KnownUnderChild(v, k - 1, y, x);
    }
  }

  /** `p` is the greatest known value under the pixel, or no-data when there is none. */
  ghost predicate IsGreatest(v: Field<Pixel>, k: nat, y: int, x: int, p: Pixel) {
    (p.Some? ==> exists y1, x1 :: Under(k, y, x, y1, x1) && v(y1, x1) == p) &&
    forall y1, x1 :: Under(k, y, x, y1, x1) && v(y1, x1).Some? ==> p.Some? && v(y1, x1).value <= p.value
  }

  lemma Max4IsGreatest(v: Field<Pixel>, k: nat, y: int, x: int, a: Pixel, b: Pixel, c: Pixel, d: Pixel)
    requires IsGreatest(v, k, 2 * y, 2 * x, a) && IsGreatest(v, k, 2 * y, 2 * x + 1, b)
    requires IsGreatest(v, k, 2 * y + 1, 2 * x, c) && IsGreatest(v, k, 2 * y + 1, 2 * x + 1, d)
    ensures IsGreatest(v, k + 1, y, x, Max4(a, b, c, d))
  {
    var p := Max4(a, b, c, d);
    if p.Some? {
      var y1, x1 :|
        (Under(k, 2 * y, 2 * x, y1, x1) || Under(k, 2 * y, 2 * x + 1, y1, x1) ||
         Under(k, 2 * y + 1, 2 * x, y1, x1) || Under(k, 2 * y + 1, 2 * x + 1, y1, x1)) && v(y1, x1) == p;
      UnderChild(k, y, x, y1, x1);
    }
    forall y1, x1 | Under(k + 1, y, x, y1, x1) && v(y1, x1).Some? ensures p.Some? && v(y1, x1).value <= p.value {
      UnderChild(k, y, x, y1, x1);
    }
  }

  /** The slope pyramid at any zoom: the steepest of every known pixel underneath, and no-data
      exactly when none is known. */
  lemma {:induction false} SlopeIsSteepestUnder(v: Field<Pixel>, k: nat, y: int, x: int)
    ensures IsGreatest(v, k, y, x, Reduced(v, Max4, k, y, x))
  {
    if k == 0 {
      assert Under(0, y, x, y, x);
    } else {
      SlopeIsSteepestUnder(v, k - 1, 2 * y, 2 * x);
      SlopeIsSteepestUnder(v, k - 1, 2 * y, 2 * x + 1);
      SlopeIsSteepestUnder(v, k - 1, 2 * y + 1, 2 * x);
      SlopeIsSteepestUnder(v, k - 1, 2 * y + 1, 2 * x + 1);
      FromFour(v, Max4, k, y, x);
      Max4IsGreatest(v, k - 1, y, x,
                     Reduced(v, Max4, k - 1, 2 * y, 2 * x), Reduced(v, Max4, k - 1, 2 * y, 2 * x + 1),
                     Reduced(v, Max4, k - 1, 2 * y + 1, 2 * x), Reduced(v, Max4, k - 1, 2 * y + 1, 2 * x + 1));
    }
  }

  // --------------------------------------------------------------- the archive

  datatype Address = Address(z: nat, x: int, y: int)

  datatype Tile = Tile(at: Address, data: Raster)

  /** A known pixel of the deepest zoom, `zmax`, lies under the tile. */
  ghost predicate Holds(v: Field<Pixel>, zmax: nat, a: Address)
    requires a.z <= zmax
  {
    exists y1, x1 :: v(y1, x1).Some? && Up(y1 / TILE, zmax - a.z) == a.y && Up(x1 / TILE, zmax - a.z) == a.x
  }

  ghost predicate ShowsAt(f: Field<Pixel>, data: Raster, y0: int, x0: int, r: nat, c: nat)
    requires r < |data| && c < |data[r]|
  {
    data[r][c] == f(y0 + r, x0 + c)
  }

  /** `data` is the `n` x `n` pixels of `f` from (`y0`, `x0`). */
  ghost predicate ShowsField(f: Field<Pixel>, data: Raster, n: nat, y0: int, x0: int) {
    IsGrid(data, n, n) && forall r: nat, c: nat :: r < n && c < n ==> ShowsAt(f, data, y0, x0, r, c)
  }

  /** `data` is `n` x `n` pixels `k` zooms up, each reduced from all that lies under it. */
  ghost predicate Shows(v: Field<Pixel>, reduce: Reduce, k: nat, data: Raster, n: nat, y0: int, x0: int) {
    ShowsField(AtZoom(v, reduce, k), data, n, y0, x0)
  }

  ghost predicate TileOk(v: Field<Pixel>, reduce: Reduce, zmax: nat, t: Tile) {
    t.at.z <= zmax && Holds(v, zmax, t.at) &&
    Shows(v, reduce, zmax - t.at.z, t.data, TILE, t.at.y * TILE, t.at.x * TILE)
  }

  ghost predicate HasTile(tiles: seq<Tile>, a: Address) {
    exists i :: 0 <= i < |tiles| && tiles[i].at == a
  }

  ghost predicate OncePerAddress(tiles: seq<Tile>) {
    forall i, j :: 0 <= i < j < |tiles| ==> tiles[i].at != tiles[j].at
  }

  /** `tiles` are those of `dom` with a known pixel under them: all of them, each once, each right. */
  ghost predicate Exactly(v: Field<Pixel>, reduce: Reduce, zmax: nat, tiles: seq<Tile>, dom: iset<Address>) {
    (forall a :: a in dom ==> a.z <= zmax) && OncePerAddress(tiles) &&
    (forall i :: 0 <= i < |tiles| ==> tiles[i].at in dom && TileOk(v, reduce, zmax, tiles[i])) &&
    forall a :: a in dom && Holds(v, zmax, a) ==> HasTile(tiles, a)
  }

  lemma ExactlyJoins(v: Field<Pixel>, reduce: Reduce, zmax: nat, s: seq<Tile>, d: iset<Address>, t: seq<Tile>,
                     e: iset<Address>)
    requires Exactly(v, reduce, zmax, s, d) && Exactly(v, reduce, zmax, t, e) && d !! e
    ensures Exactly(v, reduce, zmax, s + t, d + e)
  {
    var all := s + t;
    forall i, j | 0 <= i < j < |all| ensures all[i].at != all[j].at {
      if i < |s| <= j { assert s[i].at in d && t[j - |s|].at in e; }
    }
    forall a | a in d + e && Holds(v, zmax, a) ensures HasTile(all, a) {
      if a in d {
        assert HasTile(s, a);
        var i :| 0 <= i < |s| && s[i].at == a;
        assert all[i].at == a;
      } else {
        assert HasTile(t, a);
        var i :| 0 <= i < |t| && t[i].at == a;
        assert all[|s| + i].at == a;
      }
    }
  }

  /** Addresses with nothing known under them may be added to the domain. */
  lemma ExactlyWidens(v: Field<Pixel>, reduce: Reduce, zmax: nat, s: seq<Tile>, d: iset<Address>, e: iset<Address>)
    requires Exactly(v, reduce, zmax, s, d) && d <= e && forall a :: a in e ==> a.z <= zmax
    requires forall a :: a in e && Holds(v, zmax, a) ==> a in d
    ensures Exactly(v, reduce, zmax, s, e)
  {
  }

  /** Pixels and their tiles climb together. */
  lemma {:induction false} UpOfTile(a: int, k: nat)
    ensures Up(a, k) / TILE == Up(a / TILE, k)
  {
    if k > 0 { UpOfTile(a, k - 1); }
  }

  lemma KnownPixelIsUnderTile(v: Field<Pixel>, k: nat, a: Address, r: nat, c: nat)
    requires r < TILE && c < TILE && KnownUnder(v, k, a.y * TILE + r, a.x * TILE + c)
    ensures exists y1, x1 :: v(y1, x1).Some? && Up(y1 / TILE, k) == a.y && Up(x1 / TILE, k) == a.x
  {
    var y1, x1 :| Under(k, a.y * TILE + r, a.x * TILE + c, y1, x1) && v(y1, x1).Some?;
    UpOfTile(y1, k);
    UpOfTile(x1, k);
    assert Up(y1 / TILE, k) == a.y && Up(x1 / TILE, k) == a.x;
  }

  lemma HeldTileHasKnownPixel(v: Field<Pixel>, k: nat, a: Address) returns (r: nat, c: nat)
    requires exists y1, x1 :: v(y1, x1).Some? && Up(y1 / TILE, k) == a.y && Up(x1 / TILE, k) == a.x
    ensures r < TILE && c < TILE && KnownUnder(v, k, a.y * TILE + r, a.x * TILE + c)
  {
    var y1, x1 :| v(y1, x1).Some? && Up(y1 / TILE, k) == a.y && Up(x1 / TILE, k) == a.x;
    UpOfTile(y1, k);
    UpOfTile(x1, k);
    r, c := Up(y1, k) - a.y * TILE, Up(x1, k) - a.x * TILE;
    assert Under(k, a.y * TILE + r, a.x * TILE + c, y1, x1);
  }

  /** One pixel of a tile's grid is known exactly when something known lies under it. */
  lemma ShownIsKnown(v: Field<Pixel>, reduce: Reduce, zmax: nat, t: Tile, r: nat, c: nat)
    requires KeepsKnown(reduce) && t.at.z <= zmax && r < TILE && c < TILE
    requires Shows(v, reduce, zmax - t.at.z, t.data, TILE, t.at.y * TILE, t.at.x * TILE)
    ensures t.data[r][c].Some? <==> KnownUnder(v, zmax - t.at.z, t.at.y * TILE + r, t.at.x * TILE + c)
  {
    var k, y0, x0 := zmax - t.at.z, t.at.y * TILE, t.at.x * TILE;
    ReducedIsKnown(v, reduce, k, y0 + r, x0 + c);
    ShownPixel(AtZoom(v, reduce, k), t.data, TILE, y0, x0, r, c, y0 + r, x0 + c);
  }

  /** A tile's grid has a value exactly when something known lies under the tile. */
  lemma ShownIsHeld(v: Field<Pixel>, reduce: Reduce, zmax: nat, t: Tile)
    requires KeepsKnown(reduce) && t.at.z <= zmax
    requires Shows(v, reduce, zmax - t.at.z, t.data, TILE, t.at.y * TILE, t.at.x * TILE)
    ensures AnyKnown(t.data) <==> Holds(v, zmax, t.at)
  {
    if AnyKnown(t.data) {
      var r, c :| 0 <= r < TILE && 0 <= c < TILE && t.data[r][c].Some?;
      ShownIsKnown(v, reduce, zmax, t, r, c);
      KnownPixelIsUnderTile(v, zmax - t.at.z, t.at, r, c);
    }
    if Holds(v, zmax, t.at) {
      var r, c := HeldTileHasKnownPixel(v, zmax - t.at.z, t.at);
      ShownIsKnown(v, reduce, zmax, t, r, c);
    }
  }

  // -------------------------------------------------------------- the operations

  /** `valid.any()`. */
  predicate AnyKnown(data: Raster) {
    exists r, c :: 0 <= r < |data| && 0 <= c < |data[r]| && data[r][c].Some?
  }

  /** `halve` and `halve_max`: the next coarser zoom of a grid with even sides. */
  function Halve(g: Raster, n: nat, reduce: Reduce): (half: Raster)
    requires |g| == 2 * n && forall r :: 0 <= r < 2 * n ==> |g[r]| == 2 * n
    ensures IsGrid(half, n, n)
    ensures forall r, c :: 0 <= r < n && 0 <= c < n ==>
              half[r][c] == reduce(g[2 * r][2 * c], g[2 * r][2 * c + 1], g[2 * r + 1][2 * c], g[2 * r + 1][2 * c + 1])
  {
    seq(n, r requires 0 <= r < n =>
      seq(n, c requires 0 <= c < n =>
        reduce(g[2 * r][2 * c], g[2 * r][2 * c + 1], g[2 * r + 1][2 * c], g[2 * r + 1][2 * c + 1])))
  }

  lemma ShownPixel(f: Field<Pixel>, g: Raster, n: nat, y0: int, x0: int, r: nat, c: nat, y: int, x: int)
    requires ShowsField(f, g, n, y0, x0) && r < n && c < n && y == y0 + r && x == x0 + c
    ensures g[r][c] == f(y, x)
  {
    assert ShowsAt(f, g, y0, x0, r, c);
  }

  /** Halving a grid that shows one zoom gives a grid that shows the next. */
  lemma HalveShows(f: Field<Pixel>, reduce: Reduce, g: Raster, n: nat, y0: int, x0: int)
    requires ShowsField(f, g, 2 * n, 2 * y0, 2 * x0)
    ensures ShowsField(Coarser(f, reduce), Halve(g, n, reduce), n, y0, x0)
  {
    var above, half := Coarser(f, reduce), Halve(g, n, reduce);
    forall r: nat, c: nat | r < n && c < n ensures ShowsAt(above, half, y0, x0, r, c) {
      var y, x := 2 * (y0 + r), 2 * (x0 + c);
      ShownPixel(f, g, 2 * n, 2 * y0, 2 * x0, 2 * r, 2 * c, y, x);
      ShownPixel(f, g, 2 * n, 2 * y0, 2 * x0, 2 * r, 2 * c + 1, y, x + 1);
      ShownPixel(f, g, 2 * n, 2 * y0, 2 * x0, 2 * r + 1, 2 * c, y + 1, x);
      ShownPixel(f, g, 2 * n, 2 * y0, 2 * x0, 2 * r + 1, 2 * c + 1, y + 1, x + 1);
    }
  }

  /** The tile of a grid at `row`, `col`. */
  function Slice(g: Raster, row: nat, col: nat): (data: Raster)
    requires (row + 1) * TILE <= |g|
    requires forall r :: row * TILE <= r < (row + 1) * TILE ==> (col + 1) * TILE <= |g[r]|
    ensures IsGrid(data, TILE, TILE)
    ensures forall r, c :: 0 <= r < TILE && 0 <= c < TILE ==> data[r][c] == g[row * TILE + r][col * TILE + c]
  {
    seq(TILE, r requires 0 <= r < TILE => g[row * TILE + r][col * TILE..(col + 1) * TILE])
  }

  lemma SliceShows(f: Field<Pixel>, grid: Raster, n: nat, x0: int, y0: int, row: nat, col: nat)
    requires ShowsField(f, grid, n * TILE, y0 * TILE, x0 * TILE) && row < n && col < n
    ensures ShowsField(f, Slice(grid, row, col), TILE, (y0 + row) * TILE, (x0 + col) * TILE)
  {
    var data, y, x := Slice(grid, row, col), (y0 + row) * TILE, (x0 + col) * TILE;
    forall r: nat, c: nat | r < TILE && c < TILE ensures ShowsAt(f, data, y, x, r, c) {
      ShownPixel(f, grid, n * TILE, y0 * TILE, x0 * TILE, row * TILE + r, col * TILE + c, y + r, x + c);
    }
  }

  /** The addresses of an `n` x `n` square of tiles that come before (`row`, `col`). */
  ghost function SquareTo(z: nat, x0: int, y0: int, n: nat, row: int, col: int): iset<Address> {
    iset a: Address | a.z == z && 0 <= a.y - y0 < n && 0 <= a.x - x0 < n &&
                      (a.y - y0 < row || (a.y - y0 == row && a.x - x0 < col))
  }

  /** One tile of `tiles_of`. */
  lemma TileJoins(v: Field<Pixel>, reduce: Reduce, zmax: nat, z: nat, x0: int, y0: int, n: nat, row: nat, col: nat,
                  tiles: seq<Tile>, t: Tile)
    requires KeepsKnown(reduce) && z <= zmax && row < n && col < n
    requires Exactly(v, reduce, zmax, tiles, SquareTo(z, x0, y0, n, row, col))
    requires t.at == Address(z, x0 + col, y0 + row)
    requires Shows(v, reduce, zmax - z, t.data, TILE, t.at.y * TILE, t.at.x * TILE)
    ensures var more := if AnyKnown(t.data) then tiles + [t] else tiles;
            Exactly(v, reduce, zmax, more, SquareTo(z, x0, y0, n, row, col + 1))
  {
    ShownIsHeld(v, reduce, zmax, t);
    var one: seq<Tile> := if AnyKnown(t.data) then [t] else [];
    assert Exactly(v, reduce, zmax, one, iset{t.at}) by {
      if AnyKnown(t.data) { assert one[0].at == t.at; }
    }
    ExactlyJoins(v, reduce, zmax, tiles, SquareTo(z, x0, y0, n, row, col), one, iset{t.at});
    assert SquareTo(z, x0, y0, n, row, col) + iset{t.at} == SquareTo(z, x0, y0, n, row, col + 1);
    assert tiles + [] == tiles;
  }

  /** `tiles_of`: the tiles of a square grid that have a value. */
  method TilesOf(grid: Raster, n: nat, z: nat, x0: int, y0: int, ghost v: Field<Pixel>, ghost reduce: Reduce,
                 ghost zmax: nat)
    returns (tiles: seq<Tile>)
    requires KeepsKnown(reduce) && z <= zmax
    requires Shows(v, reduce, zmax - z, grid, n * TILE, y0 * TILE, x0 * TILE)
    ensures Exactly(v, reduce, zmax, tiles, SquareTo(z, x0, y0, n, n, 0))
  {
    tiles := [];
    for row := 0 to n
      invariant Exactly(v, reduce, zmax, tiles, SquareTo(z, x0, y0, n, row, 0))
    {
      for col := 0 to n
        invariant Exactly(v, reduce, zmax, tiles, SquareTo(z, x0, y0, n, row, col))
      {
        var t := Tile(Address(z, x0 + col, y0 + row), Slice(grid, row, col));
        SliceShows(AtZoom(v, reduce, zmax - z), grid, n, x0, y0, row, col);
        TileJoins(v, reduce, zmax, z, x0, y0, n, row, col, tiles, t);
        if AnyKnown(t.data) { tiles := tiles + [t]; }
      }
      assert SquareTo(z, x0, y0, n, row, n) == SquareTo(z, x0, y0, n, row + 1, 0);
    }
  }

  // ------------------------------------------------------------------ one block

  lemma TimesTwo(b: int, p: int)
    ensures b * (2 * p) == (2 * b) * p && (2 * b + 1) * p == (2 * b) * p + p
  {
  }

  /** The coordinates under `b`, `k` zooms deeper, are a run of 2^k from `lo`. */
  lemma {:induction false} UpIsRange(a: int, k: nat, b: int, lo: int)
    requires lo == b * Pow2(k)
    ensures Up(a, k) == b <==> lo <= a < lo + Pow2(k)
  {
    if k > 0 {
      var p := Pow2(k - 1);
      TimesTwo(b, p);
      UpIsRange(a, k - 1, 2 * b, lo);
      UpIsRange(a, k - 1, 2 * b + 1, lo + p);
    }
  }

  /** Every address of zoom `z` under the block (`bcol`, `brow`) of zoom `zbase`. */
  ghost function BlockAt(bcol: int, brow: int, zbase: nat, z: nat): iset<Address>
    requires zbase <= z
  {
    iset a: Address | a.z == z && Up(a.x, z - zbase) == bcol && Up(a.y, z - zbase) == brow
  }

  ghost function BlockFrom(bcol: int, brow: int, zbase: nat, zlow: nat, zmax: nat): iset<Address>
    requires zbase <= zlow
  {
    iset a: Address | zlow <= a.z <= zmax && Up(a.x, a.z - zbase) == bcol && Up(a.y, a.z - zbase) == brow
  }

  lemma BlockIsSquare(bcol: int, brow: int, zbase: nat, z: nat, n: nat)
    requires zbase <= z && n == Pow2(z - zbase)
    ensures BlockAt(bcol, brow, zbase, z) == SquareTo(z, bcol * n, brow * n, n, n, 0)
  {
    forall a: Address | a.z == z
      ensures a in BlockAt(bcol, brow, zbase, z) <==> a in SquareTo(z, bcol * n, brow * n, n, n, 0)
    {
      UpIsRange(a.x, z - zbase, bcol, bcol * n);
      UpIsRange(a.y, z - zbase, brow, brow * n);
    }
  }

  /** The first pixel row (or column) at zoom `z` of block `b` of zoom `zbase`. */
  function Origin(b: int, zbase: nat, z: nat): int
    requires zbase <= z
  {
    b * Pow2(z - zbase) * TILE
  }

  lemma OriginDoubles(b: int, zbase: nat, z: nat)
    requires zbase <= z
    ensures Origin(b, zbase, z + 1) == 2 * Origin(b, zbase, z)
  {
    TimesTwo(b, Pow2(z - zbase));
  }

  /** The block's grid at zoom `z`: whole, and in its place. */
  ghost predicate BlockShows(v: Field<Pixel>, reduce: Reduce, zmax: nat, grid: Raster, bcol: int, brow: int,
                             zbase: nat, z: nat)
    requires zbase <= z <= zmax
  {
    Shows(v, reduce, zmax - z, grid, Pow2(z - zbase) * TILE, Origin(brow, zbase, z), Origin(bcol, zbase, z))
  }

  lemma BlockHalves(v: Field<Pixel>, reduce: Reduce, zmax: nat, grid: Raster, bcol: int, brow: int, zbase: nat, z: nat)
    requires zbase <= z < zmax && BlockShows(v, reduce, zmax, grid, bcol, brow, zbase, z + 1)
    ensures IsGrid(grid, 2 * (Pow2(z - zbase) * TILE), 2 * (Pow2(z - zbase) * TILE))
    ensures BlockShows(v, reduce, zmax, Halve(grid, Pow2(z - zbase) * TILE, reduce), bcol, brow, zbase, z)
  {
    var n := Pow2(z - zbase) * TILE;
    OriginDoubles(brow, zbase, z);
    OriginDoubles(bcol, zbase, z);
    var y0, x0 := Origin(brow, zbase, z), Origin(bcol, zbase, z);
    assert Shows(v, reduce, zmax - z - 1, grid, 2 * n, 2 * y0, 2 * x0);
    HalveShows(AtZoom(v, reduce, zmax - z - 1), reduce, grid, n, y0, x0);
  }

  /** One zoom of a block. */
  method BlockTiles(grid: Raster, bcol: int, brow: int, zbase: nat, z: nat, zmax: nat, reduce: Reduce,
                    ghost v: Field<Pixel>)
    returns (tiles: seq<Tile>)
    requires KeepsKnown(reduce) && zbase <= z <= zmax
    requires BlockShows(v, reduce, zmax, grid, bcol, brow, zbase, z)
    ensures Exactly(v, reduce, zmax, tiles, BlockAt(bcol, brow, zbase, z))
  {
    var scale := Pow2(z - zbase);
    tiles := TilesOf(grid, scale, z, bcol * scale, brow * scale, v, reduce, zmax);
    BlockIsSquare(bcol, brow, zbase, z, scale);
  }

  /** `grid = layer.reduce(grid)`. */
  method NextZoom(grid: Raster, bcol: int, brow: int, zbase: nat, z: nat, zmax: nat, reduce: Reduce,
                  ghost v: Field<Pixel>)
    returns (half: Raster)
    requires zbase <= z < zmax && BlockShows(v, reduce, zmax, grid, bcol, brow, zbase, z + 1)
    ensures BlockShows(v, reduce, zmax, half, bcol, brow, zbase, z)
  {
    BlockHalves(v, reduce, zmax, grid, bcol, brow, zbase, z);
    half := Halve(grid, Pow2(z - zbase) * TILE, reduce);
  }

  lemma ZoomJoins(v: Field<Pixel>, reduce: Reduce, zmax: nat, bcol: int, brow: int, zbase: nat, z: nat,
                  deeper: seq<Tile>, tiles: seq<Tile>)
    requires zbase <= z <= zmax
    requires Exactly(v, reduce, zmax, deeper, BlockFrom(bcol, brow, zbase, z + 1, zmax))
    requires Exactly(v, reduce, zmax, tiles, BlockAt(bcol, brow, zbase, z))
    ensures Exactly(v, reduce, zmax, deeper + tiles, BlockFrom(bcol, brow, zbase, z, zmax))
  {
    ExactlyJoins(v, reduce, zmax, deeper, BlockFrom(bcol, brow, zbase, z + 1, zmax), tiles,
                 BlockAt(bcol, brow, zbase, z));
    assert BlockFrom(bcol, brow, zbase, z, zmax) ==
           BlockFrom(bcol, brow, zbase, z + 1, zmax) + BlockAt(bcol, brow, zbase, z);
  }

  /** `save_block` (from zoom 15 to the block's own, `zlow == zbase`) and `sharpen.pyramid` (from
      `zmax` to 15, a zoom below its block): a block's tiles at every zoom, each reduced in the
      block alone. Returns the grid of the coarsest too. */
  method BlockPyramid(grid0: Raster, bcol: int, brow: int, zbase: nat, zlow: nat, zmax: nat, reduce: Reduce,
                      ghost v: Field<Pixel>)
    returns (tiles: seq<Tile>, grid: Raster)
    requires KeepsKnown(reduce) && zbase <= zlow <= zmax
    requires BlockShows(v, reduce, zmax, grid0, bcol, brow, zbase, zmax)
    ensures Exactly(v, reduce, zmax, tiles, BlockFrom(bcol, brow, zbase, zlow, zmax))
    ensures BlockShows(v, reduce, zmax, grid, bcol, brow, zbase, zlow)
  {
    tiles, grid := [], grid0;
    for z := zmax + 1 downto zlow
      invariant Exactly(v, reduce, zmax, tiles, BlockFrom(bcol, brow, zbase, z, zmax))
      invariant BlockShows(v, reduce, zmax, grid, bcol, brow, zbase, if z > zlow then z - 1 else zlow)
    {
      var rows := BlockTiles(grid, bcol, brow, zbase, z, zmax, reduce, v);
      ZoomJoins(v, reduce, zmax, bcol, brow, zbase, z, tiles, rows);
      tiles := tiles + rows;
      if z > zlow {
        grid := NextZoom(grid, bcol, brow, zbase, z - 1, zmax, reduce, v);
      }
    }
  }
}
