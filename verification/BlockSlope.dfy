/**
 Slope block by block (topo/build_nsw_dem.py: `block_slope`, `horn_slope`,
 `build_slope`).

 A block reads its own height tiles and a ring of one around them, and skips a
 strip with no tile in or beside it. The theorem is that none of this shows:
 every pixel is Horn's slope over the one global height field.
 */
module BlockSlope {
  import opened Common
  import opened TilePyramid

  /** `get(x, y)`: a zoom-15 height tile, or None where the archive has none. */
  type TileSource = (int, int) -> Option<Raster>

  ghost predicate SourceOk(get: TileSource) {
    forall x, y :: get(x, y).Some? ==> IsGrid(get(x, y).value, TILE, TILE)
  }

  /** The global height field: pixel row and column over every tile there is. */
  function HeightAt(get: TileSource, y: int, x: int): Pixel
    requires SourceOk(get)
  {
    var tile := get(x / TILE, y / TILE);
    if tile.None? then None else tile.value[y % TILE][x % TILE]
  }

  // -------------------------------------------------------------- Horn's method

  datatype Window = Window(nw: Pixel, n: Pixel, ne: Pixel, w: Pixel, c: Pixel, e: Pixel, sw: Pixel, s: Pixel, se: Pixel)

  predicate AllKnown(win: Window) {
    win.nw.Some? && win.n.Some? && win.ne.Some? && win.w.Some? && win.c.Some? &&
    win.e.Some? && win.sw.Some? && win.s.Some? && win.se.Some?
  }

  /** A slope over nine heights, given the pixel's size. */
  type SlopeMethod = (Window, real) -> Pixel

  /** `horn_slope` at one pixel: no-data if any of the nine is. `steepness` is the angle of a
      gradient, `np.degrees(np.arctan(np.hypot(east, south)))`. */
  function Horn(steepness: (real, real) -> real): SlopeMethod {
    (win: Window, cell: real) =>
      if !AllKnown(win) || cell <= 0.0 then None
      else
        var east := (win.ne.value + 2.0 * win.e.value + win.se.value) -
          (win.nw.value + 2.0 * win.w.value + win.sw.value);
        var south := (win.sw.value + 2.0 * win.s.value + win.se.value) -
          (win.nw.value + 2.0 * win.n.value + win.ne.value);
        Some(steepness(east / (8.0 * cell), south / (8.0 * cell)))
  }

  /** No slope without all nine heights: all that the blocks rely on. */
  ghost predicate NeedsAllNine(slopeOf: SlopeMethod) {
    forall win, cell: real :: !AllKnown(win) ==> slopeOf(win, cell).None?
  }

  lemma HornNeedsAllNine(steepness: (real, real) -> real)
    ensures NeedsAllNine(Horn(steepness))
  {
  }

  /** With all nine known, and only then, the slope is that of a gradient: over eight pixels east, the
      rises across the three rows, the middle one counted twice; and so over eight south. */
  lemma HornGradient(steepness: (real, real) -> real, win: Window, cell: real)
    requires cell > 0.0
    ensures Horn(steepness)(win, cell).Some? <==>
            win.nw.Some? && win.n.Some? && win.ne.Some? && win.w.Some? && win.c.Some? && win.e.Some? &&
            win.sw.Some? && win.s.Some? && win.se.Some?
    ensures Horn(steepness)(win, cell).Some? ==>
              exists east, south ::
                Horn(steepness)(win, cell) == Some(steepness(east, south)) &&
                east * (8.0 * cell) == (win.ne.value - win.nw.value) + 2.0 * (win.e.value - win.w.value) +
                  (win.se.value - win.sw.value) &&
                south * (8.0 * cell) == (win.sw.value - win.nw.value) + 2.0 * (win.s.value - win.n.value) +
                  (win.se.value - win.ne.value)
  {
    if AllKnown(win) {
      var east := (win.ne.value + 2.0 * win.e.value + win.se.value) -
        (win.nw.value + 2.0 * win.w.value + win.sw.value);
      var south := (win.sw.value + 2.0 * win.s.value + win.se.value) -
        (win.nw.value + 2.0 * win.n.value + win.ne.value);
      DividedTimes(east, 8.0 * cell);
      DividedTimes(south, 8.0 * cell);
      assert Horn(steepness)(win, cell) == Some(steepness(east / (8.0 * cell), south / (8.0 * cell)));
    }
  }

  function Plane(a: real, b: real, c: real): Field<Pixel> {
    (y: int, x: int) => Some(a + Rise(b, x) + Rise(c, y))
  }

  function Rise(b: real, x: int): real {
    b * x as real
  }

  lemma RiseAdds(b: real, x: int, j: int)
    ensures Rise(b, x + j) == Rise(b, x) + Rise(b, j)
  {
  }

  lemma PlaneRises(a: real, b: real, c: real, y: int, x: int, i: int, j: int, mid: real)
    requires mid == a + Rise(b, x) + Rise(c, y)
    ensures Plane(a, b, c)(y + i, x + j) == Some(mid + Rise(b, j) + Rise(c, i))
  {
    RiseAdds(b, x, j);
    RiseAdds(c, y, i);
  }

  /** On a plane rising `b` a pixel eastward and `c` southward it is exactly the plane's. */
  lemma HornOfPlane(steepness: (real, real) -> real, a: real, b: real, c: real, y: int, x: int, cell: real)
    requires cell > 0.0
    ensures Horn(steepness)(Around(Plane(a, b, c), y, x), cell) == Some(steepness(b / cell, c / cell))
  {
    EightOverEight(b, cell);
    EightOverEight(c, cell);
    var mid := a + Rise(b, x) + Rise(c, y);
    PlaneRises(a, b, c, y, x, -1, -1, mid);
    PlaneRises(a, b, c, y, x, -1, 0, mid);
    PlaneRises(a, b, c, y, x, -1, 1, mid);
    PlaneRises(a, b, c, y, x, 0, -1, mid);
    PlaneRises(a, b, c, y, x, 0, 0, mid);
    PlaneRises(a, b, c, y, x, 0, 1, mid);
    PlaneRises(a, b, c, y, x, 1, -1, mid);
    PlaneRises(a, b, c, y, x, 1, 0, mid);
    PlaneRises(a, b, c, y, x, 1, 1, mid);
    var win := Window(Some(mid - b - c), Some(mid - c), Some(mid + b - c), Some(mid - b), Some(mid), Some(mid + b),
                      Some(mid - b + c), Some(mid + c), Some(mid + b + c));
    assert Around(Plane(a, b, c), y, x) == win;
    HornOfRises(steepness, win, mid, b, c, cell);
  }

  lemma HornOfRises(steepness: (real, real) -> real, win: Window, mid: real, b: real, c: real, cell: real)
    requires cell > 0.0
    requires win == Window(Some(mid - b - c), Some(mid - c), Some(mid + b - c), Some(mid - b), Some(mid), Some(mid + b),
                           Some(mid - b + c), Some(mid + c), Some(mid + b + c))
    ensures Horn(steepness)(win, cell) == Some(steepness((8.0 * b) / (8.0 * cell), (8.0 * c) / (8.0 * cell)))
  {
    assert (win.ne.value + 2.0 * win.e.value + win.se.value) - (win.nw.value + 2.0 * win.w.value + win.sw.value) ==
           8.0 * b;
    assert (win.sw.value + 2.0 * win.s.value + win.se.value) - (win.nw.value + 2.0 * win.n.value + win.ne.value) ==
           8.0 * c;
  }

  lemma EightOverEight(rise: real, cell: real)
    requires cell > 0.0
    ensures (8.0 * rise) / (8.0 * cell) == rise / cell
  {
    assert rise / cell * (8.0 * cell) == 8.0 * rise;
  }

  /** The pixels about (`y`, `x`) of a field. */
  function Around(f: Field<Pixel>, y: int, x: int): Window {
    Window(f(y - 1, x - 1), f(y - 1, x), f(y - 1, x + 1), f(y, x - 1), f(y, x), f(y, x + 1),
           f(y + 1, x - 1), f(y + 1, x), f(y + 1, x + 1))
  }

  function Heights(get: TileSource): Field<Pixel>
    requires SourceOk(get)
  {
    (y: int, x: int) requires SourceOk(get) => HeightAt(get, y, x)
  }

  /** The whole raster's slope, every pixel from the one height field. `cellM` is the pixel size on
      each global row. */
  function WholeSlope(get: TileSource, cellM: int -> real, slopeOf: SlopeMethod): Field<Pixel>
    requires SourceOk(get)
  {
    var heights := Heights(get);
    (y: int, x: int) => slopeOf(Around(heights, y, x), cellM(y))
  }

  // ------------------------------------------------------------------ one block

  /** `padded` is the global heights from tile (`tx`, `ty`), in the tiles read so far: those before
      (`row`, `col`). The rest is still no-data. */
  ghost predicate ReadTo(padded: array2<Pixel>, get: TileSource, tx: int, ty: int, n: nat, row: int, col: int)
    requires SourceOk(get)
    reads padded
  {
    padded.Length0 == n * TILE && padded.Length1 == n * TILE &&
    forall r, c :: 0 <= r < n * TILE && 0 <= c < n * TILE ==>
      padded[r, c] == if r / TILE < row || (r / TILE == row && c / TILE < col)
                      then HeightAt(get, ty * TILE + r, tx * TILE + c) else None
  }

  ghost predicate PresentTo(present: array2<bool>, get: TileSource, tx: int, ty: int, n: nat, row: int, col: int)
    reads present
  {
    present.Length0 == n && present.Length1 == n &&
    forall i, j :: 0 <= i < n && 0 <= j < n ==>
      (present[i, j] <==> (i < row || (i == row && j < col)) && get(tx + j, ty + i).Some?)
  }

  /** `padded[row * TILE : (row + 1) * TILE, col * TILE : (col + 1) * TILE] = height`. */
  method PlaceTile(padded: array2<Pixel>, height: Raster, row: nat, col: nat, n: nat)
    requires padded.Length0 == n * TILE && padded.Length1 == n * TILE && row < n && col < n
    requires IsGrid(height, TILE, TILE)
    modifies padded
    ensures forall r, c :: 0 <= r < n * TILE && 0 <= c < n * TILE ==>
              padded[r, c] == if r / TILE == row && c / TILE == col then height[r % TILE][c % TILE]
                else old(padded[r, c])
  {
    forall i, j | 0 <= i < TILE && 0 <= j < TILE {
      padded[row * TILE + i, col * TILE + j] := height[i][j];
    }
    forall r, c | 0 <= r < n * TILE && 0 <= c < n * TILE && r / TILE == row && c / TILE == col
      ensures padded[r, c] == height[r % TILE][c % TILE]
    {
      assert r == row * TILE + r % TILE && c == col * TILE + c % TILE;
    }
  }

  /** A tile placed: one more tile of `padded` is read. */
  method PlaceRead(get: TileSource, padded: array2<Pixel>, height: Raster, tx: int, ty: int, n: nat, row: nat, col: nat)
    requires SourceOk(get) && row < n && col < n && get(tx + col, ty + row) == Some(height)
    requires ReadTo(padded, get, tx, ty, n, row, col)
    modifies padded
    ensures ReadTo(padded, get, tx, ty, n, row, col + 1)
  {
    PlaceTile(padded, height, row, col, n);
    forall r, c | 0 <= r < n * TILE && 0 <= c < n * TILE && r / TILE == row && c / TILE == col
      ensures padded[r, c] == HeightAt(get, ty * TILE + r, tx * TILE + c)
    {
      TileOfPixel(ty, r);
      TileOfPixel(tx, c);
    }
  }

  lemma TileOfPixel(tile: int, r: int)
    ensures (tile * TILE + r) / TILE == tile + r / TILE && (tile * TILE + r) % TILE == r % TILE
  {
  }

  /** No tile there: its pixels stay no-data, as they should. */
  lemma AbsentIsRead(get: TileSource, padded: array2<Pixel>, tx: int, ty: int, n: nat, row: nat, col: nat)
    requires SourceOk(get) && get(tx + col, ty + row).None?
    requires ReadTo(padded, get, tx, ty, n, row, col)
    ensures ReadTo(padded, get, tx, ty, n, row, col + 1)
  {
    forall r, c | 0 <= r < n * TILE && 0 <= c < n * TILE && r / TILE == row && c / TILE == col
      ensures HeightAt(get, ty * TILE + r, tx * TILE + c) == None
    {
      TileOfPixel(ty, r);
      TileOfPixel(tx, c);
    }
  }

  /** One tile of the block or its ring. */
  method ReadTile(get: TileSource, padded: array2<Pixel>, present: array2<bool>, tx: int, ty: int, n: nat, row: nat,
                  col: nat)
    requires SourceOk(get) && row < n && col < n
    requires ReadTo(padded, get, tx, ty, n, row, col) && PresentTo(present, get, tx, ty, n, row, col)
    modifies padded, present
    ensures ReadTo(padded, get, tx, ty, n, row, col + 1) && PresentTo(present, get, tx, ty, n, row, col + 1)
  {
    var height := get(tx + col, ty + row);
    if height.Some? {
      present[row, col] := true;
      PlaceRead(get, padded, height.value, tx, ty, n, row, col);
    } else {
      AbsentIsRead(get, padded, tx, ty, n, row, col);
    }
  }

  ghost predicate PaddedAt(padded: array2<Pixel>, get: TileSource, tx: int, ty: int, r: int, c: int)
    requires SourceOk(get) && 0 <= r < padded.Length0 && 0 <= c < padded.Length1
    reads padded
  {
    padded[r, c] == HeightAt(get, ty * TILE + r, tx * TILE + c)
  }

  /** All of it read: the global heights of `n` x `n` tiles from (`tx`, `ty`). */
  ghost predicate Padded(padded: array2<Pixel>, get: TileSource, tx: int, ty: int, n: nat)
    requires SourceOk(get)
    reads padded
  {
    padded.Length0 == n * TILE && padded.Length1 == n * TILE &&
    forall r, c :: 0 <= r < n * TILE && 0 <= c < n * TILE ==> PaddedAt(padded, get, tx, ty, r, c)
  }

  method ReadTiles(get: TileSource, tx: int, ty: int, n: nat) returns (padded: array2<Pixel>, present: array2<bool>)
    requires SourceOk(get)
    ensures fresh(padded) && Padded(padded, get, tx, ty, n)
    ensures fresh(present) && PresentTo(present, get, tx, ty, n, n, 0)
  {
    padded := new Pixel[n * TILE, n * TILE]((r, c) => None);
    present := new bool[n, n]((i, j) => false);
    for row := 0 to n
      invariant ReadTo(padded, get, tx, ty, n, row, 0) && PresentTo(present, get, tx, ty, n, row, 0)
    {
      for col := 0 to n
        invariant ReadTo(padded, get, tx, ty, n, row, col) && PresentTo(present, get, tx, ty, n, row, col)
      {
        ReadTile(get, padded, present, tx, ty, n, row, col);
      }
    }
  }

  /** The nine pixels about (`r`, `c`) of the padded grid. */
  function WindowOf(padded: array2<Pixel>, r: int, c: int): Window
    requires 0 < r < padded.Length0 - 1 && 0 < c < padded.Length1 - 1
    reads padded
  {
    Window(padded[r - 1, c - 1], padded[r - 1, c], padded[r - 1, c + 1], padded[r, c - 1], padded[r, c],
           padded[r, c + 1], padded[r + 1, c - 1], padded[r + 1, c], padded[r + 1, c + 1])
  }

  /** `padded` shows `f` from (`y0`, `x0`). */
  ghost predicate ShowsPixel(padded: array2<Pixel>, f: Field<Pixel>, y0: int, x0: int, r: int, c: int)
    requires 0 <= r < padded.Length0 && 0 <= c < padded.Length1
    reads padded
  {
    padded[r, c] == f(y0 + r, x0 + c)
  }

  ghost predicate ShowsPixels(padded: array2<Pixel>, f: Field<Pixel>, y0: int, x0: int)
    reads padded
  {
    forall r, c :: 0 <= r < padded.Length0 && 0 <= c < padded.Length1 ==> ShowsPixel(padded, f, y0, x0, r, c)
  }

  lemma WindowShows(padded: array2<Pixel>, f: Field<Pixel>, y0: int, x0: int, r: int, c: int)
    requires ShowsPixels(padded, f, y0, x0) && 0 < r < padded.Length0 - 1 && 0 < c < padded.Length1 - 1
    ensures WindowOf(padded, r, c) == Around(f, y0 + r, x0 + c)
  {
    assert ShowsPixel(padded, f, y0, x0, r - 1, c - 1) && ShowsPixel(padded, f, y0, x0, r - 1, c);
    assert ShowsPixel(padded, f, y0, x0, r - 1, c + 1) && ShowsPixel(padded, f, y0, x0, r, c - 1);
    assert ShowsPixel(padded, f, y0, x0, r, c) && ShowsPixel(padded, f, y0, x0, r, c + 1);
    assert ShowsPixel(padded, f, y0, x0, r + 1, c - 1) && ShowsPixel(padded, f, y0, x0, r + 1, c);
    assert ShowsPixel(padded, f, y0, x0, r + 1, c + 1);
  }

  lemma PaddedShowsHeights(padded: array2<Pixel>, get: TileSource, tx: int, ty: int, n: nat)
    requires SourceOk(get) && Padded(padded, get, tx, ty, n)
    ensures ShowsPixels(padded, Heights(get), ty * TILE, tx * TILE)
  {
    forall r, c | 0 <= r < padded.Length0 && 0 <= c < padded.Length1
      ensures ShowsPixel(padded, Heights(get), ty * TILE, tx * TILE, r, c)
    {
      assert PaddedAt(padded, get, tx, ty, r, c);
    }
  }

  /** The ring gives every pixel of the block its neighbours, whichever tile they are in. */
  lemma WindowIsAround(padded: array2<Pixel>, get: TileSource, tx: int, ty: int, n: nat, r: nat, c: nat)
    requires SourceOk(get) && Padded(padded, get, tx, ty, n)
    requires TILE <= r < (n - 1) * TILE && TILE <= c < (n - 1) * TILE
    ensures WindowOf(padded, r, c) == Around(Heights(get), ty * TILE + r, tx * TILE + c)
  {
    PaddedShowsHeights(padded, get, tx, ty, n);
    WindowShows(padded, Heights(get), ty * TILE, tx * TILE, r, c);
  }

  lemma PixelIsWhole(padded: array2<Pixel>, get: TileSource, cellM: int -> real, slopeOf: SlopeMethod,
                     tx: int, ty: int, n: nat, r: nat, c: nat, y: int, x: int)
    requires SourceOk(get) && Padded(padded, get, tx, ty, n)
    requires TILE <= r < (n - 1) * TILE && TILE <= c < (n - 1) * TILE && y == ty * TILE + r && x == tx * TILE + c
    ensures slopeOf(WindowOf(padded, r, c), cellM(y)) == WholeSlope(get, cellM, slopeOf)(y, x)
  {
    WindowIsAround(padded, get, tx, ty, n, r, c);
  }

  lemma NoHeightNoSlope(get: TileSource, cellM: int -> real, slopeOf: SlopeMethod, y: int, x: int)
    requires SourceOk(get) && NeedsAllNine(slopeOf) && get(x / TILE, y / TILE).None?
    ensures WholeSlope(get, cellM, slopeOf)(y, x) == None
  {
    var win := Around(Heights(get), y, x);
    assert win.c == HeightAt(get, y, x) == None;
    var cell := cellM(y);
    assert !AllKnown(win);
    assert slopeOf(win, cell) == None;
    assert WholeSlope(get, cellM, slopeOf)(y, x) == slopeOf(win, cellM(y));
  }

  /** The part of a raster that starts at (`y0`, `x0`). */
  ghost function From(whole: Field<Pixel>, y0: int, x0: int): Field<Pixel> {
    (r: int, c: int) => whole(y0 + r, x0 + c)
  }

  /** The slope's first `rows` pixel rows are those of `part`. */
  ghost predicate SlopeTo(slope: array2<Pixel>, part: Field<Pixel>, rows: nat)
    requires rows <= slope.Length0
    reads slope
  {
    forall r, c :: 0 <= r < rows && 0 <= c < slope.Length1 ==> slope[r, c] == part(r, c)
  }

  /** `present[row : row + 3].any()`. */
  predicate AnyPresent(present: array2<bool>, row: nat)
    requires row + 3 <= present.Length0
    reads present
  {
    exists i, j :: row <= i < row + 3 && 0 <= j < present.Length1 && present[i, j]
  }

  /** With no tile in the strip's own row, its pixels have no height, so no slope. */
  lemma AbsentStripHasNoSlope(get: TileSource, cellM: int -> real, slopeOf: SlopeMethod,
                              present: array2<bool>, tx: int, ty: int, n: nat, row: nat, y: int, x: int)
    requires SourceOk(get) && NeedsAllNine(slopeOf) && PresentTo(present, get, tx, ty, n, n, 0)
    requires row + 3 <= n && !AnyPresent(present, row)
    requires y / TILE == ty + row + 1 && tx <= x / TILE < tx + n
    ensures WholeSlope(get, cellM, slopeOf)(y, x) == None
  {
    assert !present[row + 1, x / TILE - tx];
    NoHeightNoSlope(get, cellM, slopeOf, y, x);
  }

  /** A strip with no height tile in it or beside it: `slope[...] = np.nan`. */
  method SkipStrip(slope: array2<Pixel>, ghost part: Field<Pixel>, tiles: nat, row: nat)
    requires slope.Length0 == tiles * TILE && slope.Length1 == tiles * TILE && row < tiles
    requires SlopeTo(slope, part, row * TILE)
    requires forall r, c :: row * TILE <= r < (row + 1) * TILE && 0 <= c < tiles * TILE ==> part(r, c) == None
    modifies slope
    ensures SlopeTo(slope, part, (row + 1) * TILE)
  {
    forall r, c | row * TILE <= r < (row + 1) * TILE && 0 <= c < tiles * TILE {
      slope[r, c] := None;
    }
  }

  /** A strip with heights: `slope[...] = horn_slope(padded[...], pixel_size_m(...))`. */
  method SlopeStrip(cellM: int -> real, slopeOf: SlopeMethod, padded: array2<Pixel>, slope: array2<Pixel>,
                    ghost part: Field<Pixel>, y0: int, tiles: nat, row: nat)
    requires padded.Length0 == padded.Length1 == (tiles + 2) * TILE && slope != padded
    requires slope.Length0 == tiles * TILE && slope.Length1 == tiles * TILE && row < tiles
    requires SlopeTo(slope, part, row * TILE)
    requires forall r, c :: 0 <= r < tiles * TILE && 0 <= c < tiles * TILE ==>
               slopeOf(WindowOf(padded, TILE + r, TILE + c), cellM(y0 + r)) == part(r, c)
    modifies slope
    ensures SlopeTo(slope, part, (row + 1) * TILE)
  {
    forall r, c | row * TILE <= r < (row + 1) * TILE && 0 <= c < tiles * TILE {
      slope[r, c] := slopeOf(WindowOf(padded, TILE + r, TILE + c), cellM(y0 + r));
    }
    assert forall r, c :: row * TILE <= r < (row + 1) * TILE && 0 <= c < tiles * TILE ==> slope[r, c] == part(r, c);
  }

  /** The whole raster's slope over the block: `tx` and `ty` are its origin in tiles, less one. */
  ghost function BlockPart(get: TileSource, cellM: int -> real, slopeOf: SlopeMethod, tx: int, ty: int): Field<Pixel>
    requires SourceOk(get)
  {
    From(WholeSlope(get, cellM, slopeOf), (ty + 1) * TILE, (tx + 1) * TILE)
  }

  lemma StripIsBlank(get: TileSource, cellM: int -> real, slopeOf: SlopeMethod, present: array2<bool>,
                     tx: int, ty: int, tiles: nat, row: nat)
    requires SourceOk(get) && NeedsAllNine(slopeOf) && PresentTo(present, get, tx, ty, tiles + 2, tiles + 2, 0)
    requires row < tiles && !AnyPresent(present, row)
    ensures var part := BlockPart(get, cellM, slopeOf, tx, ty);
            forall r, c :: row * TILE <= r < (row + 1) * TILE && 0 <= c < tiles * TILE ==> part(r, c) == None
  {
    var part := BlockPart(get, cellM, slopeOf, tx, ty);
    forall r, c | row * TILE <= r < (row + 1) * TILE && 0 <= c < tiles * TILE ensures part(r, c) == None {
      AbsentStripHasNoSlope(get, cellM, slopeOf, present, tx, ty, tiles + 2, row, (ty + 1) * TILE + r,
                            (tx + 1) * TILE + c);
    }
  }

  lemma PixelsAreWhole(get: TileSource, cellM: int -> real, slopeOf: SlopeMethod, padded: array2<Pixel>,
                       tx: int, ty: int, tiles: nat)
    requires SourceOk(get) && Padded(padded, get, tx, ty, tiles + 2)
    ensures var part := BlockPart(get, cellM, slopeOf, tx, ty);
            forall r, c :: 0 <= r < tiles * TILE && 0 <= c < tiles * TILE ==>
              slopeOf(WindowOf(padded, TILE + r, TILE + c), cellM((ty + 1) * TILE + r)) == part(r, c)
  {
    var part := BlockPart(get, cellM, slopeOf, tx, ty);
    forall r, c | 0 <= r < tiles * TILE && 0 <= c < tiles * TILE
      ensures slopeOf(WindowOf(padded, TILE + r, TILE + c), cellM((ty + 1) * TILE + r)) == part(r, c)
    {
      PixelIsWhole(padded, get, cellM, slopeOf, tx, ty, tiles + 2, TILE + r, TILE + c, (ty + 1) * TILE + r,
                   (tx + 1) * TILE + c);
    }
  }

  /** One row of the block's tiles. */
  method OneStrip(get: TileSource, cellM: int -> real, slopeOf: SlopeMethod, padded: array2<Pixel>,
                  present: array2<bool>, slope: array2<Pixel>, tx: int, ty: int, tiles: nat, row: nat)
    requires SourceOk(get) && NeedsAllNine(slopeOf) && slope != padded
    requires Padded(padded, get, tx, ty, tiles + 2)
    requires PresentTo(present, get, tx, ty, tiles + 2, tiles + 2, 0)
    requires slope.Length0 == tiles * TILE && slope.Length1 == tiles * TILE && row < tiles
    requires SlopeTo(slope, BlockPart(get, cellM, slopeOf, tx, ty), row * TILE)
    modifies slope
    ensures SlopeTo(slope, BlockPart(get, cellM, slopeOf, tx, ty), (row + 1) * TILE)
  {
    if !AnyPresent(present, row) {
      StripIsBlank(get, cellM, slopeOf, present, tx, ty, tiles, row);
      SkipStrip(slope, BlockPart(get, cellM, slopeOf, tx, ty), tiles, row);
    } else {
      PixelsAreWhole(get, cellM, slopeOf, padded, tx, ty, tiles);
      SlopeStrip(cellM, slopeOf, padded, slope, BlockPart(get, cellM, slopeOf, tx, ty), (ty + 1) * TILE, tiles, row);
    }
  }

  /** The block, from its origin in tiles less one: the padded grid, then strip by strip. */
  method SlopeFrom(get: TileSource, cellM: int -> real, slopeOf: SlopeMethod, tx: int, ty: int, tiles: nat)
    returns (slope: array2<Pixel>)
    requires SourceOk(get) && NeedsAllNine(slopeOf)
    ensures slope.Length0 == tiles * TILE && slope.Length1 == tiles * TILE
    ensures SlopeTo(slope, BlockPart(get, cellM, slopeOf, tx, ty), tiles * TILE)
  {
    var padded, present := ReadTiles(get, tx, ty, tiles + 2);
    slope := new Pixel[tiles * TILE, tiles * TILE]((r, c) => None);
    for row := 0 to tiles
      invariant Padded(padded, get, tx, ty, tiles + 2)
      invariant PresentTo(present, get, tx, ty, tiles + 2, tiles + 2, 0)
      invariant SlopeTo(slope, BlockPart(get, cellM, slopeOf, tx, ty), row * TILE)
    {
      OneStrip(get, cellM, slopeOf, padded, present, slope, tx, ty, tiles, row);
    }
  }

  /** `block_slope`: the slope of a block of `tiles` x `tiles` tiles, pixel for pixel the slope of the
      whole raster, so no block edge, tile edge or skipped strip can be told from it. */
  method BlockSlopeOf(get: TileSource, cellM: int -> real, steepness: (real, real) -> real, bx: int, brow: int,
                      tiles: nat)
    returns (slope: array2<Pixel>)
    requires SourceOk(get)
    ensures slope.Length0 == tiles * TILE && slope.Length1 == tiles * TILE
    ensures SlopeTo(slope, From(WholeSlope(get, cellM, Horn(steepness)), brow * tiles * TILE, bx * tiles * TILE),
                    tiles * TILE)
  {
    HornNeedsAllNine(steepness);
    slope := SlopeFrom(get, cellM, Horn(steepness), bx * tiles - 1, brow * tiles - 1, tiles);
  }

  /** `build_slope` leaves out the blocks with no height tile of their own: they have no slope,
      whatever their neighbours hold. */
  lemma BlockWithoutTilesHasNoSlope(get: TileSource, cellM: int -> real, steepness: (real, real) -> real,
                                    tx: int, ty: int, tiles: nat, y: int, x: int)
    requires SourceOk(get)
    requires forall i, j :: tx <= i < tx + tiles && ty <= j < ty + tiles ==> get(i, j).None?
    requires tx <= x / TILE < tx + tiles && ty <= y / TILE < ty + tiles
    ensures WholeSlope(get, cellM, Horn(steepness))(y, x) == None
  {
    HornNeedsAllNine(steepness);
    NoHeightNoSlope(get, cellM, Horn(steepness), y, x);
  }
}
