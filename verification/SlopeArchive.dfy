/**
 The slope archive, from a height archive to the packed table
 (topo/build_nsw_dem.py: `build_slope`, `slope_block`, `pack`).

 Only blocks whose own height tile is there are worked, each on its own. The
 theorem is that the archive is the whole raster's slope pyramid all the same.
 */
module SlopeArchive {
  import opened Common
  import opened TilePyramid
  import opened TileArchive
  import opened BlockSlope

  /** A block is 32 x 32 tiles: BLOCK_TILES. */
  const BLOCK_TILES := 32

  /** What `build_slope` reads: z15 tiles, decoded, and whether there is a z10 tile. */
  datatype HeightArchive = HeightArchive(tile: TileSource, has10: (int, int) -> bool)

  /** A z15 height tile under the block. */
  ghost predicate DeepTileUnder(get: TileSource, bx: int, brow: int) {
    exists x, y :: get(x, y).Some? && DeepUnder(Address(ZMAX, x, y), Address(BLOCK_ZOOM, bx, brow))
  }

  /** A z10 tile is there exactly where one of its z15 tiles is. */
  ghost predicate IsClosed(heights: HeightArchive) {
    SourceOk(heights.tile) &&
    forall bx, brow :: heights.has10(bx, brow) <==> DeepTileUnder(heights.tile, bx, brow)
  }

  /** The tiles `pack` wrote are what the reader finds. */
  ghost predicate Reads(heights: HeightArchive, tiles: seq<Tile>) {
    (forall x, y :: heights.tile(x, y).Some? <==> HasTile(tiles, Address(ZMAX, x, y))) &&
    forall bx, brow :: heights.has10(bx, brow) <==> HasTile(tiles, Address(BLOCK_ZOOM, bx, brow))
  }

  lemma HeldIsThere(v: Field<Pixel>, reduce: Reduce, tiles: seq<Tile>, a: Address)
    requires Exactly(v, reduce, ZMAX, tiles, Zooms(ZMIN, ZMAX + 1)) && ZMIN <= a.z <= ZMAX
    ensures HasTile(tiles, a) <==> Holds(v, ZMAX, a)
  {
    if HasTile(tiles, a) {
      var i :| 0 <= i < |tiles| && tiles[i].at == a;
      assert TileOk(v, reduce, ZMAX, tiles[i]);
    }
  }

  /** Every archive `pack` makes is closed so: what `build_slope` relies on. */
  lemma PackedIsClosed(v: Field<Pixel>, reduce: Reduce, tiles: seq<Tile>, heights: HeightArchive)
    requires Exactly(v, reduce, ZMAX, tiles, Zooms(ZMIN, ZMAX + 1)) && Reads(heights, tiles) && SourceOk(heights.tile)
    ensures IsClosed(heights)
  {
    forall bx, brow ensures heights.has10(bx, brow) <==> DeepTileUnder(heights.tile, bx, brow) {
      var a := Address(BLOCK_ZOOM, bx, brow);
      HeldIsThere(v, reduce, tiles, a);
      BlockTileMeansDeepTile(v, a);
      if d: Address :| DeepUnder(d, a) && Holds(v, ZMAX, d) {
        HeldIsThere(v, reduce, tiles, d);
        assert heights.tile(d.x, d.y).Some?;
      }
      if x, y :| heights.tile(x, y).Some? && DeepUnder(Address(ZMAX, x, y), a) {
        var d := Address(ZMAX, x, y);
        HeldIsThere(v, reduce, tiles, d);
        assert DeepUnder(d, a);
      }
    }
  }

  /** The whole raster's slope over an archive's heights. */
  function SlopeField(get: TileSource, cellM: int -> real, steepness: (real, real) -> real): Field<Pixel>
    requires SourceOk(get)
  {
    WholeSlope(get, cellM, Horn(steepness))
  }

  /** An array's rows. */
  method RowsOf(a: array2<Pixel>) returns (grid: Raster)
    ensures IsGrid(grid, a.Length0, a.Length1)
    ensures forall r, c :: 0 <= r < a.Length0 && 0 <= c < a.Length1 ==> grid[r][c] == a[r, c]
  {
    grid := seq(a.Length0, r requires 0 <= r < a.Length0 reads a =>
              seq(a.Length1, c requires 0 <= c < a.Length1 reads a => a[r, c]));
  }

  /** The block's slope, as `save_block` wants it: the whole raster's, in its place. */
  lemma SlopeShowsBlock(v: Field<Pixel>, grid: Raster, slope: array2<Pixel>, bx: int, brow: int)
    requires slope.Length0 == slope.Length1 == BLOCK_TILES * TILE &&
             IsGrid(grid, BLOCK_TILES * TILE, BLOCK_TILES * TILE)
    requires forall r, c :: 0 <= r < slope.Length0 && 0 <= c < slope.Length1 ==> grid[r][c] == slope[r, c]
    requires SlopeTo(slope, From(v, brow * BLOCK_TILES * TILE, bx * BLOCK_TILES * TILE), BLOCK_TILES * TILE)
    ensures BlockShows(v, Max4, ZMAX, grid, bx, brow, BLOCK_ZOOM, ZMAX)
  {
    assert Pow2(5) == BLOCK_TILES;
    var n, y0, x0 := BLOCK_TILES * TILE, brow * BLOCK_TILES * TILE, bx * BLOCK_TILES * TILE;
    forall r: nat, c: nat | r < n && c < n ensures ShowsAt(v, grid, y0, x0, r, c) {
      assert slope[r, c] == From(v, y0, x0)(r, c);
    }
    assert ShowsField(v, grid, n, y0, x0);
  }

  /** `slope_block`: one block's slope, saved. */
  method SlopeBlock(get: TileSource, cellM: int -> real, steepness: (real, real) -> real, bx: int, brow: int)
    returns (file: BlockFile)
    requires SourceOk(get)
    ensures FileOk(SlopeField(get, cellM, steepness), Max4, (bx, brow), file)
  {
    BothLayersKeepKnown();
    ghost var v := SlopeField(get, cellM, steepness);
    var slope := BlockSlopeOf(get, cellM, steepness, bx, brow, BLOCK_TILES);
    var grid0 := RowsOf(slope);
    SlopeShowsBlock(v, grid0, slope, bx, brow);
    var tiles, grid := BlockPyramid(grid0, bx, brow, BLOCK_ZOOM, BLOCK_ZOOM, ZMAX, Max4, v);
    file := BlockFile(tiles, grid);
  }

  /** Where there is slope there is a height tile, so its block was worked. */
  lemma SlopeIsInABlock(heights: HeightArchive, cellM: int -> real, steepness: (real, real) -> real, a: Address)
    requires IsClosed(heights) && a.z == BLOCK_ZOOM
    requires Holds(SlopeField(heights.tile, cellM, steepness), ZMAX, a)
    ensures heights.has10(a.x, a.y)
  {
    var v := SlopeField(heights.tile, cellM, steepness);
    var y1, x1 :| v(y1, x1).Some? && Up(y1 / TILE, ZMAX - a.z) == a.y && Up(x1 / TILE, ZMAX - a.z) == a.x;
    HornNeedsAllNine(steepness);
    if heights.tile(x1 / TILE, y1 / TILE).None? {
      NoHeightNoSlope(heights.tile, cellM, Horn(steepness), y1, x1);
    }
    assert DeepTileUnder(heights.tile, a.x, a.y);
  }

  /** The blocks worked: from the header's bounds, those with a z10 tile, in any order. */
  method SlopeBlocks(heights: HeightArchive, cellM: int -> real, steepness: (real, real) -> real,
                     x0: int, y0: int, x1: int, y1: int)
    returns (work: Work)
    requires IsClosed(heights)
    requires forall bx, brow :: heights.has10(bx, brow) ==> x0 <= bx <= x1 && y0 <= brow <= y1
    ensures WorkOk(SlopeField(heights.tile, cellM, steepness), Max4, work)
  {
    ghost var v := SlopeField(heights.tile, cellM, steepness);
    work := map[];
    if x0 <= x1 && y0 <= y1 {
      for bx := x0 to x1 + 1
        invariant FilesOk(v, Max4, work)
        invariant forall b, c :: heights.has10(b, c) && b < bx ==> (b, c) in work
      {
        for brow := y0 to y1 + 1
          invariant FilesOk(v, Max4, work)
          invariant forall b, c :: heights.has10(b, c) && (b < bx || (b == bx && c < brow)) ==> (b, c) in work
        {
          if heights.has10(bx, brow) {
            var file := SlopeBlock(heights.tile, cellM, steepness, bx, brow);
            work := work[(bx, brow) := file];
          }
        }
      }
    }
    forall a: Address | a.z == BLOCK_ZOOM && Holds(v, ZMAX, a) ensures (a.x, a.y) in work {
      SlopeIsInABlock(heights, cellM, steepness, a);
    }
  }

  /** `build_slope`: the archive is exactly the slope pyramid of the whole raster, the steepest of all
      that lies under each pixel, whatever blocks the heights fell into. */
  method BuildSlope(heights: HeightArchive, cellM: int -> real, steepness: (real, real) -> real,
                    x0: int, y0: int, x1: int, y1: int)
    returns (result: PackResult)
    requires IsClosed(heights)
    requires forall bx, brow :: heights.has10(bx, brow) ==> x0 <= bx <= x1 && y0 <= brow <= y1
    ensures var v := SlopeField(heights.tile, cellM, steepness);
            PackedRight(v, Max4, result)
  {
    BothLayersKeepKnown();
    var work := SlopeBlocks(heights, cellM, steepness, x0, y0, x1, y1);
    result := Pack(work, Max4, SlopeField(heights.tile, cellM, steepness));
  }
}
