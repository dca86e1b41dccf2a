/**
 The statewide archives (topo/build_nsw_dem.py: `coarse_tiles`, `pack`): the
 blocks' own tiles, the two zooms above them reduced across blocks, and the one
 table they make.
 */
module TileArchive {
  import opened Common
  import opened TilePyramid

  const ZMAX := 15
  const ZMIN := 8
  const BLOCK_ZOOM := 10

  /** The tiles of one zoom, by column and row: `level`. */
  type Level = map<(int, int), Raster>

  /** `level` shows zoom `z`: every tile in it, and nothing known under any other. */
  ghost predicate LevelOk(v: Field<Pixel>, reduce: Reduce, z: nat, level: Level)
    requires z <= ZMAX
  {
    (forall p :: p in level ==> Shows(v, reduce, ZMAX - z, level[p], TILE, p.1 * TILE, p.0 * TILE)) &&
    forall a: Address :: a.z == z && (a.x, a.y) !in level ==> !Holds(v, ZMAX, a)
  }

  /** A tile with nothing known under it is blank. */
  lemma NotHeldIsBlank(v: Field<Pixel>, reduce: Reduce, a: Address, r: nat, c: nat)
    requires KeepsKnown(reduce) && a.z <= ZMAX && !Holds(v, ZMAX, a) && r < TILE && c < TILE
    ensures Reduced(v, reduce, ZMAX - a.z, a.y * TILE + r, a.x * TILE + c) == None
  {
    var k, y, x := ZMAX - a.z, a.y * TILE + r, a.x * TILE + c;
    ReducedIsKnown(v, reduce, k, y, x);
    if y1, x1 :| Under(k, y, x, y1, x1) && v(y1, x1).Some? {
      UpOfTile(y1, k);
      UpOfTile(x1, k);
      assert Holds(v, ZMAX, a);
    }
  }

  /** The four children of a parent, in one grid; a missing one is no-data. */
  function QuadOf(level: Level, px: int, py: int): (quad: Raster)
    requires forall p :: p in level ==> |level[p]| == TILE && forall r :: 0 <= r < TILE ==> |level[p][r]| == TILE
    ensures IsGrid(quad, 2 * TILE, 2 * TILE)
    ensures forall r, c :: 0 <= r < 2 * TILE && 0 <= c < 2 * TILE ==>
              quad[r][c] == var p := (2 * px + c / TILE, 2 * py + r / TILE);
                            if p in level then level[p][r % TILE][c % TILE] else None
  {
    seq(2 * TILE, r requires 0 <= r < 2 * TILE =>
      seq(2 * TILE, c requires 0 <= c < 2 * TILE =>
        var p := (2 * px + c / TILE, 2 * py + r / TILE);
        if p in level then level[p][r % TILE][c % TILE] else None))
  }

  lemma QuadPixel(v: Field<Pixel>, reduce: Reduce, z: nat, level: Level, px: int, py: int, r: nat, c: nat)
    requires KeepsKnown(reduce) && z <= ZMAX && LevelOk(v, reduce, z, level) && r < 2 * TILE && c < 2 * TILE
    ensures QuadOf(level, px, py)[r][c] == Reduced(v, reduce, ZMAX - z, 2 * (py * TILE) + r, 2 * (px * TILE) + c)
  {
    var p := (2 * px + c / TILE, 2 * py + r / TILE);
    if p in level {
      ShownPixel(AtZoom(v, reduce, ZMAX - z), level[p], TILE, p.1 * TILE, p.0 * TILE, r % TILE, c % TILE,
                 2 * (py * TILE) + r, 2 * (px * TILE) + c);
    } else {
      NotHeldIsBlank(v, reduce, Address(z, p.0, p.1), r % TILE, c % TILE);
      assert p.1 * TILE + r % TILE == 2 * (py * TILE) + r && p.0 * TILE + c % TILE == 2 * (px * TILE) + c;
    }
  }

  /** A parent reduced from its quad shows the zoom above. */
  lemma ParentShows(v: Field<Pixel>, reduce: Reduce, z: nat, level: Level, px: int, py: int)
    requires KeepsKnown(reduce) && 0 < z <= ZMAX && LevelOk(v, reduce, z, level)
    ensures Shows(v, reduce, ZMAX - z + 1, Halve(QuadOf(level, px, py), TILE, reduce), TILE, py * TILE, px * TILE)
  {
    var f, quad, y, x := AtZoom(v, reduce, ZMAX - z), QuadOf(level, px, py), 2 * (py * TILE), 2 * (px * TILE);
    forall r: nat, c: nat | r < 2 * TILE && c < 2 * TILE ensures ShowsAt(f, quad, y, x, r, c) {
      QuadPixel(v, reduce, z, level, px, py, r, c);
    }
    HalveShows(f, reduce, quad, TILE, py * TILE, px * TILE);
  }

  function ParentOf(a: Address): Address
    requires a.z > 0
  {
    Address(a.z - 1, a.x / 2, a.y / 2)
  }

  /** The archive is closed under parent, and no parent is there without a child. */
  lemma HeldWithAChild(v: Field<Pixel>, zmax: nat, a: Address)
    requires a.z < zmax
    ensures Holds(v, zmax, a) <==>
            exists b: Address :: b.z == a.z + 1 && ParentOf(b) == a && Holds(v, zmax, b)
  {
    var k := zmax - a.z - 1;
    if Holds(v, zmax, a) {
      var y1, x1 :| v(y1, x1).Some? && Up(y1 / TILE, k + 1) == a.y && Up(x1 / TILE, k + 1) == a.x;
      var b := Address(a.z + 1, Up(x1 / TILE, k), Up(y1 / TILE, k));
      assert ParentOf(b) == a && Holds(v, zmax, b);
    }
    if b: Address :| b.z == a.z + 1 && ParentOf(b) == a && Holds(v, zmax, b) {
      var y1, x1 :| v(y1, x1).Some? && Up(y1 / TILE, k) == b.y && Up(x1 / TILE, k) == b.x;
      assert Up(y1 / TILE, k + 1) == a.y && Up(x1 / TILE, k + 1) == a.x;
    }
  }

  /** `{(x // 2, y // 2) for x, y in level}`. */
  function ParentsOf(level: Level): set<(int, int)> {
    set p | p in level :: (p.0 / 2, p.1 / 2)
  }

  lemma NoParentNothingHeld(v: Field<Pixel>, reduce: Reduce, z: nat, level: Level, a: Address)
    requires 0 < z <= ZMAX && LevelOk(v, reduce, z, level) && a.z == z - 1 && (a.x, a.y) !in ParentsOf(level)
    ensures !Holds(v, ZMAX, a)
  {
    HeldWithAChild(v, ZMAX, a);
    assert forall b: Address :: b.z == z && ParentOf(b) == a ==> (b.x, b.y) !in level;
  }

  ghost function TilesAt(z: nat, done: set<(int, int)>): iset<Address> {
    iset a: Address | a.z == z && (a.x, a.y) in done
  }

  /** Every address of the zooms `from` up to, not including, `to`. */
  ghost function Zooms(from: nat, to: nat): iset<Address> {
    iset a: Address | from <= a.z < to
  }

  ghost function AllAt(z: nat): iset<Address> {
    iset a: Address | a.z == z
  }

  /** `layer.reduce(quad)`. */
  method ReduceQuad(level: Level, px: int, py: int, z: nat, reduce: Reduce, ghost v: Field<Pixel>)
    returns (parent: Raster)
    requires KeepsKnown(reduce) && 0 < z <= ZMAX && LevelOk(v, reduce, z, level)
    ensures Shows(v, reduce, ZMAX - (z - 1), parent, 1 * TILE, py * TILE, px * TILE)
  {
    parent := Halve(QuadOf(level, px, py), TILE, reduce);
    ParentShows(v, reduce, z, level, px, py);
  }

  /** One parent: its tile, if it has a value. */
  method OneParent(level: Level, px: int, py: int, z: nat, reduce: Reduce, ghost v: Field<Pixel>)
    returns (parent: Raster, tiles: seq<Tile>)
    requires KeepsKnown(reduce) && 0 < z <= ZMAX && LevelOk(v, reduce, z, level)
    ensures Shows(v, reduce, ZMAX - (z - 1), parent, TILE, py * TILE, px * TILE)
    ensures Exactly(v, reduce, ZMAX, tiles, TilesAt(z - 1, {(px, py)}))
  {
    parent := ReduceQuad(level, px, py, z, reduce, v);
    tiles := TilesOf(parent, 1, z - 1, px, py, v, reduce, ZMAX);
    assert SquareTo(z - 1, px, py, 1, 1, 0) == TilesAt(z - 1, {(px, py)});
  }

  /** One zoom of `coarse_tiles`, from the zoom below. */
  method CoarserLevel(level: Level, z: nat, reduce: Reduce, ghost v: Field<Pixel>)
    returns (parents: Level, tiles: seq<Tile>)
    requires KeepsKnown(reduce) && 0 < z <= ZMAX && LevelOk(v, reduce, z, level)
    ensures LevelOk(v, reduce, z - 1, parents) && Exactly(v, reduce, ZMAX, tiles, AllAt(z - 1))
  {
    parents, tiles := map[], [];
    var todo := ParentsOf(level);
    while todo != {}
      invariant parents.Keys + todo == ParentsOf(level) && parents.Keys !! todo
      invariant forall p :: p in parents ==> Shows(v, reduce, ZMAX - (z - 1), parents[p], TILE, p.1 * TILE, p.0 * TILE)
      invariant Exactly(v, reduce, ZMAX, tiles, TilesAt(z - 1, parents.Keys))
      decreases todo
    {
      var p :| p in todo;
      var parent, more := OneParent(level, p.0, p.1, z, reduce, v);
      ExactlyJoins(v, reduce, ZMAX, tiles, TilesAt(z - 1, parents.Keys), more, TilesAt(z - 1, {p}));
      assert TilesAt(z - 1, parents.Keys) + TilesAt(z - 1, {p}) == TilesAt(z - 1, parents.Keys + {p});
      todo, parents, tiles := todo - {p}, parents[p := parent], tiles + more;
    }
    forall a: Address | a.z == z - 1 && (a.x, a.y) !in parents ensures !Holds(v, ZMAX, a) {
      NoParentNothingHeld(v, reduce, z, level, a);
    }
    ExactlyWidens(v, reduce, ZMAX, tiles, TilesAt(z - 1, parents.Keys), AllAt(z - 1));
  }

  // ----------------------------------------------------------------------- pack

  /** What `save_block` leaves for a block: its tiles, and the grid of its own tile. */
  datatype BlockFile = BlockFile(tiles: seq<Tile>, grid: Raster)

  type Work = map<(int, int), BlockFile>

  ghost function BlockDomain(b: (int, int)): iset<Address> {
    BlockFrom(b.0, b.1, BLOCK_ZOOM, BLOCK_ZOOM, ZMAX)
  }

  /** A file as `save_block` makes it. */
  ghost predicate FileOk(v: Field<Pixel>, reduce: Reduce, b: (int, int), file: BlockFile) {
    Exactly(v, reduce, ZMAX, file.tiles, BlockDomain(b)) &&
    BlockShows(v, reduce, ZMAX, file.grid, b.0, b.1, BLOCK_ZOOM, BLOCK_ZOOM)
  }

  ghost predicate FilesOk(v: Field<Pixel>, reduce: Reduce, work: Work) {
    forall b :: b in work ==> FileOk(v, reduce, b, work[b])
  }

  /** Every block with something known under it has a file. */
  ghost predicate NoBlockMissing(v: Field<Pixel>, blocks: set<(int, int)>) {
    forall a: Address :: a.z == BLOCK_ZOOM && Holds(v, ZMAX, a) ==> (a.x, a.y) in blocks
  }

  ghost predicate WorkOk(v: Field<Pixel>, reduce: Reduce, work: Work) {
    FilesOk(v, reduce, work) && NoBlockMissing(v, work.Keys)
  }

  function OwnTiles(work: Work): (level: Level)
    ensures level.Keys == work.Keys
  {
    map b | b in work :: work[b].grid
  }

  lemma OwnTilesAreALevel(v: Field<Pixel>, reduce: Reduce, work: Work)
    requires WorkOk(v, reduce, work)
    ensures LevelOk(v, reduce, BLOCK_ZOOM, OwnTiles(work))
  {
    assert Pow2(0) == 1;
  }

  /** `coarse_tiles`: zooms 9 and 8. */
  method CoarseTiles(work: Work, reduce: Reduce, ghost v: Field<Pixel>) returns (tiles: seq<Tile>)
    requires KeepsKnown(reduce) && WorkOk(v, reduce, work)
    ensures Exactly(v, reduce, ZMAX, tiles, Zooms(ZMIN, BLOCK_ZOOM))
  {
    var level := OwnTiles(work);
    OwnTilesAreALevel(v, reduce, work);
    tiles := [];
    for z := BLOCK_ZOOM downto ZMIN
      invariant LevelOk(v, reduce, z, level)
      invariant Exactly(v, reduce, ZMAX, tiles, Zooms(z, BLOCK_ZOOM))
    {
      var more;
      level, more := CoarserLevel(level, z + 1, reduce, v);
      ExactlyJoins(v, reduce, ZMAX, tiles, Zooms(z + 1, BLOCK_ZOOM), more, AllAt(z));
      assert Zooms(z + 1, BLOCK_ZOOM) + AllAt(z) == Zooms(z, BLOCK_ZOOM);
      tiles := tiles + more;
    }
  }

  ghost function BlocksDomain(done: set<(int, int)>): iset<Address> {
    iset a: Address | BLOCK_ZOOM <= a.z <= ZMAX && (Up(a.x, a.z - BLOCK_ZOOM), Up(a.y, a.z - BLOCK_ZOOM)) in done
  }

  /** An address at or under zoom 10 lies in the block its ancestor names. */
  lemma HeldInsideItsBlock(v: Field<Pixel>, a: Address)
    requires BLOCK_ZOOM <= a.z <= ZMAX && Holds(v, ZMAX, a)
    ensures Holds(v, ZMAX, Address(BLOCK_ZOOM, Up(a.x, a.z - BLOCK_ZOOM), Up(a.y, a.z - BLOCK_ZOOM)))
  {
    var y1, x1 :| v(y1, x1).Some? && Up(y1 / TILE, ZMAX - a.z) == a.y && Up(x1 / TILE, ZMAX - a.z) == a.x;
    UpTwice(y1 / TILE, ZMAX - a.z, a.z - BLOCK_ZOOM);
    UpTwice(x1 / TILE, ZMAX - a.z, a.z - BLOCK_ZOOM);
  }

  lemma {:induction false} UpTwice(a: int, j: nat, k: nat)
    ensures Up(Up(a, j), k) == Up(a, j + k)
  {
    if k > 0 { UpTwice(a, j, k - 1); }
  }

  lemma BlockJoins(v: Field<Pixel>, reduce: Reduce, done: set<(int, int)>, tiles: seq<Tile>, b: (int, int),
                   more: seq<Tile>)
    requires Exactly(v, reduce, ZMAX, tiles, BlocksDomain(done)) && b !in done
    requires Exactly(v, reduce, ZMAX, more, BlockDomain(b))
    ensures Exactly(v, reduce, ZMAX, tiles + more, BlocksDomain(done + {b}))
  {
    ExactlyJoins(v, reduce, ZMAX, tiles, BlocksDomain(done), more, BlockDomain(b));
    assert BlocksDomain(done) + BlockDomain(b) == BlocksDomain(done + {b});
  }

  lemma BlocksAreAll(v: Field<Pixel>, reduce: Reduce, blocks: set<(int, int)>, tiles: seq<Tile>)
    requires NoBlockMissing(v, blocks) && Exactly(v, reduce, ZMAX, tiles, BlocksDomain(blocks))
    ensures Exactly(v, reduce, ZMAX, tiles, Zooms(BLOCK_ZOOM, ZMAX + 1))
  {
    forall a: Address | a in Zooms(BLOCK_ZOOM, ZMAX + 1) && Holds(v, ZMAX, a) ensures a in BlocksDomain(blocks) {
      HeldInsideItsBlock(v, a);
    }
    ExactlyWidens(v, reduce, ZMAX, tiles, BlocksDomain(blocks), Zooms(BLOCK_ZOOM, ZMAX + 1));
  }

  /** The first loop of `pack`: every block's tiles, in whatever order the files come. */
  method AllBlockTiles(work: Work, ghost reduce: Reduce, ghost v: Field<Pixel>) returns (tiles: seq<Tile>)
    requires WorkOk(v, reduce, work)
    ensures Exactly(v, reduce, ZMAX, tiles, Zooms(BLOCK_ZOOM, ZMAX + 1))
  {
    tiles := [];
    var todo := work.Keys;
    while todo != {}
      invariant todo <= work.Keys && Exactly(v, reduce, ZMAX, tiles, BlocksDomain(work.Keys - todo))
      decreases todo
    {
      var b :| b in todo;
      BlockJoins(v, reduce, work.Keys - todo, tiles, b, work[b].tiles);
      assert work.Keys - todo + {b} == work.Keys - (todo - {b});
      todo, tiles := todo - {b}, tiles + work[b].tiles;
    }
    assert work.Keys - {} == work.Keys;
    BlocksAreAll(v, reduce, work.Keys, tiles);
  }

  /** A row of the table: MBTiles rows count from the south. */
  datatype TableRow = TableRow(zoom: nat, column: int, row: int, data: Raster)

  function Flipped(t: Tile): TableRow {
    TableRow(t.at.z, t.at.x, Pow2(t.at.z) - 1 - t.at.y, t.data)
  }

  /** What `create unique index` demands. */
  ghost predicate UniqueIndex(table: seq<TableRow>) {
    forall i, j :: 0 <= i < j < |table| ==>
      (table[i].zoom, table[i].column, table[i].row) != (table[j].zoom, table[j].column, table[j].row)
  }

  /** In zoom-15 tile edges, counted east and south. */
  datatype Bounds = Bounds(west: int, north: int, east: int, south: int)

  datatype PackResult = NoTiles | Packed(table: seq<TableRow>, bounds: Bounds)

  /** The zoom-15 tiles with something known in them, as (column, row). */
  ghost function DeepTiles(v: Field<Pixel>): iset<(int, int)> {
    iset p: (int, int) | Holds(v, ZMAX, Address(ZMAX, p.0, p.1))
  }

  /** The bounds hold every one of the tiles and each side touches one. */
  ghost predicate TightBounds(deep: iset<(int, int)>, b: Bounds) {
    (forall p :: p in deep ==> b.west <= p.0 < b.east && b.north <= p.1 < b.south) &&
    (exists p :: p in deep && p.0 == b.west) && (exists p :: p in deep && p.0 == b.east - 1) &&
    (exists p :: p in deep && p.1 == b.north) && (exists p :: p in deep && p.1 == b.south - 1)
  }

  ghost predicate IsTable(tiles: seq<Tile>, table: seq<TableRow>) {
    |table| == |tiles| && forall i :: 0 <= i < |tiles| ==> table[i] == Flipped(tiles[i])
  }

  /** The extremes over the zoom-15 rows of the table so far, as SQL `min` and `max` give them. */
  ghost predicate Extremes(table: seq<TableRow>, n: nat, found: bool, x0: int, x1: int, y0: int, y1: int)
    requires n <= |table|
  {
    (found <==> exists i :: 0 <= i < n && table[i].zoom == ZMAX) &&
    (found ==>
       (forall i :: 0 <= i < n && table[i].zoom == ZMAX ==> x0 <= table[i].column <= x1 && y0 <= table[i].row <= y1) &&
       (exists i :: 0 <= i < n && table[i].zoom == ZMAX && table[i].column == x0) &&
       (exists i :: 0 <= i < n && table[i].zoom == ZMAX && table[i].column == x1) &&
       (exists i :: 0 <= i < n && table[i].zoom == ZMAX && table[i].row == y0) &&
       exists i :: 0 <= i < n && table[i].zoom == ZMAX && table[i].row == y1)
  }

  method ExtremesOf(table: seq<TableRow>) returns (found: bool, x0: int, x1: int, y0: int, y1: int)
    ensures Extremes(table, |table|, found, x0, x1, y0, y1)
  {
    found, x0, x1, y0, y1 := false, 0, 0, 0, 0;
    for i := 0 to |table|
      invariant Extremes(table, i, found, x0, x1, y0, y1)
    {
      var t := table[i];
      if t.zoom == ZMAX {
        if !found || t.column < x0 { x0 := t.column; }
        if !found || t.column > x1 { x1 := t.column; }
        if !found || t.row < y0 { y0 := t.row; }
        if !found || t.row > y1 { y1 := t.row; }
        found := true;
      }
    }
  }

  ghost predicate HasRow(table: seq<TableRow>, zoom: int, column: int, row: int) {
    exists i :: 0 <= i < |table| && table[i].zoom == zoom && table[i].column == column && table[i].row == row
  }

  /** There is a row for the tile, counted from the south, exactly when something known lies under it. */
  ghost predicate RowIffHeld(v: Field<Pixel>, table: seq<TableRow>, a: Address)
    requires a.z <= ZMAX
  {
    Holds(v, ZMAX, a) <==> HasRow(table, a.z, a.x, Pow2(a.z) - 1 - a.y)
  }

  /** A row is for one of the zooms, and its data is the whole raster's tile there. */
  ghost predicate RowShows(v: Field<Pixel>, reduce: Reduce, row: TableRow) {
    ZMIN <= row.zoom <= ZMAX &&
    Shows(v, reduce, ZMAX - row.zoom, row.data, TILE, (Pow2(row.zoom) - 1 - row.row) * TILE, row.column * TILE)
  }

  /** At every zoom from 8 to 15 the table has one row for each tile with something known under it, no
      other, and each row's data is right. */
  ghost predicate TableShows(v: Field<Pixel>, reduce: Reduce, table: seq<TableRow>) {
    UniqueIndex(table) &&
    (forall a: Address {:trigger RowIffHeld(v, table, a)} :: ZMIN <= a.z <= ZMAX ==> RowIffHeld(v, table, a)) &&
    forall i :: 0 <= i < |table| ==> RowShows(v, reduce, table[i])
  }

  lemma RowsAreTiles(v: Field<Pixel>, reduce: Reduce, tiles: seq<Tile>, table: seq<TableRow>, a: Address)
    requires Exactly(v, reduce, ZMAX, tiles, Zooms(ZMIN, ZMAX + 1)) && IsTable(tiles, table) && ZMIN <= a.z <= ZMAX
    ensures RowIffHeld(v, table, a)
  {
    if Holds(v, ZMAX, a) {
      assert HasTile(tiles, a);
      var i :| 0 <= i < |tiles| && tiles[i].at == a;
      assert table[i] == Flipped(tiles[i]);
    } else {
      forall i | 0 <= i < |table| && table[i].zoom == a.z && table[i].column == a.x
        ensures table[i].row != Pow2(a.z) - 1 - a.y
      {
        assert table[i] == Flipped(tiles[i]) && TileOk(v, reduce, ZMAX, tiles[i]);
        assert tiles[i].at == Address(a.z, a.x, tiles[i].at.y);
      }
    }
  }

  lemma FlippedShows(v: Field<Pixel>, reduce: Reduce, t: Tile)
    requires TileOk(v, reduce, ZMAX, t) && ZMIN <= t.at.z
    ensures RowShows(v, reduce, Flipped(t))
  {
  }

  /** The flip keeps addresses apart, so the unique index cannot fail. */
  lemma FlippedIsUnique(tiles: seq<Tile>, table: seq<TableRow>)
    requires OncePerAddress(tiles) && IsTable(tiles, table)
    ensures UniqueIndex(table)
  {
  }

  /** The flip of every tile makes the table it should. */
  lemma FlippedIsTable(v: Field<Pixel>, reduce: Reduce, tiles: seq<Tile>, table: seq<TableRow>)
    requires Exactly(v, reduce, ZMAX, tiles, Zooms(ZMIN, ZMAX + 1)) && IsTable(tiles, table)
    ensures TableShows(v, reduce, table)
  {
    FlippedIsUnique(tiles, table);
    forall a: Address | ZMIN <= a.z <= ZMAX ensures RowIffHeld(v, table, a) {
      RowsAreTiles(v, reduce, tiles, table, a);
    }
    forall i | 0 <= i < |table| ensures RowShows(v, reduce, table[i]) { FlippedShows(v, reduce, tiles[i]); }
  }

  function BoundsOf(x0: int, x1: int, y0: int, y1: int): Bounds {
    Bounds(x0, Pow2(ZMAX) - 1 - y1, x1 + 1, Pow2(ZMAX) - y0)
  }

  /** The zoom-15 rows of the table name just the tiles `deep`. */
  ghost predicate Names(table: seq<TableRow>, deep: iset<(int, int)>) {
    forall p :: p in deep <==> HasRow(table, ZMAX, p.0, Pow2(ZMAX) - 1 - p.1)
  }

  lemma TableNamesDeepTiles(v: Field<Pixel>, reduce: Reduce, table: seq<TableRow>)
    requires TableShows(v, reduce, table)
    ensures Names(table, DeepTiles(v))
  {
    forall p: (int, int) ensures p in DeepTiles(v) <==> HasRow(table, ZMAX, p.0, Pow2(ZMAX) - 1 - p.1) {
      assert RowIffHeld(v, table, Address(ZMAX, p.0, p.1));
    }
  }

  lemma RowIsNamed(table: seq<TableRow>, deep: iset<(int, int)>, i: nat)
    requires Names(table, deep) && i < |table| && table[i].zoom == ZMAX
    ensures (table[i].column, Pow2(ZMAX) - 1 - table[i].row) in deep
  {
    var p := (table[i].column, Pow2(ZMAX) - 1 - table[i].row);
    assert HasRow(table, ZMAX, p.0, Pow2(ZMAX) - 1 - p.1);
  }

  lemma ExtremesAreTight(table: seq<TableRow>, deep: iset<(int, int)>, x0: int, x1: int, y0: int, y1: int)
    requires Names(table, deep) && Extremes(table, |table|, true, x0, x1, y0, y1)
    ensures TightBounds(deep, BoundsOf(x0, x1, y0, y1))
  {
    forall i: nat | i < |table| && table[i].zoom == ZMAX
      ensures (table[i].column, Pow2(ZMAX) - 1 - table[i].row) in deep
    {
      RowIsNamed(table, deep, i);
    }
    forall p | p in deep ensures x0 <= p.0 <= x1 && y0 <= Pow2(ZMAX) - 1 - p.1 <= y1 {
      assert HasRow(table, ZMAX, p.0, Pow2(ZMAX) - 1 - p.1);
    }
  }

  lemma KnownIsHeld(v: Field<Pixel>, y: int, x: int)
    ensures v(y, x).Some? ==> Holds(v, ZMAX, Address(ZMAX, x / TILE, y / TILE))
  {
    assert Up(y / TILE, 0) == y / TILE && Up(x / TILE, 0) == x / TILE;
  }

  lemma NothingDeepNothingKnown(v: Field<Pixel>, reduce: Reduce, table: seq<TableRow>, y: int, x: int)
    requires TableShows(v, reduce, table)
    requires forall i :: 0 <= i < |table| ==> table[i].zoom != ZMAX
    ensures v(y, x).None?
  {
    var a := Address(ZMAX, x / TILE, y / TILE);
    assert RowIffHeld(v, table, a);
    KnownIsHeld(v, y, x);
  }

  method AllTiles(work: Work, reduce: Reduce, ghost v: Field<Pixel>) returns (tiles: seq<Tile>)
    requires KeepsKnown(reduce) && WorkOk(v, reduce, work)
    ensures Exactly(v, reduce, ZMAX, tiles, Zooms(ZMIN, ZMAX + 1))
  {
    tiles := AllBlockTiles(work, reduce, v);
    var coarse := CoarseTiles(work, reduce, v);
    ExactlyJoins(v, reduce, ZMAX, tiles, Zooms(BLOCK_ZOOM, ZMAX + 1), coarse, Zooms(ZMIN, BLOCK_ZOOM));
    assert Zooms(BLOCK_ZOOM, ZMAX + 1) + Zooms(ZMIN, BLOCK_ZOOM) == Zooms(ZMIN, ZMAX + 1);
    tiles := tiles + coarse;
  }

  /** The table of the whole raster's pyramid and its bounds; or a refusal when nothing at all is known. */
  ghost predicate PackedRight(v: Field<Pixel>, reduce: Reduce, result: PackResult) {
    (result.NoTiles? <==> forall y, x :: v(y, x).None?) &&
    (result.Packed? ==> TableShows(v, reduce, result.table) && TightBounds(DeepTiles(v), result.bounds))
  }

  /** `pack`. */
  method Pack(work: Work, reduce: Reduce, ghost v: Field<Pixel>) returns (result: PackResult)
    requires KeepsKnown(reduce) && WorkOk(v, reduce, work)
    ensures PackedRight(v, reduce, result)
  {
    var all := AllTiles(work, reduce, v);
    var table := seq(|all|, i requires 0 <= i < |all| => Flipped(all[i]));
    FlippedIsTable(v, reduce, all, table);
    var found, x0, x1, y0, y1 := ExtremesOf(table);
    if !found {
      result := NoTiles;
      forall y, x ensures v(y, x).None? { NothingDeepNothingKnown(v, reduce, table, y, x); }
    } else {
      result := Packed(table, BoundsOf(x0, x1, y0, y1));
      TableNamesDeepTiles(v, reduce, table);
      ExtremesAreTight(table, DeepTiles(v), x0, x1, y0, y1);
    }
  }

  // ------------------------------------------------ what `build_slope` relies on

  /** `d` is a deepest tile under the block `a`. */
  predicate DeepUnder(d: Address, a: Address) {
    d.z == ZMAX && Up(d.x, ZMAX - BLOCK_ZOOM) == a.x && Up(d.y, ZMAX - BLOCK_ZOOM) == a.y
  }

  /** A block's own tile is there exactly where one of the deepest tiles under it is. */
  lemma {:induction false} BlockTileMeansDeepTile(v: Field<Pixel>, a: Address)
    requires a.z == BLOCK_ZOOM
    ensures Holds(v, ZMAX, a) <==>
            exists d: Address :: DeepUnder(d, a) && Holds(v, ZMAX, d)
  {
    if Holds(v, ZMAX, a) {
      var y1, x1 :| v(y1, x1).Some? && Up(y1 / TILE, ZMAX - a.z) == a.y && Up(x1 / TILE, ZMAX - a.z) == a.x;
      var d := Address(ZMAX, x1 / TILE, y1 / TILE);
      assert Up(d.y, 0) == d.y && Up(d.x, 0) == d.x && DeepUnder(d, a) && Holds(v, ZMAX, d);
    }
    if d: Address :| DeepUnder(d, a) && Holds(v, ZMAX, d) {
      HeldInsideItsBlock(v, d);
    }
  }
}
