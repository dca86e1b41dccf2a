/**
 Who builds a sharpened tile and who reads it (topo/sharpen.py: `tile_range`,
 `blocks_of`, `pyramid`; topo/area_export.py: `tile_archive`, and in
 `render_mbtiles` the tile list, `contour_tile`, `tile_rasters`, `drew`).

 The producer works by z14 blocks, the consumer by the z15 range. They agree
 because the range is widened to whole blocks.
 */
module TileRouting {
  import opened Common
  import opened TilePyramid

  const CONTOUR_ZOOM := 14
  const ZMIN := 15
  const MBTILES_ZMIN := 11
  const MBTILES_ZMAX := 16

  /** Tiles of one zoom, both ends included. */
  datatype Range = Range(x0: int, y0: int, x1: int, y1: int)

  predicate In(r: Range, x: int, y: int) {
    r.x0 <= x <= r.x1 && r.y0 <= y <= r.y1
  }

  // ------------------------------------------------------------- the producer

  /** Whole z14 tiles. */
  predicate Widened(r: Range) {
    r.x0 % 2 == 0 && r.y0 % 2 == 0 && r.x1 % 2 == 1 && r.y1 % 2 == 1
  }

  ghost predicate Within(a: Range, b: Range) {
    forall x, y :: In(a, x, y) ==> In(b, x, y)
  }

  /** `tile_range`, from the bbox's corner tiles: `& ~1` and `| 1`. */
  function TileRange(corners: Range): (r: Range)
    ensures Widened(r)
  {
    Range(corners.x0 / 2 * 2, corners.y0 / 2 * 2, corners.x1 / 2 * 2 + 1, corners.y1 / 2 * 2 + 1)
  }

  /** It is the least range of whole z14 tiles over the corners. */
  lemma TileRangeIsLeast(corners: Range, wider: Range)
    requires corners.x0 <= corners.x1 && corners.y0 <= corners.y1
    ensures Within(corners, TileRange(corners))
    ensures Widened(wider) && Within(corners, wider) ==> Within(TileRange(corners), wider)
  {
    if Widened(wider) && Within(corners, wider) {
      assert In(corners, corners.x0, corners.y0) && In(corners, corners.x1, corners.y1);
    }
  }

  /** The z14 tiles of a z15 range: `>> 1` at both ends. */
  function Blocks(r: Range): Range {
    Range(r.x0 / 2, r.y0 / 2, r.x1 / 2, r.y1 / 2)
  }

  /** A z15 tile is in a widened range exactly when its z14 parent is one of its blocks. */
  lemma InBlocks(r: Range, x: int, y: int)
    requires Widened(r)
    ensures In(r, x, y) <==> In(Blocks(r), x / 2, y / 2)
  {
  }

  /** The addresses from z15 to `zmax` under a z15 range. */
  ghost function UnderRange(r: Range, zmax: nat): iset<Address> {
    iset a: Address | ZMIN <= a.z <= zmax && In(r, Up(a.x, a.z - ZMIN), Up(a.y, a.z - ZMIN))
  }

  /** Those under the blocks that come before (`bx`, `by`), row by row. */
  ghost function UnderBlocksTo(b: Range, zmax: nat, bx: int, row: int): iset<Address> {
    iset a: Address | ZMIN <= a.z <= zmax && In(b, Up(a.x, a.z - CONTOUR_ZOOM), Up(a.y, a.z - CONTOUR_ZOOM)) &&
                      Before(Up(a.x, a.z - CONTOUR_ZOOM), Up(a.y, a.z - CONTOUR_ZOOM), bx, row)
  }

  predicate Before(x: int, y: int, bx: int, row: int) {
    y < row || (y == row && x < bx)
  }

  lemma BlocksFillRange(r: Range, zmax: nat)
    requires Widened(r)
    ensures UnderBlocksTo(Blocks(r), zmax, Blocks(r).x0, Blocks(r).y1 + 1) == UnderRange(r, zmax)
  {
    forall a: Address | ZMIN <= a.z <= zmax
      ensures In(r, Up(a.x, a.z - ZMIN), Up(a.y, a.z - ZMIN)) <==>
              In(Blocks(r), Up(a.x, a.z - CONTOUR_ZOOM), Up(a.y, a.z - CONTOUR_ZOOM))
    {
      InBlocks(r, Up(a.x, a.z - ZMIN), Up(a.y, a.z - ZMIN));
    }
  }

  /** A block's own grid at `zmax`: its piece of the raster. */
  function Piece(v: Field<Pixel>, bx: int, row: int, zmax: nat): Raster
    requires CONTOUR_ZOOM <= zmax
  {
    var n, y0, x0 := Pow2(zmax - CONTOUR_ZOOM) * TILE, Origin(row, CONTOUR_ZOOM, zmax), Origin(bx, CONTOUR_ZOOM, zmax);
    seq(n, r => seq(n, c => v(y0 + r, x0 + c)))
  }

  lemma PieceShows(v: Field<Pixel>, reduce: Reduce, bx: int, row: int, zmax: nat)
    requires CONTOUR_ZOOM <= zmax
    ensures BlockShows(v, reduce, zmax, Piece(v, bx, row, zmax), bx, row, CONTOUR_ZOOM, zmax)
  {
    assert AtZoom(v, reduce, 0) == v;
  }

  lemma BlockJoins(v: Field<Pixel>, reduce: Reduce, b: Range, zmax: nat, bx: int, row: int, tiles: seq<Tile>,
                   more: seq<Tile>)
    requires In(b, bx, row)
    requires Exactly(v, reduce, zmax, tiles, UnderBlocksTo(b, zmax, bx, row))
    requires Exactly(v, reduce, zmax, more, BlockFrom(bx, row, CONTOUR_ZOOM, ZMIN, zmax))
    ensures Exactly(v, reduce, zmax, tiles + more, UnderBlocksTo(b, zmax, bx + 1, row))
  {
    ExactlyJoins(v, reduce, zmax, tiles, UnderBlocksTo(b, zmax, bx, row),
                 more, BlockFrom(bx, row, CONTOUR_ZOOM, ZMIN, zmax));
    assert UnderBlocksTo(b, zmax, bx, row) + BlockFrom(bx, row, CONTOUR_ZOOM, ZMIN, zmax) ==
           UnderBlocksTo(b, zmax, bx + 1, row);
  }

  /** `pyramid` over every block of `blocks_of`: the archive holds the tiles under the range with a
      value, from z15 to `zmax`, each once. */
  method BuildArchive(r: Range, zmax: nat, v: Field<Pixel>, reduce: Reduce) returns (tiles: seq<Tile>)
    requires KeepsKnown(reduce) && Widened(r) && r.x0 <= r.x1 && r.y0 <= r.y1 && zmax >= ZMIN
    ensures Exactly(v, reduce, zmax, tiles, UnderRange(r, zmax))
  {
    var b := Blocks(r);
    tiles := [];
    for row := b.y0 to b.y1 + 1
      invariant Exactly(v, reduce, zmax, tiles, UnderBlocksTo(b, zmax, b.x0, row))
    {
      for bx := b.x0 to b.x1 + 1
        invariant Exactly(v, reduce, zmax, tiles, UnderBlocksTo(b, zmax, bx, row))
      {
        PieceShows(v, reduce, bx, row, zmax);
        var more, _ := BlockPyramid(Piece(v, bx, row, zmax), bx, row, CONTOUR_ZOOM, ZMIN, zmax, reduce, v);
        BlockJoins(v, reduce, b, zmax, bx, row, tiles, more);
        tiles := tiles + more;
      }
      assert UnderBlocksTo(b, zmax, b.x1 + 1, row) == UnderBlocksTo(b, zmax, b.x0, row + 1);
    }
    BlocksFillRange(r, zmax);
  }

  // ------------------------------------------------------------- the consumer

  datatype Layer = Heights | Slope | Contours

  /** `contours`: the area has a contour archive. */
  datatype Area = Area(zmax: nat, tiles15: Range, contours: bool)

  datatype Answer = Statewide | Absent | FromArea(i: nat)

  function RoutedFrom(layer: Layer): nat {
    if layer == Contours then 14 else 15
  }

  /** The area's range at the layer's routed zoom. */
  function RoutedRange(area: Area, layer: Layer): Range {
    if layer == Contours then Blocks(area.tiles15) else area.tiles15
  }

  /** The area answers for the tile, if none before it does. */
  predicate Covers(area: Area, layer: Layer, z: nat, x: int, y: int)
    requires z >= RoutedFrom(layer)
  {
    (layer == Contours ==> area.contours) &&
    In(RoutedRange(area, layer), Up(x, z - RoutedFrom(layer)), Up(y, z - RoutedFrom(layer)))
  }

  /** `tile_archive`'s loop, from area `i` on. */
  function AnswerFrom(areas: seq<Area>, i: nat, layer: Layer, z: nat, x: int, y: int): (a: Answer)
    requires i <= |areas| && z >= RoutedFrom(layer)
    ensures a.FromArea? ==> i <= a.i < |areas|
    decreases |areas| - i
  {
    if i == |areas| then
      if layer == Contours || z == RoutedFrom(layer) then Statewide else Absent
    else if !Covers(areas[i], layer, z, x, y) then AnswerFrom(areas, i + 1, layer, z, x, y)
    else if layer == Contours || z <= areas[i].zmax then FromArea(i)
    else Absent
  }

  /** `tile_archive`: areas come in the router's order. */
  function TileArchive(areas: seq<Area>, layer: Layer, z: nat, x: int, y: int): (a: Answer)
    ensures a.FromArea? ==> a.i < |areas| && z >= RoutedFrom(layer)
  {
    if z < RoutedFrom(layer) then Statewide else AnswerFrom(areas, 0, layer, z, x, y)
  }

  /** Area `i` is the first to cover the tile. */
  ghost predicate IsFirst(areas: seq<Area>, i: nat, layer: Layer, z: nat, x: int, y: int)
    requires z >= RoutedFrom(layer)
  {
    i < |areas| && Covers(areas[i], layer, z, x, y) && NoneBefore(areas, 0, i, layer, z, x, y)
  }

  ghost predicate NoneBefore(areas: seq<Area>, from: nat, i: nat, layer: Layer, z: nat, x: int, y: int)
    requires i <= |areas| && z >= RoutedFrom(layer)
  {
    forall j :: from <= j < i ==> !Covers(areas[j], layer, z, x, y)
  }

  lemma {:induction false} AnswerFromIsFirst(areas: seq<Area>, from: nat, layer: Layer, z: nat, x: int, y: int)
    requires from <= |areas| && z >= RoutedFrom(layer) && NoneBefore(areas, 0, from, layer, z, x, y)
    ensures var a := AnswerFrom(areas, from, layer, z, x, y);
            match a
            case FromArea(i) => IsFirst(areas, i, layer, z, x, y) && (layer == Contours || z <= areas[i].zmax)
            case Statewide => NoneBefore(areas, 0, |areas|, layer, z, x, y) &&
              (layer == Contours || z == RoutedFrom(layer))
            case Absent => layer != Contours &&
                           ((NoneBefore(areas, 0, |areas|, layer, z, x, y) && z > RoutedFrom(layer)) ||
                            exists i: nat :: IsFirst(areas, i, layer, z, x, y) && z > areas[i].zmax)
    decreases |areas| - from
  {
    if from < |areas| {
      if !Covers(areas[from], layer, z, x, y) {
        AnswerFromIsFirst(areas, from + 1, layer, z, x, y);
      } else {
        assert IsFirst(areas, from, layer, z, x, y);
      }
    }
  }

  /** Each tile is read from one archive: the first area's over it, down to that area's `zmax`; with
      no area, the statewide one, whose rasters stop at z15. */
  lemma RoutesToFirst(areas: seq<Area>, layer: Layer, z: nat, x: int, y: int, i: nat)
    ensures TileArchive(areas, layer, z, x, y) == FromArea(i) <==>
            z >= RoutedFrom(layer) && IsFirst(areas, i, layer, z, x, y) && (layer == Contours || z <= areas[i].zmax)
    ensures TileArchive(areas, layer, z, x, y) == Statewide <==>
            z < RoutedFrom(layer) ||
              (NoneBefore(areas, 0, |areas|, layer, z, x, y) && (layer == Contours || z == RoutedFrom(layer)))
  {
    if z >= RoutedFrom(layer) {
      AnswerFromIsFirst(areas, 0, layer, z, x, y);
    }
  }

  /** The addresses from z14 on whose z14 ancestor is one of the range's blocks. */
  ghost function UnderBlocks(r: Range): iset<Address> {
    iset a: Address | CONTOUR_ZOOM <= a.z && In(Blocks(r), Up(a.x, a.z - CONTOUR_ZOOM), Up(a.y, a.z - CONTOUR_ZOOM))
  }

  /** So a height or slope tile goes to the first area with the tile under its range, if it is no deeper
      than that area's `zmax`: an area is asked for its own tiles, and for no others. */
  lemma RasterRoutesToFirst(areas: seq<Area>, layer: Layer, a: Address, i: nat)
    requires layer != Contours
    ensures TileArchive(areas, layer, a.z, a.x, a.y) == FromArea(i) <==>
            i < |areas| && a in UnderRange(areas[i].tiles15, areas[i].zmax) &&
            forall j :: 0 <= j < i ==> a !in UnderRange(areas[j].tiles15, a.z)
    ensures TileArchive(areas, layer, a.z, a.x, a.y) == Statewide <==>
            a.z < 15 || (a.z == 15 && forall j :: 0 <= j < |areas| ==> a !in UnderRange(areas[j].tiles15, a.z))
  {
    RoutesToFirst(areas, layer, a.z, a.x, a.y, i);
    if a.z >= 15 {
      forall j | 0 <= j < |areas|
        ensures Covers(areas[j], layer, a.z, a.x, a.y) <==> a in UnderRange(areas[j].tiles15, a.z)
      {
      }
    }
  }

  /** And contours to the first area that has any and whose blocks hold the tile's z14 ancestor. */
  lemma ContoursRouteToFirst(areas: seq<Area>, a: Address, i: nat)
    ensures TileArchive(areas, Contours, a.z, a.x, a.y) == FromArea(i) <==>
            i < |areas| && areas[i].contours && a in UnderBlocks(areas[i].tiles15) &&
            forall j :: 0 <= j < i && areas[j].contours ==> a !in UnderBlocks(areas[j].tiles15)
    ensures TileArchive(areas, Contours, a.z, a.x, a.y) == Statewide <==>
            forall j :: 0 <= j < |areas| && areas[j].contours ==> a !in UnderBlocks(areas[j].tiles15)
  {
    RoutesToFirst(areas, Contours, a.z, a.x, a.y, i);
    if a.z >= 14 {
      forall j | 0 <= j < |areas|
        ensures Covers(areas[j], Contours, a.z, a.x, a.y) <==> areas[j].contours && a in UnderBlocks(areas[j].tiles15)
      {
      }
    }
  }

  /** Producer and consumer agree: an area is only asked for what it was built with. Heights and slope
      tiles lie under its range no deeper than `zmax`; a contour tile's z14 ancestor is one of its
      blocks. */
  lemma RoutedIsBuilt(areas: seq<Area>, layer: Layer, z: nat, x: int, y: int, i: nat)
    requires TileArchive(areas, layer, z, x, y) == FromArea(i)
    ensures layer != Contours ==> Address(z, x, y) in UnderRange(areas[i].tiles15, areas[i].zmax)
    ensures layer == Contours ==>
            areas[i].contours && In(Blocks(areas[i].tiles15), Up(x, z - CONTOUR_ZOOM), Up(y, z - CONTOUR_ZOOM))
  {
    RoutesToFirst(areas, layer, z, x, y, i);
  }

  /** So what an area is asked for is in its archive exactly when anything is known there. */
  lemma RoutedTileIsInArchive(areas: seq<Area>, layer: Layer, a: Address, i: nat, v: Field<Pixel>, reduce: Reduce,
                              tiles: seq<Tile>)
    requires layer != Contours && TileArchive(areas, layer, a.z, a.x, a.y) == FromArea(i)
    requires Exactly(v, reduce, areas[i].zmax, tiles, UnderRange(areas[i].tiles15, areas[i].zmax))
    ensures a.z <= areas[i].zmax && (HasTile(tiles, a) <==> Holds(v, areas[i].zmax, a))
  {
    RoutedIsBuilt(areas, layer, a.z, a.x, a.y, i);
  }

  lemma {:induction false} UpParent(a: int, k: nat)
    ensures Up(a, k + 1) == Up(a / 2, k)
  {
    if k > 0 { UpParent(a, k - 1); }
  }

  /** An area that answers for a tile answers for its parent, down to the routed zoom: no seam of
      archives within a parent. */
  lemma ParentRoutesAlike(areas: seq<Area>, layer: Layer, z: nat, x: int, y: int, i: nat)
    requires z > RoutedFrom(layer) && TileArchive(areas, layer, z, x, y) == FromArea(i)
    ensures TileArchive(areas, layer, z - 1, x / 2, y / 2) == FromArea(i)
  {
    RoutesToFirst(areas, layer, z, x, y, i);
    UpParent(x, z - 1 - RoutedFrom(layer));
    UpParent(y, z - 1 - RoutedFrom(layer));
    forall j | 0 <= j < |areas|
      ensures Covers(areas[j], layer, z - 1, x / 2, y / 2) <==> Covers(areas[j], layer, z, x, y)
    {
    }
    RoutesToFirst(areas, layer, z - 1, x / 2, y / 2, i);
  }

  lemma {:induction false} AncestorsRouteAlike(areas: seq<Area>, layer: Layer, z: nat, x: int, y: int, i: nat, k: nat)
    requires z - k >= RoutedFrom(layer) && TileArchive(areas, layer, z, x, y) == FromArea(i)
    ensures TileArchive(areas, layer, z - k, Up(x, k), Up(y, k)) == FromArea(i)
  {
    if k > 0 {
      AncestorsRouteAlike(areas, layer, z, x, y, i, k - 1);
      ParentRoutesAlike(areas, layer, z - k + 1, Up(x, k - 1), Up(y, k - 1), i);
    }
  }

  /** Because ranges are whole z14 tiles, an area covers a raster tile exactly when it covers its
      contours (if it has any). */
  lemma ContoursCoverAlike(area: Area, z: nat, x: int, y: int)
    requires z >= ZMIN && Widened(area.tiles15) && area.contours
    ensures Covers(area, Contours, z, x, y) <==> Covers(area, Heights, z, x, y)
  {
    InBlocks(area.tiles15, Up(x, z - ZMIN), Up(y, z - ZMIN));
  }

  // ------------------------------------------------------------- the tile list

  /** The tiles of the list that come before (`x`, `y`), column by column. */
  ghost function ColumnsTo(r: Range, z: nat, x: int, y: int): iset<Address> {
    iset a: Address | a.z == z && In(r, a.x, a.y) && Before(a.y, a.x, y, x)
  }

  ghost function AllOf(r: Range, z: nat): iset<Address> {
    iset a: Address | a.z == z && In(r, a.x, a.y)
  }

  /** Every member of `dom`, each once. */
  ghost predicate Lists(tiles: seq<Address>, dom: iset<Address>) {
    (forall i, j :: 0 <= i < j < |tiles| ==> tiles[i] != tiles[j]) && forall a :: a in tiles <==> a in dom
  }

  lemma ListsJoin(s: seq<Address>, d: iset<Address>, t: seq<Address>, e: iset<Address>)
    requires Lists(s, d) && Lists(t, e) && d !! e
    ensures Lists(s + t, d + e)
  {
    var all := s + t;
    forall i, j | 0 <= i < j < |all| ensures all[i] != all[j] {
      if i < |s| <= j { assert s[i] in d && t[j - |s|] in e; }
    }
  }

  ghost function Those(dom: iset<Address>, keep: Address -> bool): iset<Address> {
    iset a | a in dom && keep(a)
  }

  /** `tiles_for_bbox`, from the bbox's tile range, keeping some. */
  method TilesForBox(r: Range, z: nat, keep: Address -> bool) returns (tiles: seq<Address>)
    ensures Lists(tiles, Those(AllOf(r, z), keep))
  {
    tiles := [];
    if r.x0 > r.x1 || r.y0 > r.y1 { return; }
    for x := r.x0 to r.x1 + 1
      invariant Lists(tiles, Those(ColumnsTo(r, z, x, r.y0), keep))
    {
      for y := r.y0 to r.y1 + 1
        invariant Lists(tiles, Those(ColumnsTo(r, z, x, y), keep))
      {
        var a := Address(z, x, y);
        if keep(a) {
          ListsJoin(tiles, Those(ColumnsTo(r, z, x, y), keep), [a], iset{a});
          tiles := tiles + [a];
          assert Those(ColumnsTo(r, z, x, y + 1), keep) == Those(ColumnsTo(r, z, x, y), keep) + iset{a};
        } else {
          assert Those(ColumnsTo(r, z, x, y + 1), keep) == Those(ColumnsTo(r, z, x, y), keep);
        }
      }
      assert ColumnsTo(r, z, x, r.y1 + 1) == ColumnsTo(r, z, x + 1, r.y0);
    }
    assert ColumnsTo(r, z, r.x1 + 1, r.y0) == AllOf(r, z);
  }

  /** `tile_archive(..., "slope", area.zmax, x, y) is area`. */
  function AnsweredBy(areas: seq<Area>, i: nat): Address -> bool {
    (a: Address) => TileArchive(areas, Slope, a.z, a.x, a.y) == FromArea(i)
  }

  /** What the list adds for area `i`. */
  ghost function Finer(areas: seq<Area>, part: Range, i: nat): iset<Address>
    requires i < |areas|
  {
    if areas[i].zmax > MBTILES_ZMAX then Those(AllOf(part, areas[i].zmax), AnsweredBy(areas, i)) else iset{}
  }

  /** What it holds after the areas before `n`. */
  ghost function Wanted(areas: seq<Area>, box: nat -> Range, parts: seq<Range>, n: nat): iset<Address>
    requires n <= |areas| == |parts|
  {
    iset a: Address | (MBTILES_ZMIN <= a.z <= MBTILES_ZMAX && In(box(a.z), a.x, a.y)) ||
                      exists i :: 0 <= i < n && a in Finer(areas, parts[i], i)
  }

  /** The boxed tiles of the first zooms. */
  ghost function Zooms(box: nat -> Range, z: nat): iset<Address> {
    iset a: Address | MBTILES_ZMIN <= a.z < z && In(box(a.z), a.x, a.y)
  }

  method CoarseList(box: nat -> Range) returns (tiles: seq<Address>)
    ensures Lists(tiles, Zooms(box, MBTILES_ZMAX + 1))
  {
    tiles := [];
    for z := MBTILES_ZMIN to MBTILES_ZMAX + 1
      invariant Lists(tiles, Zooms(box, z))
    {
      var more := TilesForBox(box(z), z, _ => true);
      ListsJoin(tiles, Zooms(box, z), more, Those(AllOf(box(z), z), _ => true));
      assert Zooms(box, z) + Those(AllOf(box(z), z), _ => true) == Zooms(box, z + 1);
      tiles := tiles + more;
    }
  }

  /** The tile list: no tile twice, because each finer one belongs to the one area that answers. */
  method TileList(areas: seq<Area>, box: nat -> Range, parts: seq<Range>) returns (tiles: seq<Address>)
    requires |parts| == |areas|
    ensures Lists(tiles, Wanted(areas, box, parts, |areas|))
  {
    tiles := CoarseList(box);
    assert Zooms(box, MBTILES_ZMAX + 1) == Wanted(areas, box, parts, 0);
    for i := 0 to |areas|
      invariant Lists(tiles, Wanted(areas, box, parts, i))
    {
      if areas[i].zmax > MBTILES_ZMAX {
        var more := TilesForBox(parts[i], areas[i].zmax, AnsweredBy(areas, i));
        ListsJoin(tiles, Wanted(areas, box, parts, i), more, Finer(areas, parts[i], i));
        tiles := tiles + more;
      }
      assert Wanted(areas, box, parts, i) + Finer(areas, parts[i], i) == Wanted(areas, box, parts, i + 1);
    }
  }

  /** A tile of the area's own, at its `zmax`. */
  ghost predicate IsOwn(area: Area, x: int, y: int) {
    Address(area.zmax, x, y) in UnderRange(area.tiles15, area.zmax)
  }

  /** The projection's two facts: an area's part of the box lies in the box, and has every tile of the
      box under the area. */
  ghost predicate PartsOfBox(areas: seq<Area>, box: nat -> Range, parts: seq<Range>)
    requires |parts| == |areas|
  {
    forall i, x, y :: 0 <= i < |areas| ==>
      (In(parts[i], x, y) ==> In(box(areas[i].zmax), x, y)) &&
      (areas[i].zmax > MBTILES_ZMAX && In(box(areas[i].zmax), x, y) && IsOwn(areas[i], x, y) ==> In(parts[i], x, y))
  }

  /** What the list holds past z16: the box's tiles at the `zmax` of the area that answers for them. */
  lemma ListedPastZ16(areas: seq<Area>, box: nat -> Range, parts: seq<Range>, a: Address)
    requires |parts| == |areas| && PartsOfBox(areas, box, parts) && a.z > MBTILES_ZMAX
    ensures a in Wanted(areas, box, parts, |areas|) <==>
            In(box(a.z), a.x, a.y) &&
            exists i: nat :: i < |areas| && areas[i].zmax == a.z &&
              TileArchive(areas, Slope, a.z, a.x, a.y) == FromArea(i)
  {
    forall i: nat | i < |areas| && areas[i].zmax == a.z && TileArchive(areas, Slope, a.z, a.x, a.y) == FromArea(i)
      ensures In(box(a.z), a.x, a.y) <==> a in Finer(areas, parts[i], i)
    {
      RoutedIsBuilt(areas, Slope, a.z, a.x, a.y, i);
    }
  }

  // ------------------------------------------------------- what each tile draws

  /** The layers an export may ask for. */
  datatype Drawn = Hillshade | SlopeBands | ContourLines

  /** A layer's own file: the statewide one, or an area's. */
  datatype Source = StatewideFile | AreaFile(i: nat)

  function Members(s: seq<Drawn>): set<Drawn> {
    set l | l in s
  }

  function ArchiveOf(l: Drawn): Layer {
    match l
    case Hillshade => Heights
    case SlopeBands => Slope
    case ContourLines => Contours
  }

  /** Both raster layers are answered alike. */
  function LayerAnswer(areas: seq<Area>, l: Drawn, a: Address): (answer: Answer)
    ensures answer.FromArea? ==> answer.i < |areas|
    ensures answer == TileArchive(areas, if l == ContourLines then Contours else Slope, a.z, a.x, a.y)
  {
    HeightsRouteAsSlope(areas, a.z, a.x, a.y);
    TileArchive(areas, ArchiveOf(l), a.z, a.x, a.y)
  }

  /** The contour tile a tile draws: itself, or its z14 parent from z15 up. */
  function ContourParent(a: Address): Address {
    var cz := if a.z < CONTOUR_ZOOM then a.z else CONTOUR_ZOOM;
    Address(cz, Up(a.x, a.z - cz), Up(a.y, a.z - cz))
  }

  /** `p` has tile `a` under it, at z14 or at `a`'s own zoom if that is coarser. */
  predicate IsContourParent(a: Address, p: Address) {
    p.z == (if a.z < 14 then a.z else 14) &&
    var side := Pow2(a.z - p.z);
    p.x * side <= a.x < p.x * side + side && p.y * side <= a.y < p.y * side + side
  }

  lemma ContourParentIsOver(a: Address)
    ensures IsContourParent(a, ContourParent(a))
  {
    var p := ContourParent(a);
    UpIsRange(a.x, a.z - p.z, p.x, p.x * Pow2(a.z - p.z));
    UpIsRange(a.y, a.z - p.z, p.y, p.y * Pow2(a.z - p.z));
  }

  /** Tile `a` draws layer `l` from area `i`. `files` are the areas' own contour tiles. */
  predicate DrawsFrom(areas: seq<Area>, files: seq<set<Address>>, wanted: set<Drawn>, l: Drawn, a: Address, i: nat)
    requires |files| == |areas|
  {
    LayerAnswer(areas, l, a) == FromArea(i) && (if l == ContourLines then ContourParent(a) in files[i] else l in wanted)
  }

  ghost predicate CreditsAre(areas: seq<Area>, files: seq<set<Address>>, wanted: set<Drawn>, drew: seq<set<Drawn>>,
                             tiles: seq<Address>)
    requires |files| == |areas|
  {
    |drew| == |areas| && forall i: nat, l :: i < |areas| ==>
      (l in drew[i] <==> DrawnIn(areas, files, wanted, l, tiles, i))
  }

  ghost predicate DrawnIn(areas: seq<Area>, files: seq<set<Address>>, wanted: set<Drawn>, l: Drawn,
                          tiles: seq<Address>, i: nat)
    requires |files| == |areas|
  {
    exists a :: a in tiles && DrawsFrom(areas, files, wanted, l, a, i)
  }

  /** What `tile_rasters` chooses for a tile. */
  ghost predicate Chosen(areas: seq<Area>, wanted: set<Drawn>, a: Address, chosen: map<Drawn, Source>) {
    forall l :: (l in chosen <==> l in wanted && (LayerAnswer(areas, l, a).FromArea? || a.z <= MBTILES_ZMAX)) &&
                (l in chosen ==>
                 chosen[l] == match LayerAnswer(areas, l, a) case FromArea(i) => AreaFile(i) case _ => StatewideFile)
  }

  /** `drew` with the layers of `wanted` that tile `a` draws from each area. */
  ghost predicate Credited(areas: seq<Area>, wanted: set<Drawn>, a: Address, before: seq<set<Drawn>>,
                           after: seq<set<Drawn>>) {
    |before| == |after| == |areas| &&
    forall i: nat, l :: i < |areas| ==>
      (l in after[i] <==> l in before[i] || (l in wanted && LayerAnswer(areas, l, a) == FromArea(i)))
  }

  /** `tile_rasters`, crediting each area it chooses. */
  method TileRasters(areas: seq<Area>, rasters: seq<Drawn>, a: Address, drew: array<set<Drawn>>)
    returns (chosen: map<Drawn, Source>)
    requires drew.Length == |areas|
    modifies drew
    ensures Chosen(areas, Members(rasters), a, chosen)
    ensures Credited(areas, Members(rasters), a, old(drew[..]), drew[..])
  {
    chosen := map[];
    for n := 0 to |rasters|
      invariant Chosen(areas, Members(rasters[..n]), a, chosen)
      invariant Credited(areas, Members(rasters[..n]), a, old(drew[..]), drew[..])
    {
      var l := rasters[n];
      var answer := LayerAnswer(areas, l, a);
      assert rasters[..n + 1] == rasters[..n] + [l];
      if answer.FromArea? {
        chosen := chosen[l := AreaFile(answer.i)];
        drew[answer.i] := drew[answer.i] + {l};
      } else if a.z <= MBTILES_ZMAX {
        chosen := chosen[l := StatewideFile];
      }
    }
    assert rasters[..|rasters|] == rasters;
  }

  /** `contour_tile`. */
  method ContourTile(areas: seq<Area>, files: seq<set<Address>>, statewide: set<Address>, a: Address,
                     drew: array<set<Drawn>>)
    returns (drawn: Option<(Source, Address)>)
    requires drew.Length == |areas| == |files|
    modifies drew
    ensures drawn.Some? ==> IsContourParent(a, drawn.value.1)
    ensures match TileArchive(areas, Contours, a.z, a.x, a.y)
            case FromArea(i) =>
              drawn == if ContourParent(a) in files[i] then Some((AreaFile(i), ContourParent(a))) else None
            case _ => drawn == if ContourParent(a) in statewide then Some((StatewideFile, ContourParent(a))) else None
    ensures Credited(areas, if drawn.Some? then {ContourLines} else {}, a, old(drew[..]), drew[..])
  {
    var parent := ContourParent(a);
    ContourParentIsOver(a);
    var answer := LayerAnswer(areas, ContourLines, a);
    var found := parent in if answer.FromArea? then files[answer.i] else statewide;
    if found && answer.FromArea? {
      drew[answer.i] := drew[answer.i] + {ContourLines};
    }
    drawn := if found then Some((if answer.FromArea? then AreaFile(answer.i) else StatewideFile, parent)) else None;
  }

  lemma CreditsGrow(areas: seq<Area>, files: seq<set<Address>>, wanted: set<Drawn>, tiles: seq<Address>, a: Address,
                    before: seq<set<Drawn>>, after: seq<set<Drawn>>)
    requires |files| == |areas| && CreditsAre(areas, files, wanted, before, tiles) && |after| == |areas|
    requires forall i: nat, l :: i < |areas| ==>
               (l in after[i] <==> l in before[i] || DrawsFrom(areas, files, wanted, l, a, i))
    ensures CreditsAre(areas, files, wanted, after, tiles + [a])
  {
    forall i: nat, l | i < |areas| ensures l in after[i] <==> DrawnIn(areas, files, wanted, l, tiles + [a], i) {
      assert DrawnIn(areas, files, wanted, l, tiles + [a], i) <==>
             DrawnIn(areas, files, wanted, l, tiles, i) || DrawsFrom(areas, files, wanted, l, a, i) by {
        if DrawsFrom(areas, files, wanted, l, a, i) { assert a in tiles + [a]; }
        if DrawnIn(areas, files, wanted, l, tiles, i) {
          var b :| b in tiles && DrawsFrom(areas, files, wanted, l, b, i);
          assert b in tiles + [a];
        }
      }
    }
  }

  /** The jobs: every listed tile's sources. An area is credited for exactly the layers some tile
      draws from it. */
  method Jobs(areas: seq<Area>, tiles: seq<Address>, rasters: seq<Drawn>, files: seq<set<Address>>,
              statewide: set<Address>)
    returns (credits: seq<set<Drawn>>)
    requires |files| == |areas| && ContourLines !in rasters
    ensures CreditsAre(areas, files, Members(rasters), credits, tiles)
  {
    ghost var wanted := Members(rasters);
    var drew := new set<Drawn>[|areas|](_ => {});
    for n := 0 to |tiles|
      invariant CreditsAre(areas, files, wanted, drew[..], tiles[..n])
    {
      ghost var before := drew[..];
      var _ := TileRasters(areas, rasters, tiles[n], drew);
      var _ := ContourTile(areas, files, statewide, tiles[n], drew);
      assert LayerAnswer(areas, ContourLines, tiles[n]) ==
             TileArchive(areas, Contours, tiles[n].z, tiles[n].x, tiles[n].y);
      CreditsGrow(areas, files, wanted, tiles[..n], tiles[n], before, drew[..]);
      assert tiles[..n + 1] == tiles[..n] + [tiles[n]];
    }
    assert tiles[..|tiles|] == tiles;
    credits := drew[..];
  }

  /** A listed tile has every raster layer asked for; past z16 each comes from the one area that has
      the tile at its own `zmax`. */
  lemma ListedTileHasItsLayers(areas: seq<Area>, box: nat -> Range, parts: seq<Range>, wanted: set<Drawn>, a: Address,
                               chosen: map<Drawn, Source>)
    requires |parts| == |areas| && ContourLines !in wanted
    requires a in Wanted(areas, box, parts, |areas|) && Chosen(areas, wanted, a, chosen)
    ensures chosen.Keys == wanted
    ensures a.z > MBTILES_ZMAX ==>
              exists i: nat :: i < |areas| && areas[i].zmax == a.z &&
                forall l :: l in wanted ==> chosen[l] == AreaFile(i)
  {
    if a.z > MBTILES_ZMAX {
      var i :| 0 <= i < |areas| && a in Finer(areas, parts[i], i);
      HeightsRouteAsSlope(areas, a.z, a.x, a.y);
      assert forall l :: l in wanted ==> LayerAnswer(areas, l, a) == FromArea(i);
      assert forall l :: l in wanted ==> l in chosen && chosen[l] == AreaFile(i);
    }
    assert forall l :: l in wanted <==> l in chosen;
  }

  lemma {:induction false} HeightsRouteAsSlopeFrom(areas: seq<Area>, from: nat, z: nat, x: int, y: int)
    requires from <= |areas| && z >= 15
    ensures AnswerFrom(areas, from, Heights, z, x, y) == AnswerFrom(areas, from, Slope, z, x, y)
    decreases |areas| - from
  {
    if from < |areas| { HeightsRouteAsSlopeFrom(areas, from + 1, z, x, y); }
  }

  lemma HeightsRouteAsSlope(areas: seq<Area>, z: nat, x: int, y: int)
    ensures TileArchive(areas, Heights, z, x, y) == TileArchive(areas, Slope, z, x, y)
  {
    if z >= 15 { HeightsRouteAsSlopeFrom(areas, 0, z, x, y); }
  }
}
