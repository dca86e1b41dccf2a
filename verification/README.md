# Logjam terrain, places and jobs: a verified model

Logjam draws terrain maps of New South Wales from LiDAR and statewide heights, keeps a registry of
place names, and makes per-user map products in background jobs. This project models the algorithms
behind that in Dafny and proves what each is for.

| file | what it models |
|---|---|
| `PriorityFlood.dfy` | the filled surface and flow directions of the sign-in terrain |
| `Clusters.dfy`, `Grouping.dfy`, `PlaceMerge.dfy` | which place objects are one feature, and the row that stands for them |
| `NearestGrid.dfy`, `PlaceRegistry.dfy`, `Sorting.dfy` | the nearest-settlement index and the sorted registry with its `near` column |
| `BlockSlope.dfy` | slope computed block by block |
| `TilePyramid.dfy`, `TileArchive.dfy` | the tile pyramid, reduced in blocks and then across them, and the packed archive |
| `SlopeArchive.dfy` | the slope archive end to end, from a height archive to the packed table |
| `Terrarium.dfy` | heights as RGB bytes, and the steps they are rounded to |
| `TileRouting.dfy` | who builds a sharpened area's tiles, and which archive each map tile reads |
| `Closing.dfy`, `Windows.dfy`, `BoxFilters.dfy`, `Gaussian.dfy`, `Dashes.dfy` | raster and line kernels |
| `JobLifecycle.dfy` | the job row, its workers, the reaper and deletes as a transition system |
| `ProfileCache.dfy`, `CompletedJobs.dfy` | two pieces of per-user state in the web client |

Conventions. Numbers are exact reals: IEEE rounding is not the point of any of these algorithms, and
no-data (NaN) is `None`. Results of `cos`, `exp`, `arctan`, `hypot` and the map projection are
parameters, with only the range or sign facts the code relies on: the cosine of a place's latitude lies in [0, 1],
`math.hypot(1, 1)` in [1, 2], Gaussian weights are positive, distances are not negative. A raster is a
function from global pixel row and column; an array method states which raster its array shows. Zoom
arithmetic by shifts is division by two rounding down (`Up(a, k)` is `a >> k`).

The job model assumes that `update_status` is one atomic transaction and that an exception from it
means nothing was committed. Prefix deletes may remove any part of what they are asked to. At any step the
reaper may fail a pending or processing job; at any step and any status a delete of the job or of its
owner's account may read the row, purge objects or remove the row; and any worker may be killed or raise. One write is outside the model:
when launching a task fails, or storing its ARN does after it launched, the API sets `failed` without a
status guard (api/src/routes/topoJobs.ts:422-436).

What the proofs found in the code:

- `_binary_close` says its element is square; its passes use the four neighbours, so it is a diamond,
  and that is what is modelled. A straight gap is bridged exactly when it is at most twice the radius
  wide (the documentation says narrower).
- Re-encoding a decoded terrarium pixel gives the same bytes except for heights that round to between
  -32768 (not included) and -32000: those decode as no-data (`Terrarium.ReencodeIsIdentity`).
- A delete that reads a job's bytes before the job has any, and removes the row after it completed, leaves
  the whole charge on the owner: `JobLifecycle.EarlyReadKeepsTheCharge` is such a run. A refund is exact if
  and only if the bytes read are the row's at commit (`RefundIsExactIff`); a read of a finished row always
  is, and DELETE reads one unless it first found the row `uploading` (`CancelledIsFinished`).
- `useCompletedTopoJobs` aborts a sign-in stretch in an effect, which runs after the render that signs
  out. An answer handled between the two is stored, and is still there when the next user signs in:
  `CompletedJobs.GapShowsTheLastUsersList` is such a run, and `CompletedJobs.ShownIffNoLeak` proves it
  is the only way. Signing out forgets the list itself during the render.
- A tile pyramid of sharpened areas and its router agree only because ranges are widened to whole z14
  tiles (`TileRouting.InBlocks`).

## Model

| member | source | states |
|---|---|---|
| PriorityFlood.StepsAreNeighbours | frontend/scripts/sign_in_terrain.py:157 | the eight steps are exactly the eight neighbours |
| PriorityFlood.DirectionsTurnClockwise | frontend/scripts/sign_in_terrain.py:157 | direction 0 is north and each next one 45 degrees clockwise |
| PriorityFlood.FloodedDrains | frontend/scripts/sign_in_terrain.py:167-180 | the flooded surface is the terrain's height on the border, nowhere below it, and every inner cell has a neighbour at least 1e-3 lower |
| PriorityFlood.FloodedIsLeast | frontend/scripts/sign_in_terrain.py:167-180 | it lies pointwise below every other surface that drains so |
| PriorityFlood.FloodedIsUnique | frontend/scripts/sign_in_terrain.py:167-180 | only one surface satisfies the flooding equations, so the order of equal heights cannot matter |
| PriorityFlood.HeapPop | frontend/scripts/sign_in_terrain.py:173 | the heap gives up a least entry by height, row, column and keeps the rest |
| PriorityFlood.PopKeepsFlooding | frontend/scripts/sign_in_terrain.py:172-180 | one turn of the loop keeps the invariant: pops never fall, and every given cell is explained by a popped neighbour |
| PriorityFlood.EmptyQueueIsFlooded | frontend/scripts/sign_in_terrain.py:172-180 | when the queue is empty the surface is flooded: every cell was given a height |
| PriorityFlood.SeedBorder | frontend/scripts/sign_in_terrain.py:167-171 | the border is seeded with the terrain's own heights, on every grid size, one row and one column included |
| PriorityFlood.Expand | frontend/scripts/sign_in_terrain.py:173-180 | a popped cell gives exactly its unseen neighbours max(h, z + 1e-3), and queues them |
| PriorityFlood.DrainQueue | frontend/scripts/sign_in_terrain.py:172-180 | the loop ends and floods the grid |
| PriorityFlood.Flood | frontend/scripts/sign_in_terrain.py:163-180 | the array loop computes the flooded surface of the heights |
| PriorityFlood.ScanIsSteepest | frontend/scripts/sign_in_terrain.py:184-190 | the direction kept drops within 1e-9 of the steepest, and more than any before it |
| PriorityFlood.DirectionIsSteepest | frontend/scripts/sign_in_terrain.py:184-190 | with no division: to every other neighbour the fall over its distance (1, or the diagonal when neither row nor column is shared) is within 1e-9 a unit of the chosen one's, and less if that direction comes before; OUTLET means no neighbour falls by more than 1e-9 a unit |
| PriorityFlood.DirectionDescends | frontend/scripts/sign_in_terrain.py:181-190 | a direction is OUTLET or leads to a strictly lower cell of the grid |
| PriorityFlood.InnerCellsAreNotOutlets | frontend/scripts/sign_in_terrain.py:181-190 | no inner cell is an OUTLET |
| PriorityFlood.TrailLeavesTheMap | frontend/scripts/sign_in_terrain.py:181-190 | following directions from any cell strictly descends and ends at an OUTLET cell of the border |
| PriorityFlood.TryDirection | frontend/scripts/sign_in_terrain.py:184-190 | one direction updates the best drop of every cell as the cell-wise scan does |
| PriorityFlood.Flow | frontend/scripts/sign_in_terrain.py:161-190 | the whole function: every cell of the direction array has the steepest fall per unit of distance of the flooded surface, in those terms, or OUTLET |
| Clusters.Root | topo/build_place_registry.py:296-300 | path halving ends at the representative and keeps every representative |
| Clusters.Union | topo/build_place_registry.py:312 | joining two members merges exactly their two classes |
| Clusters.UnionIsSound | topo/build_place_registry.py:311-312 | joining touching members never puts unchained members together |
| Clusters.WestOrder | topo/build_place_registry.py:304 | every member once and none twice, by west edge |
| Clusters.LoopTestIsTouch | topo/build_place_registry.py:309-312 | in west order the loop's three comparisons are the symmetric "bboxes within the gap" |
| Clusters.BreakLosesNothing | topo/build_place_registry.py:309-310 | the early break skips no touching pair |
| Clusters.LinkedBack | topo/build_place_registry.py:293 | being chained is symmetric, although the sweep only looks east |
| Clusters.SweepOne | topo/build_place_registry.py:305-312 | one member's sweep joins every later member that touches it, and undoes no join |
| Clusters.SweptRootsAreComponents | topo/build_place_registry.py:302-312 | after the sweep two members share a root exactly when a chain of touching bboxes joins them |
| Clusters.ClustersOf | topo/build_place_registry.py:292-316 | the clusters are exactly the connected components, each member in one, in input order |
| Grouping.KeysMetHolds | topo/build_place_registry.py:313-316 | a `defaultdict(list)` pass has each key once, and no others |
| Grouping.Append | topo/build_place_registry.py:279 | appending under a key keeps the order keys were met and every other list |
| Grouping.GatherOne | topo/build_place_registry.py:314-315 | filing one item under its key keeps every list as the items of its key in order |
| Grouping.ListsAreComponents | topo/build_place_registry.py:313-316 | lists by representative are the components of the relation the representatives decide |
| PlaceMerge.AlikeIsSameKey | topo/build_place_registry.py:275-276 | two objects are filed together exactly when they share a name and are both lines whose kinds agree before the first "=", or neither a line and of one kind |
| PlaceMerge.SameFeatureIsAlike | topo/build_place_registry.py:266-276 | merging never crosses names, a line and a non-line, two lines' kind keys or two non-lines' kinds |
| PlaceMerge.OneKeyIsOneRow | topo/build_place_registry.py:266-276 | two touching lines of one name with kinds `k=v` and `k=w` stand in one row |
| PlaceMerge.GroupChainIsChain | topo/build_place_registry.py:273-280 | a chain within one group is a chain over all objects |
| PlaceMerge.ChainIsGroupChain | topo/build_place_registry.py:273-280 | a chain over all objects with one key is a chain within its group |
| PlaceMerge.AddGroup | topo/build_place_registry.py:278-280 | the components of one more group extend the components so far |
| PlaceMerge.NearestIsToTheMean | topo/build_place_registry.py:281-283 | the point kept is nearest the point the members' deviations from which add to nothing |
| PlaceMerge.CountIsMultiplicity | topo/build_place_registry.py:284 | a kind's count is its multiplicity among the members' kinds |
| PlaceMerge.PickNearest | topo/build_place_registry.py:281-283 | the point kept is the first member's of those nearest the mean, where deviations add to nothing |
| PlaceMerge.CommonestKind | topo/build_place_registry.py:284 | the kind kept is, of those of greatest multiplicity among the members, the first met |
| PlaceMerge.AllAlternates | topo/build_place_registry.py:285-287 | the alternates are every one no earlier member has, in the order met; so exactly the members', without repeats if no member repeats one |
| PlaceMerge.RowOf | topo/build_place_registry.py:281-288 | the row stands for its cluster in all of these |
| PlaceMerge.Merge | topo/build_place_registry.py:263-289 | one row per feature: the rows stand for the components, over all objects, of "bboxes within the gap, one name, and both lines of one kind key or neither a line and of one kind" |
| NearestGrid.ColumnIsTenths | topo/build_place_registry.py:233-234 | a cell is a tenth of a degree, its lower edge in |
| NearestGrid.DistanceIsShrunk | topo/build_place_registry.py:242-250 | the distance is Pythagoras' in degrees, those of longitude shrunk by the latitude's cosine |
| NearestGrid.BeyondRingIsFar | topo/build_place_registry.py:253-255 | a point in a further ring is at least the ring's width away, under the shrunk metric |
| NearestGrid.NearIsNearestOfAll | topo/build_place_registry.py:253-255 | so a point within reach that is nearest of the rings searched is nearest of all |
| NearestGrid.Grid.constructor | topo/build_place_registry.py:226-234 | every point is filed in its own cell and nowhere else |
| NearestGrid.Grid.SearchRing | topo/build_place_registry.py:244-252 | a ring visits exactly the cells at that distance, so the answer extends to the points in them |
| NearestGrid.Grid.Nearest | topo/build_place_registry.py:236-256 | no other point of the rings searched but `exclude` is nearer in that metric; None exactly when they hold none; globally nearest when it stops early |
| PlaceRegistry.TierOfPlace | topo/build_place_registry.py:94-101 | the tier of `place=...` is the source table's |
| PlaceRegistry.StringLeqIsDictionaryOrder | topo/build_place_registry.py:324 | names compare as in a dictionary: equal, or a proper prefix, or less where they first differ |
| PlaceRegistry.RowLeqIsTotal | topo/build_place_registry.py:324 | the sort key is a total order on rows |
| PlaceRegistry.SortedIsInOrder | topo/build_place_registry.py:324 | sorted rows are settlements first, then by name in dictionary order, then from the west |
| Sorting.SortedIsStable | topo/build_place_registry.py:324 | rows the key cannot tell apart keep their order |
| PlaceRegistry.SortedPutsSettlementsFirst | topo/build_place_registry.py:322-324 | after the sort settlements are a prefix |
| PlaceRegistry.NearOf | topo/build_place_registry.py:349-357 | `near` is a nearest settlement of the row's own tier or bigger when one is in reach, else of any tier, else -1 |
| PlaceRegistry.NearIsAnotherSettlement | topo/build_place_registry.py:319-362 | it is -1 exactly when no other settlement is in reach, and otherwise a different row of the settlement prefix, of the tier asked |
| PlaceRegistry.NearIsInDegrees | topo/build_place_registry.py:325-357 | with no grid: among other settlements at most five tenth-of-a-degree cells away each way, of the row's own tier or bigger if there are any and else of any tier, none is nearer in shrunk degrees; -1 exactly when there are none |
| PlaceRegistry.NearColumn | topo/build_place_registry.py:347-362 | the column has that for every row |
| PlaceRegistry.Registry | topo/build_place_registry.py:319-362 | a stable sort of the merged rows into that order, settlements a prefix, each row with its `near`, in degrees |
| BlockSlope.HornNeedsAllNine | topo/build_nsw_dem.py:173-189 | the slope is no-data when any of the nine heights is |
| BlockSlope.HornGradient | topo/build_nsw_dem.py:182-189 | a slope exactly when all nine heights are known (for a positive pixel size), of the gradient whose eightfold is the row rises with the middle one twice |
| BlockSlope.HornOfPlane | topo/build_nsw_dem.py:182-189 | on a plane it is the plane's own gradient |
| BlockSlope.ReadTiles | topo/build_nsw_dem.py:514-524 | the padded grid is the global heights of the block and its ring, and `present` says which tiles exist |
| BlockSlope.WindowIsAround | topo/build_nsw_dem.py:535-538 | a window of the padded grid is the nine global pixels about the pixel |
| BlockSlope.AbsentStripHasNoSlope | topo/build_nsw_dem.py:529-534 | where three tile rows have no tile the whole raster's slope is no-data too, so the skip changes nothing |
| BlockSlope.OneStrip | topo/build_nsw_dem.py:527-538 | a strip, skipped or computed, is the whole raster's slope there |
| BlockSlope.BlockSlopeOf | topo/build_nsw_dem.py:502-539 | every pixel of a block equals Horn over the one global height field with its global row's pixel size: no seam, for any block and block size |
| BlockSlope.BlockWithoutTilesHasNoSlope | topo/build_nsw_dem.py:587-593 | a block with no tile of its own has no slope, so leaving it out of the work loses nothing |
| TilePyramid.BothLayersKeepKnown | topo/build_nsw_dem.py:110-131 | both reductions are no-data exactly when all four pixels are |
| TilePyramid.Mean4IsMean | topo/build_nsw_dem.py:110-119 | the known of four deviate from their mean by nothing in all, however many they are |
| TilePyramid.ReducedIsKnown | topo/build_nsw_dem.py:320-333 | at any zoom a pixel is known exactly when something known lies under it |
| TilePyramid.SlopeIsSteepestUnder | topo/build_nsw_dem.py:122-131 | at any zoom a slope pixel is the greatest of all known pixels under it |
| TilePyramid.HalveShows | topo/build_nsw_dem.py:320-333 | halving a block's grid gives the whole raster's next zoom there |
| TilePyramid.ShownIsHeld | topo/build_nsw_dem.py:243-246 | `valid.any()` holds exactly when a known pixel of the deepest zoom lies under the tile |
| TilePyramid.TilesOf | topo/build_nsw_dem.py:238-246 | exactly the grid's tiles with something known under them, each once and right |
| TilePyramid.UpIsRange | topo/build_nsw_dem.py:328-329 | what lies under a block at a deeper zoom is a run of 2^k from its first |
| TilePyramid.ExactlyJoins | topo/build_nsw_dem.py:434-440 | tile sets over disjoint addresses join without a repeat |
| TilePyramid.BlockPyramid | topo/build_nsw_dem.py:320-339 | a block reduced on its own has exactly the tiles of the whole raster under it, at every zoom, and ends with its own tile's grid |
| TileArchive.QuadPixel | topo/build_nsw_dem.py:403-410 | the four children side by side are the whole raster at their zoom: a missing one has nothing known under it |
| TileArchive.ParentShows | topo/build_nsw_dem.py:403-411 | a parent reduced from the children there are is the whole raster's tile |
| TileArchive.CoarserLevel | topo/build_nsw_dem.py:400-413 | one zoom across blocks: exactly the tiles with something known under them |
| TileArchive.CoarseTiles | topo/build_nsw_dem.py:394-413 | z9 and z8, whatever the block partition |
| TileArchive.HeldWithAChild | topo/build_nsw_dem.py:402 | a tile is held exactly when one of its four children is: the archive is closed under parent |
| TileArchive.AllBlockTiles | topo/build_nsw_dem.py:434-439 | the block files together hold z10 to z15, each tile once |
| TileArchive.FlippedIsUnique | topo/build_nsw_dem.py:431-443 | row-flipped addresses stay distinct, so the unique index cannot fail |
| TileArchive.FlippedIsTable | topo/build_nsw_dem.py:431-443 | at every zoom the rows, counted from the south, are exactly the tiles with a known pixel under them |
| TileArchive.ExtremesAreTight | topo/build_nsw_dem.py:446-456 | the bounds are the least box of tiles over the z15 tiles there are |
| TileArchive.Pack | topo/build_nsw_dem.py:416-456 | the table has one row (z, x, 2^z - 1 - y) for each tile of z8 to z15 with a known pixel under it, no other, each holding the whole raster's tile; the bounds are tight; it gives up exactly when nothing is known |
| TileArchive.BlockTileMeansDeepTile | topo/build_nsw_dem.py:587-593 | a z10 tile exists exactly where one of its z15 tiles does |
| SlopeArchive.PackedIsClosed | topo/build_nsw_dem.py:587-593 | so the reader of any archive `pack` made finds a z10 tile exactly where it finds a z15 tile under it |
| SlopeArchive.SlopeIsInABlock | topo/build_nsw_dem.py:587-593 | wherever the whole raster has slope, the block over it has a z10 height tile |
| SlopeArchive.SlopeBlock | topo/build_nsw_dem.py:542-548 | a block's saved tiles are exactly the whole raster's slope tiles under it |
| SlopeArchive.SlopeBlocks | topo/build_nsw_dem.py:588-602 | the blocks worked leave `pack` every slope tile it needs |
| SlopeArchive.BuildSlope | topo/build_nsw_dem.py:561-610 | the slope archive's table is that of the whole raster's slope pyramid: one row (z, x, 2^z - 1 - y) for each tile with slope under it, z8 to z15, whatever blocks the heights fell into |
| Terrarium.SplitIsExact | topo/build_nsw_dem.py:103-107 | three bytes hold any whole number of 256ths below 65536 exactly |
| Terrarium.EncodeIsPositional | topo/build_nsw_dem.py:102-107 | the bytes are the 256s, ones and 256ths of a metre above -32768, in that order |
| Terrarium.RoundTrip | topo/build_nsw_dem.py:94-107 | each channel fits a byte, and a height comes back as its rounded value if that is above -32000, else as no-data |
| Terrarium.RoundedIsNear | topo/build_nsw_dem.py:102 | the rounded value is within half a step |
| Terrarium.RoundedTwice | topo/build_nsw_dem.py:102 | rounding again changes nothing |
| Terrarium.NoDataRoundTrip | topo/build_nsw_dem.py:99-103 | no-data is (0, 0, 0) and comes back |
| Terrarium.ReencodeIsIdentity | topo/build_nsw_dem.py:157-161 | decoding and encoding again gives the same bytes exactly for no-data, for heights rounding above -32000, and for -32768 |
| Terrarium.RoundingHalves | topo/sharpen.py:218-226 | heights are rounded to a quarter metre at z15 and half that each zoom deeper, slopes to a degree |
| Terrarium.EveryStepIsExact | topo/sharpen.py:218-226 | every step `rounding_at` makes from zoom 15 to 21 is one the bytes hold exactly |
| TileRouting.TileRangeIsLeast | topo/sharpen.py:158-166 | the range is the least one of whole z14 tiles over the box |
| TileRouting.InBlocks | topo/sharpen.py:169-176 | a z15 tile is in the range exactly when its z14 parent is one of its blocks |
| TileRouting.BuildArchive | topo/sharpen.py:229-236 | the pyramids of the range's blocks hold each z15 to zmax address under the range with a value exactly once |
| TileRouting.RoutesToFirst | topo/area_export.py:247-268 | a tile is read from the first area over it, down to its zmax; statewide answers exactly below the routed zoom and where no area covers (rasters only at z15) |
| TileRouting.RasterRoutesToFirst | topo/area_export.py:247-268 | a height or slope tile is answered by area `i` exactly when it lies under its range to its zmax and under no earlier area's range; statewide exactly at coarser zooms than z15, and at z15 under no area's range |
| TileRouting.ContoursRouteToFirst | topo/area_export.py:252-267 | and a contour tile by the first area with contours whose blocks hold its z14 ancestor; statewide exactly when there is none |
| TileRouting.RoutedIsBuilt | topo/area_export.py:258-265 | an area is asked only for tiles it was built with: under its range to its zmax, or under one of its blocks for contours |
| TileRouting.RoutedTileIsInArchive | topo/area_export.py:258-265 | a raster tile routed to an area is in its archive exactly when something is known there |
| TileRouting.ParentRoutesAlike | topo/area_export.py:257-265 | an area that answers for a tile answers for its parent |
| TileRouting.AncestorsRouteAlike | topo/area_export.py:257-265 | and for every ancestor down to the routed zoom |
| TileRouting.ContoursCoverAlike | topo/area_export.py:257-265 | an area covers a tile's contours exactly when it covers its heights |
| TileRouting.HeightsRouteAsSlope | topo/area_export.py:122 | hillshade and slope route alike |
| TileRouting.TilesForBox | topo/pipeline.py:785-792 | a box's tiles, each once |
| TileRouting.TileList | topo/area_export.py:1005-1017 | the list is the box's tiles of z11 to z16 and each finer area's own, and no tile is listed twice |
| TileRouting.ListedPastZ16 | topo/area_export.py:1009-1017 | past z16 it holds exactly the box's tiles that an area answers for at its own zmax |
| TileRouting.TileRasters | topo/area_export.py:990-1003 | each layer's file is the answering area's, else statewide down to z16; each area chosen is credited |
| TileRouting.ContourParentIsOver | topo/area_export.py:974-978 | the contour tile drawn is at min(z, 14) and has the tile under it |
| TileRouting.ContourTile | topo/area_export.py:974-988 | a tile draws its own or its z14 parent's contour file from the archive it routes to, crediting an area only when it has the file |
| TileRouting.ListedTileHasItsLayers | topo/area_export.py:990-1017 | a listed tile has every raster layer asked for; past z16 all from the one area |
| TileRouting.Jobs | topo/area_export.py:972-1030 | an area is credited for exactly the layers some listed tile draws from it |
| Closing.DilatedIsDiamond | topo/pipeline.py:1535-1541 | n dilations reach exactly the cells within n steps, in spite of the border |
| Closing.ErodedIsDiamond | topo/pipeline.py:1543-1549 | n erosions keep exactly the cells whose whole diamond in the grid is on |
| Closing.ErosionIsAdjoint | topo/pipeline.py:1551-1554 | iterated erosion is the adjoint of iterated dilation |
| Closing.ClosingIsExtensive | topo/pipeline.py:1522-1555 | closing loses no cell |
| Closing.ClosingIsMonotone | topo/pipeline.py:1522-1555 | a larger mask closes to a larger one |
| Closing.ClosingIsIdempotent | topo/pipeline.py:1522-1555 | closing again changes nothing |
| Closing.GapIsBridged | topo/pipeline.py:1522-1529 | a gap between two sides is filled exactly when it is at most twice the radius wide |
| Closing.DilateOnce | topo/pipeline.py:1535-1541 | the four shifted `or`s turn on a cell exactly when it or a neighbour is on |
| Closing.ErodeOnce | topo/pipeline.py:1543-1549 | the four shifted `and`s keep a cell exactly when its neighbours in the grid are on |
| Closing.BinaryClose | topo/pipeline.py:1522-1555 | the loops compute the closing of any radius; 0 or less gives the mask back |
| Windows.ReflectPastEnds | topo/pipeline.py:1793 | just past an end the line is read backwards from the cell beside the end one |
| Windows.ReflectRepeats | topo/pipeline.py:1793 | and it repeats after every twice its length less two, as often as a window needs |
| Windows.MirrorsDecide | topo/pipeline.py:2679 | reflection is the only reading that is its own mirror image about both end cells (one cell alone is repeated) |
| Windows.ClampIsNearest | topo/pipeline.py:2148 | edge padding reads the nearest cell of the line |
| BoxFilters.PadReflect | topo/pipeline.py:1793 | the padded grid has the array inside, and is its own mirror image about the array's first and last row and column |
| BoxFilters.WindowOfMirrored | topo/pipeline.py:1785-1803 | a window's sum is that over any grid that reads the array inside and is its own mirror image so |
| BoxFilters.RectFromCorners | topo/pipeline.py:1798-1803 | a rectangle's sum is the four-corner difference of the summed-area table |
| BoxFilters.SummedArea | topo/pipeline.py:1793-1795 | the table holds the sum of every rectangle from the origin |
| BoxFilters.BoxSum | topo/pipeline.py:1785-1803 | each cell is the direct sum of its centred window, reflected past the edges; an even window is an error |
| BoxFilters.WindowFromRunning | topo/pipeline.py:2147-2152 | two running sums of the padded line differ by the centred, edge-padded window |
| BoxFilters.BlurAxis | topo/pipeline.py:2145-2152 | one pass along one axis is the centred mean |
| BoxFilters.BoxBlur | topo/pipeline.py:2138-2153 | any number of passes are that many such means, of the least odd window at least as wide as asked |
| BoxFilters.PassIsMean | topo/pipeline.py:2145-2152 | each pass is, at each cell, the mean of the square about it with edge cells repeated; no pass changes nothing |
| BoxFilters.BlurStaysWithin | topo/pipeline.py:2138-2153 | values stay between the least and the greatest, so a mask stays in [0, 1] |
| BoxFilters.OnesStayOnes | topo/pipeline.py:2138-2153 | an all-ones mask stays all ones |
| Gaussian.Normalised | topo/pipeline.py:2697-2699 | every weight is its share of the total, so the kernel is positive and adds to one |
| Gaussian.PadReflectAlong | topo/pipeline.py:2676-2679 | the padded grid has the array inside, and is its own mirror image about its first and last line |
| Gaussian.Blur1d | topo/pipeline.py:2671-2686 | shift and accumulate is the weighted sum over the line reflected past its ends |
| Gaussian.DownIsConvolution | topo/pipeline.py:2680-2686 | a pass down weighs by the kernel any line that reads the column inside and is its own mirror image about its ends |
| Gaussian.AcrossIsConvolution | topo/pipeline.py:2680-2686 | and so a pass across, with the row |
| Gaussian.GaussianBlur | topo/pipeline.py:2689-2700 | across then down; a sigma of 0 or less copies |
| Gaussian.QuotientOrKept | topo/pipeline.py:2715-2716 | where the blurred mask passes 1e-6 the result times it is the blurred values, and elsewhere it is the value itself |
| Gaussian.NormalizedGaussian | topo/pipeline.py:2703-2717 | blurred values over the blurred mask where that passes 1e-6, the values elsewhere |
| Gaussian.SmoothedIsBetween | topo/pipeline.py:2703-2717 | wherever the blurred mask passes, the result lies between any bounds of the valid values: no-data never bleeds in |
| Gaussian.InvalidIsIgnored | topo/pipeline.py:2703-2717 | there it does not depend on what stands at invalid cells |
| Gaussian.ValidPasses | topo/pipeline.py:2712-2716 | a valid cell passes if the square of the kernel's centre weight does |
| Gaussian.LoneCellPassesIff | topo/pipeline.py:2712-2716 | and that bound is exact: a lone valid cell away from the edges passes if and only if it does |
| Gaussian.AllValidIsPlain | topo/pipeline.py:2703-2717 | with every cell valid it is the plain Gaussian |
| Dashes.PhaseGrows | topo/pipeline.py:888 | within a period the phase grows with distance |
| Dashes.PhaseIsRemainder | topo/pipeline.py:888 | the phase is what is left in [0, period) after whole periods, and nothing else is |
| Dashes.BoundariesGrow | topo/pipeline.py:887-896 | the count of dash boundaries passed never falls: what ends the inner loop |
| Dashes.LegEnds | topo/pipeline.py:891-892 | a leg's ends are drawn at its points, so dashes meet at a bend |
| Dashes.PointIsProportional | topo/pipeline.py:890-892 | a point on a leg moves in proportion to the distance along it |
| Dashes.DrawOne | topo/pipeline.py:887-896 | a turn draws exactly the rest of a dash or skips exactly the rest of a gap, and passes one boundary or ends the leg |
| Dashes.DrawLeg | topo/pipeline.py:886-896 | a leg draws exactly its distances in a dash, and the loop ends |
| Dashes.DrawDashedLine | topo/pipeline.py:873-897 | what is drawn along the line is exactly the distances below the total with s mod (on + off) < on, bends and zero-length segments included |
| JobLifecycle.Store.UpdateStatus | topo/worker.py:118-165 | the row and the owner's storage change together exactly when the guard matches, and the count says so |
| JobLifecycle.StatusMoves | topo/worker.py:586-710 | which status each write takes the row from and to, that it changes nothing otherwise, and that only the `complete` write moves storage before a delete |
| JobLifecycle.ObjectsMove | topo/worker.py:233-246 | uploads add their object and only a cleaning or a purge takes any away |
| JobLifecycle.StepKeepsInv | topo/worker.py:576-720 | every step of workers, heartbeat, reaper and deletes keeps the invariant, at whatever status a delete reads the row, for both pipelines |
| JobLifecycle.RunKeepsInv | topo/export_worker.py:311-420 | so it holds at every point of every run |
| JobLifecycle.TerminalIsNeverLeft | topo/worker.py:136-142 | a complete or failed row stays as it is until it is deleted, and a deleted one neither returns nor is charged |
| JobLifecycle.OneWorkerClaims | topo/worker.py:586-599 | two workers that both ever claimed the job are one |
| JobLifecycle.HeartbeatIsHarmless | topo/worker.py:168-220 | a heartbeat changes no status, storage, object, notice or worker, and reports progress only on a processing row |
| JobLifecycle.HeartbeatRecords | topo/worker.py:207-215 | and there it records the count |
| JobLifecycle.RaiseIsReported | topo/worker.py:680-734 | a processing job whose worker raises before an outcome is written `failed`, charged nothing, and its owner told |
| JobLifecycle.CompletionIsReported | topo/worker.py:641-670 | one whose worker gets to the end is `complete` with its bytes, charged if it is a LiDAR job, and its owner told |
| JobLifecycle.LostIsCleaned | topo/worker.py:649-655 | one failed or deleted meanwhile is written nothing and charged nothing, and cleaning can remove every object |
| JobLifecycle.ChargedExactlyOnce | topo/worker.py:641-648 | the owner is charged the job's bytes exactly once if the guarded complete write matched and never otherwise; while the row exists that is what storage holds of it |
| JobLifecycle.RefundIsExactIff | api/src/lib/deleteTopoJob.ts:28-53 | a delete gives back the bytes it read, so exactly the charge if and only if they are the row's when it commits |
| JobLifecycle.FinishedReadRefunds | api/src/lib/deleteTopoJob.ts:21-31 | a delete that read a complete or failed row is always exact, whatever came between its read and its commit |
| JobLifecycle.CancelledIsFinished | api/src/routes/topoJobs.ts:636-666 | a DELETE that first found the job past `uploading` and cancels it reads it finished, or gone |
| JobLifecycle.EarlyReadKeepsTheCharge | api/src/lib/deleteTopoJob.ts:28-53 | a run in which a delete read the row while `uploading` and the completed job's charge stays |
| JobLifecycle.CompleteKeepsItsArchives | topo/worker.py:680-691 | a complete row's uploads are there until a DELETE, and no worker step removes any, exceptions after the flip included |
| JobLifecycle.LostIsCleanedAndSilent | topo/worker.py:649-655 | a worker whose terminal write matched no row cleans up or was killed, never notifies, and the row is dead |
| JobLifecycle.NoticesAreTrue | topo/worker.py:660-720 | a notice names the status the worker itself wrote, and the row has it while it exists |
| ProfileCache.StoreRefines | frontend/src/elevationCache.ts:93-99 | storing in the forty and evicting is storing in an unbounded recency list and keeping its last forty |
| ProfileCache.HitRefines | frontend/src/elevationCache.ts:73-81 | so is re-inserting a hit |
| ProfileCache.Evict | frontend/src/elevationCache.ts:95-99 | the loop keeps the last forty |
| ProfileCache.Cache.Rescope | frontend/src/elevationCache.ts:60-65 | a new scope starts a generation with nothing remembered; the same scope changes nothing |
| ProfileCache.Cache.Read | frontend/src/elevationCache.ts:73-81 | a hit among the forty used last moves to the end; a miss changes nothing |
| ProfileCache.Cache.Store | frontend/src/elevationCache.ts:87-100 | an answer asked for in another generation is dropped; else it is the entry used last |
| ProfileCache.StepKeepsInv | frontend/src/placeUtils.ts:611-622 | over requests, late answers, reads and rescopes, every entry was asked for in this generation and the list is in order of last use |
| ProfileCache.HitIsCurrent | frontend/src/elevationCache.ts:43-100 | at any point of any run a hit is an answer asked for in the current generation for exactly that key, and there is one exactly for the forty keys used last |
| CompletedJobs.StepKeepsInv | frontend/src/useCompletedTopoJobs.ts:35-90 | renders, effects, requests and answers keep: a live signal belongs to the current stretch |
| CompletedJobs.OnlyTheGapLeaks | frontend/src/useCompletedTopoJobs.ts:64-81 | from a good state only an answer between a sign-out's render and its effects can show a list to someone who did not ask for it |
| CompletedJobs.ShownIffNoLeak | frontend/src/useCompletedTopoJobs.ts:53-61 | over a whole run no list of an ended stretch is shown if and only if no answer arrives there |
| CompletedJobs.GapShowsTheLastUsersList | frontend/src/useCompletedTopoJobs.ts:63-81 | a run in which one is |
| CompletedJobs.SignInLoads | frontend/src/useCompletedTopoJobs.ts:56-88 | signing in asks for the list, and the answer is shown when it comes |
| CompletedJobs.RefetchLoads | frontend/src/useCompletedTopoJobs.ts:63-82 | so is any later answer of the stretch, at whatever point of it; a failure keeps the list there is |
| CompletedJobs.SignOutForgets | frontend/src/useCompletedTopoJobs.ts:35-43 | signing out forgets the list in the same render |

## Left out

- GDAL, PDAL, shapely, tippecanoe, Pillow, SQLite and PMTiles: foreign calls. A warp's output, a PNG and Horn's steepness formula are parameters; a sharpened block's grid is its piece of one raster.
- IEEE rounding, `float32` storage, `exp`, `cos`, `arctan`, `sinh` and the map projection: see the conventions above.
- `encode_terrarium` outside -32768 to 32768 m, where the cast to `uint8` wraps.
- PNG contents of packed tiles: the archive holds tile grids; their bytes are `Terrarium`'s subject.
- S3, Postgres, ECS, HTTP, email and push beyond the atomic effects named above; the ZIP's own deletion; a job row's footprint, metrics and error text.
- A heartbeat's skip of an unchanged count, and the unguarded `failed` write after a failed launch.
- `main` of either worker is the steps of the transition system, not a method; concurrency is the interleaving of those steps.
- `render_mbtiles` apart from its tile list, sources and credits: drawing, sorting the jobs, areas whose part of the box has no tile (the `routed` list is a parameter).
- `Registry`'s `kinds` table and scaled coordinate columns: lookups of what the rows hold.
- `profileCacheScope`'s sorted, comma-joined string: a scope is any string; `clearProfileCache` is a test seam.
- `CompletedJobs` is modelled on values, as React state is replaced rather than updated in place; expiry timers only ask again, which is a `Refetch`; `.then` and `.finally` of one answer are one step.
- The vegetation formation lookup, gauges, number input, trip drafts, notification overrides and development seeds: easy or not decided by the code.
- Gaussian.ValidPasses: one direction, because a cell with valid neighbours may pass with a smaller centre weight; `LoneCellPassesIff` shows the bound cannot be improved.
- NearestGrid.Grid.Nearest: distances are compared squared, which orders them alike.
