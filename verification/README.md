# Verified model of the LiDAR-to-DEM conversion and the line-of-sight walk

This project models the two computational cores of the USGS LiDAR line-of-sight
tool.

- **`laz_to_dem`** turns a LiDAR point cloud (`x`, `y`, `z` samples) into a
  digital elevation model (DEM) in six steps:
  1. take the bounds of the cloud;
  2. size the grid, either from the resolution (truncated and capped at 2000
     cells per side) or from an explicit `grid_size`;
  3. lay a `linspace`/`meshgrid` mesh over the bounds;
  4. give every node the `z` of a nearest sample (`griddata`, method
     `nearest`);
  5. fill every NaN cell with the mean of the defined cells;
  6. fill in the metadata record.

  Any exception makes the function return `(None, None, None)`. Here that is
  `None`.
- **`los_boolean`** walks the cells of a row-major heightmap, one grid cell at
  a time, from the observer's cell towards the target's cell. It returns 0.0
  as soon as the walk leaves the grid or a cell's terrain rises above the sight
  line. It returns 1.0 once it reaches the target's cell.

## Files

- `wrappers.dfy` (module `Wrappers`): `Option`. NaN cells, infinite ray
  parameters and failed conversions are `None`.
- `stats.dfy` (module `Stats`): numpy's `min`, `max` and `mean`, and row-major
  flattening.
- `raster.dfy` (module `Raster`): the `laz_to_dem` steps.
  - Bounds, sizing, the mesh, nearest-neighbour gridding and the metadata are
    functions.
  - The masked NaN assignment is the method `FillNaN`. It works in place on a
    two-dimensional array and is proved equal to the function `Filled`.
  - `LazToDem` is the whole conversion as a method returning `Option<Dem>`.
- `los.dfy` (module `Los`): `los_boolean`.
  - `LosBoolean` is the method with the `while` loop. It is proved equal to
    the recursive specification `Walk` and returns a ghost trace of the
    visited cells.
  - The lemmas prove the walk's properties on `Walk`.

The grid dimensions follow the code. There is only the upper cap
`min(..., 2000)` and no lower clamp to 1. An extent narrower than the
resolution gives a dimension of 0, and the conversion then raises, at the
latest at `grid_z.min()` of the empty grid (src/fetch_usgs_lidar.py:264). For example, a single sample
auto-sizes to a 0×0 grid and yields `None` (`Raster.SingleSampleAutoSizeFails`).

## Model

| member | source | states |
|---|---|---|
| Stats.Min | src/fetch_usgs_lidar.py:194-195 | numpy `min`: the result occurs in the sequence and no element is smaller |
| Stats.Max | src/fetch_usgs_lidar.py:194-195 | numpy `max`: the result occurs in the sequence and no element is greater |
| Stats.MeanWithin | src/fetch_usgs_lidar.py:225 | the mean of terms that all lie in [lo, hi] lies in [lo, hi] |
| Stats.Mean | src/fetch_usgs_lidar.py:225 | the mean of a non-empty sequence lies between its least and greatest element |
| Stats.SameExtrema | src/fetch_usgs_lidar.py:225 | adding copies of a value that lies between the extremes keeps both extremes |
| Stats.FlattenMembership | src/fetch_usgs_lidar.py:264-265 | a value occurs in the flattened grid exactly when some cell holds it (the whole-array `min`/`max` range over every cell) |
| Stats.Defined | src/fetch_usgs_lidar.py:225 | the non-NaN values `a[~isnan(a)]`: every defined cell is kept once, so v occurs exactly as often as Some(v) does, and no other value occurs |
| Raster.CloudBounds | src/fetch_usgs_lidar.py:194-195 | the bounds are ordered, enclose every sample, and each bound is attained by a sample |
| Raster.Trunc | src/fetch_usgs_lidar.py:199-200 | Python `int()` truncates toward zero, for non-negative and for negative quotients |
| Raster.AutoDimension | src/fetch_usgs_lidar.py:199-203 | with a positive resolution the dimension is the truncated quotient capped at 2000, and there is no lower clamp; with a negative resolution it is ≤ 0; never above 2000 |
| Raster.FitsExtentUnique | src/fetch_usgs_lidar.py:199-203 | the capped, truncated quotient is unique |
| Raster.GridShape | src/fetch_usgs_lidar.py:197-205 | an explicit `grid_size` is used verbatim; otherwise both dimensions fit the extents; sizing fails (None) exactly when there is no override and the resolution is 0 |
| Raster.NarrowExtentGivesZeroWidth | src/fetch_usgs_lidar.py:199-202 | an x extent narrower than the resolution gives width 0 |
| Raster.SpacingFacts | src/fetch_usgs_lidar.py:210-211 | the linspace formula starts at lo, ends at hi when n ≥ 2, stays in [lo, hi], and its steps are equal and non-negative |
| Raster.LinSpace | src/fetch_usgs_lidar.py:210-211 | n values; the first is lo and the last is hi (n ≥ 2); all lie in [lo, hi]; evenly spaced and non-decreasing |
| Raster.MeshGrid | src/fetch_usgs_lidar.py:212 | `height` rows of `width` columns; row i, column j holds (xs[j], ys[i]) |
| Raster.BuildMesh | src/fetch_usgs_lidar.py:210-212 | the mesh has `height` rows and `width` columns; nodes lie within the bounds; the first and last column sit at x_min and x_max, and the first and last row at y_min and y_max |
| Raster.NearestAmong | src/fetch_usgs_lidar.py:216-219 | the chosen sample is at least as close to the node as every sample |
| Raster.NearestValue | src/fetch_usgs_lidar.py:219 | `griddata`'s nearest-sample contract: v is the z of some sample whose distance to the node is minimal among all samples (a definition; `NearestAmong`, `NearestGrid` and `CoincidentSampleWins` state its properties) |
| Raster.NearestGrid | src/fetch_usgs_lidar.py:216-219 | the grid has the mesh's shape; each cell holds the z of a sample nearest its node, so it is one of the input z's and lies in [min z, max z] |
| Raster.CoincidentSampleWins | src/fetch_usgs_lidar.py:216-219 | a node that coincides with a unique sample gets that sample's z |
| Raster.NanMean | src/fetch_usgs_lidar.py:225 | defined exactly when some cell is defined; then it lies between the least and greatest defined value |
| Raster.Filled | src/fetch_usgs_lidar.py:222-225 | same shape; defined cells are unchanged; every NaN cell becomes the mean of the defined cells |
| Raster.FillLeavesNoGaps | src/fetch_usgs_lidar.py:222-225 | with at least one defined cell, no NaN is left after the fill |
| Raster.FillWithoutGapsIsIdentity | src/fetch_usgs_lidar.py:222 | a grid without NaN is left unchanged, so the guard changes nothing |
| Raster.FillKeepsDefinedValues | src/fetch_usgs_lidar.py:224-225 | every defined value survives the fill |
| Raster.FillAddsOnlyTheMean | src/fetch_usgs_lidar.py:224-225 | the fill adds no value other than the mean |
| Raster.FillPreservesExtrema | src/fetch_usgs_lidar.py:225-265 | the min and max of the defined values are the same before and after the fill |
| Raster.FillRow | src/fetch_usgs_lidar.py:224-225 | in place: each NaN cell of row i becomes the fill value, defined cells keep theirs, and the other rows are unchanged |
| Raster.FillNaN | src/fetch_usgs_lidar.py:222-225 | in place: the array afterwards holds `Filled` of its old contents |
| Raster.GridExtremaWithinSamples | src/fetch_usgs_lidar.py:264-265 | the grid's min and max lie within [min z, max z] of the samples |
| Raster.Succeeds | src/fetch_usgs_lidar.py:278-282 | when the conversion does not raise: the cloud is non-empty, a shape is found and both dimensions are positive (a definition; `LazToDem` returns `None` exactly when it fails, as the `except` branch returns `(None, None, None)`) |
| Raster.Rasterises | src/fetch_usgs_lidar.py:209-269 | the DEM relation: the grid has the chosen shape, every node holds the z of a nearest sample, and the metadata echoes the shape, the resolution, the cloud's bounds and size, the file name and the final grid's min and max (a definition; `LazToDem` and `AssembledDemRasterises` establish it) |
| Raster.AssembledDemRasterises | src/fetch_usgs_lidar.py:255-269 | a record built from the shape, the resolution, the bounds, the sample count, the file name and the final grid's extremes is the DEM of the cloud |
| Raster.ElevationGrid | src/fetch_usgs_lidar.py:209-225 | building the mesh, gridding by nearest neighbour into a fresh array, and filling in place gives the nearest-neighbour grid |
| Raster.LazToDem | src/fetch_usgs_lidar.py:194-282 | succeeds exactly when the cloud is non-empty, a shape is found and both dimensions are positive; a result is the DEM of the cloud, and z_min ≤ z_max lie within the samples' z range |
| Raster.SingleSampleAutoSizeFails | src/fetch_usgs_lidar.py:197-203 | a single sample auto-sizes to 0×0, so the conversion fails |
| Raster.SingleSampleOverride | src/fetch_usgs_lidar.py:204-265 | with a 1×1 override, a single sample gives the grid [[z]] and z_min = z_max = z |
| Los.Start | src/los.cpp:22-27 | the start cell (floor(x0), floor(y0)) is the cell that contains the observer |
| Los.FirstCrossing | src/los.cpp:32-51 | one axis's set-up: tMax is the ray parameter at which the ray leaves the observer's cell along that axis and tDelta its growth per cell, both infinite exactly when the ray does not move along the axis; 0 ≤ tMax ≤ tDelta |
| Los.StepsX | src/los.cpp:79 | x steps whenever the x crossing comes first, never along an axis the ray does not cross, and under the source's rule a tie steps y |
| Los.Next | src/los.cpp:79-85 | exactly one coordinate moves, by exactly one cell, and it is x exactly when `StepsX` holds |
| Los.CellIndexInBounds | src/los.cpp:55-71 | past the bounds guard, the read index y·width + x lies in [0, width·height) |
| Los.RayParam | src/los.cpp:58-67 | after clamping, the ray parameter lies in [0, 1] |
| Los.RayHeight | src/los.cpp:66-69 | the sight-line height lies between z0 and z1 |
| Los.Terrain | src/los.cpp:71 | the terrain read at an in-bounds cell is a value of the heightmap |
| Los.Blocks | src/los.cpp:71-74 | the blocking test: the cell's terrain is above the sight line's height there (a definition; `TerrainBlocks`, `LowTerrainNeverBlocks` and `HighTerrainBlocks` state its properties) |
| Los.GridTerrain | src/los.cpp:71 | a DEM grid of `height` rows of `width` elevations, flattened row-major, has width·height cells, and the terrain los.cpp reads at (x, y) is row y, column x of the grid |
| Los.LowTerrainNeverBlocks | src/los.cpp:69-74 | terrain at or below min(z0, z1) never blocks |
| Los.HighTerrainBlocks | src/los.cpp:69-74 | terrain above max(z0, z1) always blocks |
| Los.CrossingAdvance | src/los.cpp:35-51 | adding the per-cell increment to an axis's next-crossing parameter gives the crossing of the next cell, one cell nearer the end |
| Los.Walk | src/los.cpp:53-88 | the result is 0.0 or 1.0; 1.0 only from an in-bounds cell whose terrain does not block |
| Los.WalkMovesOn | src/los.cpp:76-85 | from an in-bounds, unblocked cell that is not the end, the result is that of the next cell |
| Los.WalkDecides | src/los.cpp:55-77 | 0.0 outside the grid; 0.0 on a blocking cell; 1.0 on an unblocked end cell |
| Los.TerrainBlocks | src/los.cpp:58-74 | the cell test is true exactly when the terrain is above the sight line's height there |
| Los.LosBoolean | src/los.cpp:17-88 | returns 0.0 or 1.0 and equals the walk from the start cell (floor(x0), floor(y0)); the ghost trace starts there and moves one step at a time; every cell before the last is in bounds, unblocked and not the end; the last cell decides the result |
| Los.WalkIsMonotone | src/los.cpp:79-85 | along the walk, progress in both step directions never decreases, and each step advances exactly one axis by one cell |
| Los.StartIsPlaced | src/los.cpp:23-51 | the start cell and the initial tMax values meet the walk invariant: the cell lies between the start and the end, and each tMax is that axis's next crossing |
| Los.NextApproachesEnd | src/los.cpp:79-85 | except on a corner approach with the source's tie rule, every step keeps the invariant and brings the end cell one step nearer |
| Los.InEndColumnStepsY | src/los.cpp:79-85 | in the end column, short of the end row, the walk steps y |
| Los.InEndRowStepsX | src/los.cpp:79-85 | in the end row, short of the end column, the walk steps x (except on a corner approach with the source's tie rule) |
| Los.WalkReachesEnd | src/los.cpp:53-88 | with start and end in bounds and no terrain above min(z0, z1), a walk that keeps the invariant reports visible |
| Los.FlatTerrainVisible | src/los.cpp:53-88 | with start and end cells in the grid and no terrain above min(z0, z1), the walk returns 1.0 (with the corrected tie rule always, with the source's rule except on a corner approach) |
| Los.NeverArrivesPastEndRow | src/los.cpp:76-85 | a walk heading down in y that has passed the end row never reaches the end and returns 0.0 |
| Los.CornerWalkOvershoots | src/los.cpp:79-85 | on a corner approach, in exact arithmetic, the source's tie rule takes the walk past the end row before the end column |
| Los.CornerTargetNeverVisible | src/los.cpp:79 | on a corner approach, in exact arithmetic, the source's walk returns 0.0 for every heightmap; in doubles the same holds whenever the rounded tMaxX and tMaxY in the end row come out equal, as in `TieOvershootExample` |
| Los.RulesStepAlike | src/los.cpp:79-85 | off a corner approach, from a cell on the way, the source's rule and the corrected rule take the same step |
| Los.RulesWalkAlike | src/los.cpp:53-88 | off a corner approach, from a cell on the way, both rules give the same result on every heightmap |
| Los.TieRuleMattersOnlyOnCorners | src/los.cpp:79 | the corrected tie rule changes the source's answer only on corner approaches: on every other ray and every heightmap both rules give the same result |
| Los.TieOvershootExample | src/los.cpp:79-85 | on a flat 4×2 grid, the ray (0, 1.5, 1) → (2, 1, 1) gives 0.0 with the source's tie rule and 1.0 with the corrected rule |
| Los.StaticFlatVisible | src/static_test.py:13-26 | flat 1000×1000 terrain at 0, observers at height 10 from (100, 100) to (900, 900): visible |
| Los.DiagonalMeetsHill | src/static_test.py:28-31 | the diagonal walk from any cell (k, k) with 100 ≤ k ≤ 500 reaches the 50 m cell at (500, 500) and is blocked |
| Los.StaticHillBlocks | src/static_test.py:28-31 | a 50 m cell at (500, 500) on that diagonal blocks the view at height 10 |
| Los.StaticRaisedVisible | src/static_test.py:33-35 | raising both observers to 100 makes the view over the hill visible |

## Left out

- Network access, the catalog query and downloads (src/fetch_usgs_lidar.py:40-113) are I/O.
- `create_sample_laz` is not modelled. It builds random synthetic data and writes a file.
- Reading the LAZ file is not modelled. The cloud is given as three sequences.
- Writing the GeoTIFF, the `.npy` file and the JSON file is not modelled, nor is progress printing. The model returns the grid and the metadata values as a `Dem`.
- The float32 cast at save time is not modelled.
- Floating point is not modelled. Coordinates, heights and ray parameters are reals.
  - IEEE rounding, NaN propagation and float32 terrain storage are not modelled.
  - The infinity los.cpp stores for an axis the ray never crosses is `None`.
- Raster.NearestGrid: `griddata`'s k-d tree and its choice among equidistant samples are hidden library behaviour. The contract therefore says only that each cell holds the z of some nearest sample. The model picks the lowest index.
- Raster.NearestGrid: distance is compared as squared Euclidean distance, which orders samples the same way as Euclidean distance.
- Raster.LazToDem: every exception is folded into `None`. The cases covered are an empty cloud, a zero resolution without an override, a negative dimension, and a zero dimension. Files written before a failure and the error message are not modelled.
- Raster.ElevationGrid: nearest-neighbour gridding of finite samples never yields NaN, so inside the conversion the fill is the identity. `FillNaN` and its lemmas are stated for any grid with NaN cells.
- Los.LosBoolean: requires (x0, y0) ≠ (x1, y1), so it does not cover a sight line with no horizontal extent. In that case the start cell is the end cell. Line 64 of src/los.cpp divides floor(y0) − y0 by 0. That gives NaN when y0 is integral, and −∞ otherwise, which line 66 clamps to 0. So los.cpp returns 0.0 when that cell is outside the grid. Inside the grid it returns 1.0 when y0 is integral, since no comparison with NaN blocks. When y0 is not integral, it returns 0.0 exactly when the cell's terrain is above z0.
- Los.LosBoolean: requires a heightmap of exactly width·height cells, which los.cpp assumes without checking.
- Los.LosBoolean: cell coordinates, `width`, `height` and the index `y * width + x` are unbounded integers. In los.cpp they are 32-bit `int`. The model therefore does not capture two things:
  - `static_cast<int>(std::floor(...))` at src/los.cpp:23-27 is undefined behaviour for a coordinate outside the `int` range;
  - the index at src/los.cpp:71 overflows on a heightmap of more than 2^31 − 1 cells.
- Los.CornerTargetNeverVisible: the lemma is about real arithmetic. In los.cpp the comparison at line 79 is on doubles, computed at lines 37, 46, 80 and 83. On a corner approach the tie, and with it the hidden target, occurs only when the rounded tMaxX and tMaxY in the end row are exactly equal. For example, on (0.3, 3.1) → (3, 2) rounding makes tMaxX fall just below tMaxY, so x steps and the target cell is reached. `Los.CornerWalkOvershoots` carries the same qualification.
- The Python binding (src/los.cpp:91-93), `setup.py` and the driver scripts are not modelled. This includes `src/test.py` and `src/usgs_los_test.py`, which call a `los_probability` function that los.cpp does not export.

## Findings

| source | as written | input that shows it | evidently intended | confidence | as-written member | corrected member |
|---|---|---|---|---|---|---|
| src/los.cpp:79 | on a tie `tMaxX == tMaxY` the walk steps y. When the ray heads +x and −y towards a target on a grid corner (x1 and y1 integral), then in exact arithmetic the tie occurs in the end row. Stepping y leaves the end row, so the end cell is never visited and the result is 0.0 whatever the terrain. In doubles this happens whenever the rounded tMaxX and tMaxY there are equal, as in the input shown; where rounding breaks the tie, x steps first and the end cell is reached | 4×2 heightmap of zeros, width 4, height 2, ray (0, 1.5, 1) → (2, 1, 1): the walk visits (0,1), (1,1), (1,0), (2,0), (3,0), then leaves the grid, and never reaches the end cell (2,1) | a tie in the end row steps x, so the walk arrives at the end cell, and flat low terrain is visible | not executed | Los.CornerTargetNeverVisible | Los.FlatTerrainVisible |
