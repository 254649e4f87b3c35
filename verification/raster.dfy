/** The computational steps of `USGSLidarFetcher.laz_to_dem`
    (src/fetch_usgs_lidar.py:194-269): the bounds of a point cloud, the size of
    the grid, the linspace/meshgrid mesh, nearest-neighbour gridding, the NaN
    gap fill and the values placed in the metadata record. File reading and
    writing are not part of this model; a cloud arrives as three sequences and
    the result is returned as a value. */
module Raster {
  import opened Wrappers
  import opened Stats

  /** The cap on each auto-sized dimension (fetch_usgs_lidar.py:202-203). */
  const MaxDimension := 2000

  /** The x, y and z arrays of a LAZ file, one entry per sample. */
  datatype PointCloud = PointCloud(x: seq<real>, y: seq<real>, z: seq<real>)
  {
    predicate WellFormed()
    {
      |x| == |y| == |z|
    }

    function Size(): nat
    {
      |x|
    }
  }

  datatype Bounds = Bounds(xMin: real, xMax: real, yMin: real, yMax: real)
  {
    predicate Ordered()
    {
      xMin <= xMax && yMin <= yMax
    }
  }

  // ---------------------------------------------------------------------------
  // Bounds (fetch_usgs_lidar.py:194-195).

  /** The componentwise extremes of the sample coordinates: they enclose every
      sample and each is attained by one. */
  function CloudBounds(cloud: PointCloud): (b: Bounds)
    requires cloud.WellFormed() && cloud.Size() > 0
    ensures b.Ordered()
    ensures forall i :: 0 <= i < cloud.Size() ==>
              b.xMin <= cloud.x[i] <= b.xMax && b.yMin <= cloud.y[i] <= b.yMax
    ensures b.xMin in cloud.x && b.xMax in cloud.x && b.yMin in cloud.y && b.yMax in cloud.y
  {
    Bounds(Min(cloud.x), Max(cloud.x), Min(cloud.y), Max(cloud.y))
  }

  // ---------------------------------------------------------------------------
  // Grid sizing (fetch_usgs_lidar.py:197-205).

  /** Python's `int()` on a float: truncation toward zero. */
  function Trunc(q: real): (n: int)
    ensures q >= 0.0 ==> 0 <= n && n as real <= q < (n + 1) as real
    ensures q < 0.0 ==> n <= 0 && (n - 1) as real < q <= n as real
  {
    if q >= 0.0 then q.Floor else -((-q).Floor)
  }

  /** `n` is the number of whole cells of size `resolution` in `extent`,
      capped at MaxDimension. */
  predicate FitsExtent(n: int, extent: real, resolution: real)
    requires resolution != 0.0
  {
    0 <= n <= MaxDimension &&
    n as real <= extent / resolution &&
    (n == MaxDimension || extent / resolution < (n + 1) as real)
  }

  lemma MulLe(a: real, b: real, c: real)
    requires a <= b && c > 0.0
    ensures a * c <= b * c
  {
    assert (b - a) * c >= 0.0;
  }

  lemma MulLt(a: real, b: real, c: real)
    requires a < b && c > 0.0
    ensures a * c < b * c
  {
    assert (b - a) * c > 0.0;
  }

  /** A non-negative extent over a resolution has the resolution's sign, and
      is below 1 when the extent is below a positive resolution. */
  lemma QuotientSign(extent: real, resolution: real)
    requires extent >= 0.0 && resolution != 0.0
    ensures resolution > 0.0 ==> extent / resolution >= 0.0
    ensures resolution < 0.0 ==> extent / resolution <= 0.0
    ensures 0.0 < resolution && extent < resolution ==> extent / resolution < 1.0
  {
    var q := extent / resolution;
    assert q * resolution == extent;
    if resolution > 0.0 {
      if q < 0.0 {
        MulLt(q, 0.0, resolution);
      }
      if extent < resolution && q >= 1.0 {
        MulLe(1.0, q, resolution);
      }
    } else if q > 0.0 {
      MulLt(resolution, 0.0, q);
    }
  }

  /** One auto-sized dimension: the truncated cell count, capped at
      MaxDimension, with no lower clamp (fetch_usgs_lidar.py:199-203). */
  function AutoDimension(extent: real, resolution: real): (n: int)
    requires resolution != 0.0 && extent >= 0.0
    ensures n <= MaxDimension
    ensures resolution > 0.0 ==> FitsExtent(n, extent, resolution)
    ensures resolution < 0.0 ==> n <= 0
  {
    QuotientSign(extent, resolution);
    var t := Trunc(extent / resolution);
    if t < MaxDimension then t else MaxDimension
  }

  /** The cell count in FitsExtent is determined by the extent and the
      resolution: the truncation and the cap leave no choice. */
  lemma FitsExtentUnique(n: int, m: int, extent: real, resolution: real)
    requires resolution > 0.0
    requires FitsExtent(n, extent, resolution) && FitsExtent(m, extent, resolution)
    ensures n == m
  {
  }

  /** The grid shape (width, height): the override as given, or each
      dimension auto-sized from the bounds. A zero resolution makes the
      auto-sizing divide by zero, and `int()` of the infinite or NaN quotient
      raises (None). */
  function GridShape(b: Bounds, resolution: real, gridSize: Option<(int, int)>): (r: Option<(int, int)>)
    requires b.Ordered()
    ensures gridSize.Some? ==> r == gridSize
    ensures r.None? <==> gridSize.None? && resolution == 0.0
    ensures gridSize.None? && resolution > 0.0 ==>
              FitsExtent(r.value.0, b.xMax - b.xMin, resolution) &&
              FitsExtent(r.value.1, b.yMax - b.yMin, resolution)
    ensures gridSize.None? && resolution < 0.0 ==> r.value.0 <= 0 && r.value.1 <= 0
  {
    if gridSize.Some? then gridSize
    else if resolution == 0.0 then None
    else Some((AutoDimension(b.xMax - b.xMin, resolution), AutoDimension(b.yMax - b.yMin, resolution)))
  }

  /** There is no lower clamp: an extent smaller than the resolution yields a
      width of 0. */
  lemma NarrowExtentGivesZeroWidth(b: Bounds, resolution: real)
    requires b.Ordered() && resolution > 0.0 && b.xMax - b.xMin < resolution
    ensures GridShape(b, resolution, None).value.0 == 0
  {
    QuotientSign(b.xMax - b.xMin, resolution);
  }

  // ---------------------------------------------------------------------------
  // Mesh (fetch_usgs_lidar.py:210-212).

  /** The spacing of `n` evenly spaced values from `lo` to `hi`. */
  function Spacing(lo: real, hi: real, n: nat): real
  {
    if n < 2 then 0.0 else (hi - lo) / ((n - 1) as real)
  }

  /** The j-th of `n` evenly spaced values from `lo` to `hi`. */
  function Spaced(lo: real, hi: real, n: nat, j: int): real
  {
    lo + (j as real) * Spacing(lo, hi, n)
  }

  lemma SpacingFacts(lo: real, hi: real, n: nat)
    requires lo <= hi
    ensures Spacing(lo, hi, n) >= 0.0
    ensures Spaced(lo, hi, n, 0) == lo
    ensures n >= 2 ==> Spaced(lo, hi, n, n - 1) == hi
    ensures forall j :: 0 <= j < n ==> lo <= Spaced(lo, hi, n, j) <= hi
    ensures forall j :: 0 <= j < n - 1 ==> Spaced(lo, hi, n, j + 1) - Spaced(lo, hi, n, j) == Spacing(lo, hi, n)
  {
    var d := Spacing(lo, hi, n);
    if n >= 2 {
      assert d * ((n - 1) as real) == hi - lo;
      assert d >= 0.0 by {
        if d < 0.0 {
          MulLt(d, 0.0, (n - 1) as real);
        }
      }
      forall j | 0 <= j < n
        ensures lo <= Spaced(lo, hi, n, j) <= hi
      {
        assert Spaced(lo, hi, n, j) == lo + (j as real) * d;
        if d > 0.0 {
          MulLe(j as real, (n - 1) as real, d);
          MulLe(0.0, j as real, d);
        }
      }
      forall j | 0 <= j < n - 1
        ensures Spaced(lo, hi, n, j + 1) - Spaced(lo, hi, n, j) == d
      {
        assert ((j + 1) as real) * d == (j as real) * d + d;
      }
    }
  }

  /** numpy `linspace(lo, hi, n)`: `n` values, the first `lo`, the last `hi`
      when there are at least two, evenly spaced and within [lo, hi]. */
  function LinSpace(lo: real, hi: real, n: nat): (s: seq<real>)
    requires lo <= hi
    ensures |s| == n
    ensures n >= 1 ==> s[0] == lo
    ensures n >= 2 ==> s[n - 1] == hi
    ensures forall j :: 0 <= j < n ==> lo <= s[j] <= hi
    ensures forall j :: 0 <= j < n - 1 ==> s[j] <= s[j + 1] && s[j + 1] - s[j] == Spacing(lo, hi, n)
  {
    SpacingFacts(lo, hi, n);
    seq(n, j => Spaced(lo, hi, n, j))
  }

  /** numpy `meshgrid(xs, ys)`: |ys| rows of |xs| columns; the x grid repeats
      `xs` in every row, the y grid holds ys[i] across row i. */
  function MeshGrid(xs: seq<real>, ys: seq<real>): (m: (seq<seq<real>>, seq<seq<real>>))
    ensures IsGrid(m.0, |xs|, |ys|) && IsGrid(m.1, |xs|, |ys|)
    ensures forall i, j :: 0 <= i < |ys| && 0 <= j < |xs| ==> m.0[i][j] == xs[j] && m.1[i][j] == ys[i]
  {
    (seq(|ys|, _ => xs), seq(|ys|, i requires 0 <= i < |ys| => seq(|xs|, _ => ys[i])))
  }

  /** The mesh over the bounds: `height` rows and `width` columns, node (i, j)
      at the j-th of `width` evenly spaced x values and the i-th of `height`
      evenly spaced y values; every node lies inside the bounds and the outer
      rows and columns lie on them. */
  function BuildMesh(b: Bounds, width: nat, height: nat): (m: (seq<seq<real>>, seq<seq<real>>))
    requires b.Ordered()
    ensures IsGrid(m.0, width, height) && IsGrid(m.1, width, height)
    ensures forall i, j :: 0 <= i < height && 0 <= j < width ==>
              m.0[i][j] == LinSpace(b.xMin, b.xMax, width)[j] &&
              m.1[i][j] == LinSpace(b.yMin, b.yMax, height)[i]
    ensures forall i, j :: 0 <= i < height && 0 <= j < width ==>
              b.xMin <= m.0[i][j] <= b.xMax && b.yMin <= m.1[i][j] <= b.yMax
    ensures forall i :: 0 <= i < height && width >= 1 ==> m.0[i][0] == b.xMin
    ensures forall i, j :: 0 <= i < height && 0 <= j < width && j == width - 1 >= 1 ==> m.0[i][j] == b.xMax
    ensures forall j :: 0 <= j < width && height >= 1 ==> m.1[0][j] == b.yMin
    ensures forall i, j :: 0 <= i < height && 0 <= j < width && i == height - 1 >= 1 ==> m.1[i][j] == b.yMax
  {
    MeshGrid(LinSpace(b.xMin, b.xMax, width), LinSpace(b.yMin, b.yMax, height))
  }

  // ---------------------------------------------------------------------------
  // Nearest-neighbour gridding (fetch_usgs_lidar.py:216-219).

  /** The identity on reals. `Square` writes its second factor as `Id(r)` so
      that the solver keeps the product as a product of two factors instead of
      rewriting it into a power, which it then fails to relate to the factors'
      signs (with a plain `r * r`, `SquareSign` does not verify). */
  function Id(r: real): real
  {
    r
  }

  /** r times itself. */
  function Square(r: real): real
  {
    r * Id(r)
  }

  lemma SquareSign(r: real)
    ensures Square(r) >= 0.0
    ensures r != 0.0 ==> Square(r) > 0.0
  {
    if r > 0.0 {
      assert r * Id(r) > 0.0;
    } else if r < 0.0 {
      assert (-r) * (-Id(r)) > 0.0;
    }
  }

  /** Squared Euclidean distance from sample k to the point (px, py); it orders
      the samples as the distance does. */
  function SqDist(cloud: PointCloud, k: int, px: real, py: real): real
    requires cloud.WellFormed() && 0 <= k < cloud.Size()
  {
    Square(cloud.x[k] - px) + Square(cloud.y[k] - py)
  }

  /** Sample k is a nearest sample to (px, py). */
  ghost predicate IsNearest(cloud: PointCloud, k: int, px: real, py: real)
    requires cloud.WellFormed()
  {
    0 <= k < cloud.Size() &&
    forall i :: 0 <= i < cloud.Size() ==> SqDist(cloud, k, px, py) <= SqDist(cloud, i, px, py)
  }

  /** A sample among the first `n` with the least distance to (px, py). */
  function NearestAmong(cloud: PointCloud, px: real, py: real, n: nat): (k: nat)
    requires cloud.WellFormed() && 0 < n <= cloud.Size()
    ensures k < n
    ensures forall i :: 0 <= i < n ==> SqDist(cloud, k, px, py) <= SqDist(cloud, i, px, py)
  {
    if n == 1 then 0
    else
      var k := NearestAmong(cloud, px, py, n - 1);
      if SqDist(cloud, n - 1, px, py) < SqDist(cloud, k, px, py) then n - 1 else k
  }

  /** `v` is the z of some nearest sample to (px, py): what scipy's
      `griddata(..., method='nearest')` puts at the node (px, py). */
  ghost predicate NearestValue(cloud: PointCloud, px: real, py: real, v: real)
    requires cloud.WellFormed()
  {
    exists k :: IsNearest(cloud, k, px, py) && cloud.z[k] == v
  }

  /** The nearest-neighbour grid over a mesh: each node gets the z of a nearest
      sample, so every value is one of the samples' z and lies in
      [min z, max z]. */
  function NearestGrid(cloud: PointCloud, meshX: seq<seq<real>>, meshY: seq<seq<real>>): (g: seq<seq<real>>)
    requires cloud.WellFormed() && cloud.Size() > 0
    requires |meshX| == |meshY| && forall i :: 0 <= i < |meshX| ==> |meshX[i]| == |meshY[i]|
    ensures |g| == |meshX| && forall i :: 0 <= i < |g| ==> |g[i]| == |meshX[i]|
    ensures forall i, j :: 0 <= i < |g| && 0 <= j < |g[i]| ==>
              NearestValue(cloud, meshX[i][j], meshY[i][j], g[i][j])
    ensures forall i, j :: 0 <= i < |g| && 0 <= j < |g[i]| ==>
              g[i][j] in cloud.z && Min(cloud.z) <= g[i][j] <= Max(cloud.z)
  {
    var g := seq(|meshX|, i requires 0 <= i < |meshX| =>
               seq(|meshX[i]|, j requires 0 <= j < |meshX[i]| =>
                 cloud.z[NearestAmong(cloud, meshX[i][j], meshY[i][j], cloud.Size())]));
    assert forall i, j :: 0 <= i < |g| && 0 <= j < |g[i]| ==>
             NearestValue(cloud, meshX[i][j], meshY[i][j], g[i][j]) by {
      forall i, j | 0 <= i < |g| && 0 <= j < |g[i]|
        ensures NearestValue(cloud, meshX[i][j], meshY[i][j], g[i][j])
      {
        var k := NearestAmong(cloud, meshX[i][j], meshY[i][j], cloud.Size());
        assert IsNearest(cloud, k, meshX[i][j], meshY[i][j]);
      }
    }
    g
  }

  /** A node that coincides with a sample, no other sample sharing its
      position, gets that sample's z. */
  lemma CoincidentSampleWins(cloud: PointCloud, k: int, v: real)
    requires cloud.WellFormed() && 0 <= k < cloud.Size()
    requires forall i :: 0 <= i < cloud.Size() && i != k ==>
               cloud.x[i] != cloud.x[k] || cloud.y[i] != cloud.y[k]
    requires NearestValue(cloud, cloud.x[k], cloud.y[k], v)
    ensures v == cloud.z[k]
  {
    var px, py := cloud.x[k], cloud.y[k];
    var n :| IsNearest(cloud, n, px, py) && cloud.z[n] == v;
    assert SqDist(cloud, n, px, py) <= SqDist(cloud, k, px, py);
    assert Square(0.0) == 0.0;
    SquareSign(cloud.x[n] - px);
    SquareSign(cloud.y[n] - py);
  }

  // ---------------------------------------------------------------------------
  // Gap fill (fetch_usgs_lidar.py:222-225). A NaN cell is None.

  /** Some cell of the grid is defined. */
  ghost predicate HasDefined(g: seq<seq<Option<real>>>)
  {
    exists i, j :: 0 <= i < |g| && 0 <= j < |g[i]| && g[i][j].Some?
  }

  lemma DefinedCells(g: seq<seq<Option<real>>>)
    ensures |Defined(Flatten(g))| > 0 <==> HasDefined(g)
  {
    FlattenMembership(g);
    if HasDefined(g) {
      var i, j :| 0 <= i < |g| && 0 <= j < |g[i]| && g[i][j].Some?;
      assert g[i][j].value in Defined(Flatten(g));
    }
    if |Defined(Flatten(g))| > 0 {
      assert Some(Defined(Flatten(g))[0]) in Flatten(g);
    }
  }

  /** numpy `nanmean`: the mean of the defined cells, which lies between their
      least and greatest value; NaN (None) when no cell is defined. */
  function NanMean(g: seq<seq<Option<real>>>): (m: Option<real>)
    ensures m.Some? <==> HasDefined(g)
    ensures m.Some? ==>
              |Defined(Flatten(g))| > 0 &&
              Min(Defined(Flatten(g))) <= m.value <= Max(Defined(Flatten(g)))
  {
    DefinedCells(g);
    var d := Defined(Flatten(g));
    if |d| == 0 then None else Some(Mean(d))
  }

  function FillCell(c: Option<real>, fill: Option<real>): Option<real>
  {
    if c.Some? then c else fill
  }

  /** The grid after `grid_z[isnan(grid_z)] = nanmean(grid_z)`: defined cells
      keep their value, every NaN cell becomes the mean of the defined cells. */
  function Filled(g: seq<seq<Option<real>>>): (f: seq<seq<Option<real>>>)
    ensures |f| == |g| && forall i :: 0 <= i < |g| ==> |f[i]| == |g[i]|
    ensures forall i, j :: 0 <= i < |g| && 0 <= j < |g[i]| && g[i][j].Some? ==> f[i][j] == g[i][j]
    ensures forall i, j :: 0 <= i < |g| && 0 <= j < |g[i]| && g[i][j].None? ==> f[i][j] == NanMean(g)
  {
    var m := NanMean(g);
    seq(|g|, i requires 0 <= i < |g| => seq(|g[i]|, j requires 0 <= j < |g[i]| => FillCell(g[i][j], m)))
  }

  /** With a defined cell to average, the fill leaves no NaN behind. */
  lemma FillLeavesNoGaps(g: seq<seq<Option<real>>>)
    requires HasDefined(g)
    ensures None !in Flatten(Filled(g))
  {
    FlattenMembership(Filled(g));
  }

  /** A grid without NaN is left as it is: the guard at
      fetch_usgs_lidar.py:222 changes nothing. */
  lemma FillWithoutGapsIsIdentity(g: seq<seq<Option<real>>>)
    requires None !in Flatten(g)
    ensures Filled(g) == g
  {
    FlattenMembership(g);
    var f := Filled(g);
    forall i | 0 <= i < |g|
      ensures f[i] == g[i]
    {
      forall j | 0 <= j < |g[i]|
        ensures f[i][j] == g[i][j]
      {
        assert g[i][j] != None;
      }
    }
  }

  /** Filling with the mean does not move the extremes of the defined values,
      so z_min and z_max of the filled grid are those of the defined cells
      before the fill (fetch_usgs_lidar.py:225, :264-265). */
  lemma FillPreservesExtrema(g: seq<seq<Option<real>>>)
    requires HasDefined(g)
    ensures |Defined(Flatten(g))| > 0 && |Defined(Flatten(Filled(g)))| > 0
    ensures Min(Defined(Flatten(Filled(g)))) == Min(Defined(Flatten(g)))
    ensures Max(Defined(Flatten(Filled(g)))) == Max(Defined(Flatten(g)))
  {
    FillKeepsDefinedValues(g);
    FillAddsOnlyTheMean(g);
    SameExtrema(Defined(Flatten(g)), Defined(Flatten(Filled(g))), NanMean(g).value);
  }

  /** Every defined value of the grid is still a defined value after the fill. */
  lemma FillKeepsDefinedValues(g: seq<seq<Option<real>>>)
    ensures forall v :: v in Defined(Flatten(g)) ==> v in Defined(Flatten(Filled(g)))
  {
    var f := Filled(g);
    FlattenMembership(g);
    FlattenMembership(f);
    forall v | v in Defined(Flatten(g))
      ensures v in Defined(Flatten(f))
    {
      var i, j :| 0 <= i < |g| && 0 <= j < |g[i]| && g[i][j] == Some(v);
      assert f[i][j] == Some(v);
    }
  }

  /** The fill introduces no value besides the mean of the defined cells. */
  lemma FillAddsOnlyTheMean(g: seq<seq<Option<real>>>)
    requires HasDefined(g)
    ensures forall v :: v in Defined(Flatten(Filled(g))) ==>
              v in Defined(Flatten(g)) || v == NanMean(g).value
  {
    var f := Filled(g);
    FlattenMembership(g);
    FlattenMembership(f);
    forall v | v in Defined(Flatten(f))
      ensures v in Defined(Flatten(g)) || v == NanMean(g).value
    {
      var i, j :| 0 <= i < |f| && 0 <= j < |f[i]| && f[i][j] == Some(v);
      if g[i][j].Some? {
        assert Some(v) in Flatten(g);
      }
    }
  }

  /** The cells of a two-dimensional array, row by row. */
  function Cells(a: array2<Option<real>>): (g: seq<seq<Option<real>>>)
    reads a
    ensures |g| == a.Length0 && forall i :: 0 <= i < |g| ==> |g[i]| == a.Length1
    ensures forall i, j :: 0 <= i < a.Length0 && 0 <= j < a.Length1 ==> g[i][j] == a[i, j]
  {
    seq(a.Length0, i requires 0 <= i < a.Length0 reads a =>
      seq(a.Length1, j requires 0 <= j < a.Length1 reads a => a[i, j]))
  }

  /** An array whose every cell is the filled cell of `g` holds `Filled(g)`. */
  lemma CellsAreFilled(a: array2<Option<real>>, g: seq<seq<Option<real>>>)
    requires |g| == a.Length0 && forall r :: 0 <= r < |g| ==> |g[r]| == a.Length1
    requires forall r, c :: 0 <= r < a.Length0 && 0 <= c < a.Length1 ==> a[r, c] == FillCell(g[r][c], NanMean(g))
    ensures Cells(a) == Filled(g)
  {
    var f := Filled(g);
    forall r | 0 <= r < |f|
      ensures Cells(a)[r] == f[r]
    {
    }
  }

  /** The masked assignment on one row: its NaN cells become `fill`. */
  method FillRow(gridZ: array2<Option<real>>, i: nat, fill: Option<real>)
    requires i < gridZ.Length0
    modifies gridZ
    ensures forall c :: 0 <= c < gridZ.Length1 ==> gridZ[i, c] == FillCell(old(gridZ[i, c]), fill)
    ensures forall r, c :: 0 <= r < gridZ.Length0 && r != i && 0 <= c < gridZ.Length1 ==> gridZ[r, c] == old(gridZ[r, c])
  {
    for j := 0 to gridZ.Length1
      invariant forall c :: 0 <= c < j ==> gridZ[i, c] == FillCell(old(gridZ[i, c]), fill)
      invariant forall c :: j <= c < gridZ.Length1 ==> gridZ[i, c] == old(gridZ[i, c])
      invariant forall r, c :: 0 <= r < gridZ.Length0 && r != i && 0 <= c < gridZ.Length1 ==> gridZ[r, c] == old(gridZ[r, c])
    {
      if gridZ[i, j].None? {
        gridZ[i, j] := fill;
      }
    }
  }

  /** The in-place gap fill: when some cell is NaN, every NaN cell is assigned
      the mean of the defined cells (fetch_usgs_lidar.py:222-225). */
  method FillNaN(gridZ: array2<Option<real>>)
    modifies gridZ
    ensures Cells(gridZ) == Filled(old(Cells(gridZ)))
  {
    ghost var g := Cells(gridZ);
    if None in Flatten(Cells(gridZ)) {
      var mean := NanMean(Cells(gridZ));
      for i := 0 to gridZ.Length0
        invariant forall r, c :: 0 <= r < i && 0 <= c < gridZ.Length1 ==> gridZ[r, c] == FillCell(g[r][c], mean)
        invariant forall r, c :: i <= r < gridZ.Length0 && 0 <= c < gridZ.Length1 ==> gridZ[r, c] == g[r][c]
      {
        FillRow(gridZ, i, mean);
      }
      CellsAreFilled(gridZ, g);
    } else {
      FillWithoutGapsIsIdentity(g);
    }
  }

  // ---------------------------------------------------------------------------
  // Metadata (fetch_usgs_lidar.py:255-269) and the whole conversion.

  /** The values of the metadata record. */
  datatype Metadata = Metadata(width: int, height: int, resolution: real,
                               xMin: real, xMax: real, yMin: real, yMax: real,
                               zMin: real, zMax: real,
                               sourcePoints: nat, sourceFile: string)

  /** A digital elevation model: `height` rows of `width` elevations, and its metadata. */
  datatype Dem = Dem(grid: seq<seq<real>>, meta: Metadata)

  /** The conversion succeeds: the cloud has samples (numpy's min of an empty
      array raises), a shape is found and both dimensions are positive
      (linspace raises on a negative count; a zero dimension raises at the
      latest at `grid_z.min()` of the empty grid, fetch_usgs_lidar.py:264). */
  ghost predicate Succeeds(cloud: PointCloud, resolution: real, gridSize: Option<(int, int)>)
    requires cloud.WellFormed()
  {
    cloud.Size() > 0 &&
    var shape := GridShape(CloudBounds(cloud), resolution, gridSize);
    shape.Some? && shape.value.0 > 0 && shape.value.1 > 0
  }

  /** `d` is the DEM of the cloud: its grid has the shape chosen for the
      bounds, each node holds the z of a nearest sample, and the metadata
      echoes the shape, the resolution, the cloud's bounds and size, the file
      name, and the extremes of the final grid. */
  ghost predicate Rasterises(cloud: PointCloud, resolution: real, gridSize: Option<(int, int)>,
                             sourceFile: string, d: Dem)
    requires cloud.WellFormed()
  {
    Succeeds(cloud, resolution, gridSize) &&
    var b := CloudBounds(cloud);
    var shape := GridShape(b, resolution, gridSize).value;
    var mesh := BuildMesh(b, shape.0, shape.1);
    d.meta.width == shape.0 && d.meta.height == shape.1 &&
    IsGrid(d.grid, shape.0, shape.1) &&
    (forall i, j :: 0 <= i < shape.1 && 0 <= j < shape.0 ==>
       NearestValue(cloud, mesh.0[i][j], mesh.1[i][j], d.grid[i][j])) &&
    d.meta.resolution == resolution &&
    d.meta.xMin == b.xMin && d.meta.xMax == b.xMax && d.meta.yMin == b.yMin && d.meta.yMax == b.yMax &&
    d.meta.sourcePoints == cloud.Size() && d.meta.sourceFile == sourceFile &&
    |Flatten(d.grid)| > 0 &&
    d.meta.zMin == Min(Flatten(d.grid)) && d.meta.zMax == Max(Flatten(d.grid))
  }

  /** Wraps every cell of a grid as a defined value. */
  function Wrap(g: seq<seq<real>>): (w: seq<seq<Option<real>>>)
    ensures |w| == |g| && forall i :: 0 <= i < |g| ==> |w[i]| == |g[i]|
    ensures forall i, j :: 0 <= i < |g| && 0 <= j < |g[i]| ==> w[i][j] == Some(g[i][j])
  {
    seq(|g|, i requires 0 <= i < |g| => seq(|g[i]|, j requires 0 <= j < |g[i]| => Some(g[i][j])))
  }

  /** The values of a grid without NaN cells. */
  function Values(w: seq<seq<Option<real>>>): (g: seq<seq<real>>)
    requires forall i, j :: 0 <= i < |w| && 0 <= j < |w[i]| ==> w[i][j].Some?
    ensures Wrap(g) == w
  {
    var g := seq(|w|, i requires 0 <= i < |w| => seq(|w[i]|, j requires 0 <= j < |w[i]| => w[i][j].value));
    assert forall i :: 0 <= i < |w| ==> Wrap(g)[i] == w[i];
    g
  }

  lemma WrapHasNoGaps(g: seq<seq<real>>)
    ensures None !in Flatten(Wrap(g))
  {
    FlattenMembership(Wrap(g));
  }

  lemma WrapInjective(g: seq<seq<real>>, h: seq<seq<real>>)
    requires Wrap(g) == Wrap(h)
    ensures g == h
  {
    forall i | 0 <= i < |g|
      ensures g[i] == h[i]
    {
      assert forall j :: 0 <= j < |g[i]| ==> Wrap(g)[i][j] == Wrap(h)[i][j];
    }
  }

  /** An array whose cells are those of `g` holds `Wrap(g)`. */
  lemma CellsAreWrapped(a: array2<Option<real>>, g: seq<seq<real>>)
    requires |g| == a.Length0 && forall r :: 0 <= r < |g| ==> |g[r]| == a.Length1
    requires forall r, c :: 0 <= r < a.Length0 && 0 <= c < a.Length1 ==> a[r, c] == Some(g[r][c])
    ensures Cells(a) == Wrap(g)
  {
    forall r | 0 <= r < |g|
      ensures Cells(a)[r] == Wrap(g)[r]
    {
    }
  }

  /** The extremes of a non-empty nearest-neighbour grid lie within the
      samples' z range. */
  lemma GridExtremaWithinSamples(cloud: PointCloud, g: seq<seq<real>>)
    requires cloud.WellFormed() && cloud.Size() > 0 && |Flatten(g)| > 0
    requires forall i, j :: 0 <= i < |g| && 0 <= j < |g[i]| ==> Min(cloud.z) <= g[i][j] <= Max(cloud.z)
    ensures Min(cloud.z) <= Min(Flatten(g)) <= Max(Flatten(g)) <= Max(cloud.z)
  {
    FlattenMembership(g);
    assert Min(Flatten(g)) in Flatten(g);
    assert Max(Flatten(g)) in Flatten(g);
  }

  /** The DEM assembled from the nearest-neighbour grid over the mesh, with
      the metadata the source records, is the cloud's DEM, and its z range
      lies within the samples' z range. */
  lemma AssembledDemRasterises(cloud: PointCloud, resolution: real, gridSize: Option<(int, int)>,
                               sourceFile: string, width: int, height: int, d: Dem)
    requires cloud.WellFormed() && cloud.Size() > 0
    requires GridShape(CloudBounds(cloud), resolution, gridSize) == Some((width, height))
    requires width > 0 && height > 0
    requires d.grid == NearestGrid(cloud, BuildMesh(CloudBounds(cloud), width, height).0,
                                   BuildMesh(CloudBounds(cloud), width, height).1)
    requires d.meta.width == width && d.meta.height == height && d.meta.resolution == resolution
    requires d.meta.xMin == CloudBounds(cloud).xMin && d.meta.xMax == CloudBounds(cloud).xMax
    requires d.meta.yMin == CloudBounds(cloud).yMin && d.meta.yMax == CloudBounds(cloud).yMax
    requires d.meta.sourcePoints == cloud.Size() && d.meta.sourceFile == sourceFile
    requires |Flatten(d.grid)| > 0
    requires d.meta.zMin == Min(Flatten(d.grid)) && d.meta.zMax == Max(Flatten(d.grid))
    ensures Rasterises(cloud, resolution, gridSize, sourceFile, d)
    ensures Min(cloud.z) <= d.meta.zMin <= d.meta.zMax <= Max(cloud.z)
  {
    GridExtremaWithinSamples(cloud, d.grid);
  }

  /** The mesh, the nearest-neighbour grid written to a fresh array, and the
      in-place gap fill on it (fetch_usgs_lidar.py:210-225). Nearest-neighbour
      gridding of real samples leaves no NaN, so the fill changes nothing and
      the elevations are those of the nearest-neighbour grid. */
  method ElevationGrid(cloud: PointCloud, b: Bounds, width: nat, height: nat) returns (grid: seq<seq<real>>)
    requires cloud.WellFormed() && cloud.Size() > 0 && b.Ordered()
    ensures grid == NearestGrid(cloud, BuildMesh(b, width, height).0, BuildMesh(b, width, height).1)
  {
    var mesh := BuildMesh(b, width, height);
    var g := NearestGrid(cloud, mesh.0, mesh.1);
    var gridZ := new Option<real>[height, width]((i, j) =>
                   if 0 <= i < |g| && 0 <= j < |g[i]| then Some(g[i][j]) else None);
    CellsAreWrapped(gridZ, g);
    FillNaN(gridZ);
    WrapHasNoGaps(g);
    FillWithoutGapsIsIdentity(Wrap(g));
    grid := Values(Cells(gridZ));
    WrapInjective(grid, g);
  }

  /** `laz_to_dem` without its I/O: None where the source returns
      (None, None, None) after an exception, otherwise the DEM. */
  method LazToDem(cloud: PointCloud, resolution: real, gridSize: Option<(int, int)>, sourceFile: string)
    returns (r: Option<Dem>)
    requires cloud.WellFormed()
    ensures r.Some? <==> Succeeds(cloud, resolution, gridSize)
    ensures r.Some? ==> Rasterises(cloud, resolution, gridSize, sourceFile, r.value)
    ensures r.Some? ==> Min(cloud.z) <= r.value.meta.zMin <= r.value.meta.zMax <= Max(cloud.z)
  {
    if cloud.Size() == 0 {
      return None;
    }
    var b := CloudBounds(cloud);
    var shape := GridShape(b, resolution, gridSize);
    if shape.None? {
      return None;
    }
    var (width, height) := shape.value;
    if width < 0 || height < 0 {
      return None;
    }
    var grid := ElevationGrid(cloud, b, width, height);
    if width == 0 || height == 0 {
      return None;
    }
    FlattenLength(grid, width);
    var zMin, zMax := Min(Flatten(grid)), Max(Flatten(grid));
    var dem := Dem(grid, Metadata(width, height, resolution, b.xMin, b.xMax, b.yMin, b.yMax,
                                  zMin, zMax, cloud.Size(), sourceFile));
    AssembledDemRasterises(cloud, resolution, gridSize, sourceFile, width, height, dem);
    r := Some(dem);
  }

  // ---------------------------------------------------------------------------
  // A single sample.

  /** A single sample auto-sizes to a 0x0 grid, so the conversion fails: the
      code has no lower clamp on the auto-sized dimensions. */
  lemma SingleSampleAutoSizeFails()
    ensures !Succeeds(PointCloud([5.0], [5.0], [42.0]), 1.0, None)
  {
    var cloud := PointCloud([5.0], [5.0], [42.0]);
    NarrowExtentGivesZeroWidth(CloudBounds(cloud), 1.0);
  }

  /** With a 1x1 override the single sample fills the one cell, and the
      metadata's z range is that sample's z. */
  lemma SingleSampleOverride(d: Dem)
    requires Rasterises(PointCloud([5.0], [5.0], [42.0]), 1.0, Some((1, 1)), "one.laz", d)
    ensures d.grid == [[42.0]] && d.meta.zMin == 42.0 && d.meta.zMax == 42.0
  {
    var cloud := PointCloud([5.0], [5.0], [42.0]);
    var mesh := BuildMesh(CloudBounds(cloud), 1, 1);
    assert NearestValue(cloud, mesh.0[0][0], mesh.1[0][0], d.grid[0][0]);
    assert d.grid[0] == [42.0];
    assert Flatten(d.grid) == [42.0];
  }
}
