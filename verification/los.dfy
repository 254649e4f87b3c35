/** The boolean line-of-sight test of los.cpp: a cell-by-cell walk (in the style
    of Amanatides and Woo) over a row-major heightmap from the observer's cell
    towards the target's cell, comparing each visited cell's terrain with the
    height of the sight line there.

    Coordinates and ray parameters are reals; the infinity los.cpp stores for an
    axis the ray never crosses is `None`. */
module Los {
  import opened Wrappers
  import Stats

  /** The sight line from the observer (x0, y0, z0) to the target (x1, y1, z1),
      in grid units. */
  datatype Ray = Ray(x0: real, y0: real, z0: real, x1: real, y1: real, z1: real)
  {
    /** The sight line has a horizontal extent, so the division at los.cpp:64
        is defined. */
    predicate Valid()
    {
      x0 != x1 || y0 != y1
    }
  }

  /** How a tie tMaxX == tMaxY is broken: los.cpp steps y (`TieStepsY`);
      `TieKeepsEndRow` is the corrected rule, which steps x on a tie when the
      walk already stands in the target's row. */
  datatype TieRule = TieStepsY | TieKeepsEndRow

  /** The walk's state: the current cell and the ray parameters at which the
      ray next crosses a vertical (tMaxX) or horizontal (tMaxY) grid line;
      `None` is infinity, for an axis the ray never crosses. */
  datatype Cursor = Cursor(x: int, y: int, tMaxX: Option<real>, tMaxY: Option<real>)

  function Abs(r: real): real
  {
    if r < 0.0 then -r else r
  }

  function Min2(a: real, b: real): real
  {
    if a <= b then a else b
  }

  function Max2(a: real, b: real): real
  {
    if a >= b then a else b
  }

  // One-axis quantities: applied to (x0, x1) for columns and (y0, y1) for rows.

  /** The direction the walk moves along one axis: +1 when the ray increases
      along it, -1 otherwise (los.cpp:29-30). */
  function Step(a0: real, a1: real): int
  {
    if a1 - a0 > 0.0 then 1 else -1
  }

  /** The ray parameter at which the ray leaves cell `k` along one axis: it
      meets the grid line k+1 when moving up and the line k when moving down;
      `None` when the ray does not move along the axis (los.cpp:35-51). */
  function Crossing(a0: real, a1: real, k: int): Option<real>
  {
    if a1 - a0 != 0.0 then
      Some(((if a1 - a0 > 0.0 then k + 1 else k) as real - a0) / (a1 - a0))
    else None
  }

  /** The growth of the crossing parameter per cell: 1/|d|, or infinity. */
  function Delta(a0: real, a1: real): Option<real>
  {
    if a1 - a0 != 0.0 then Some(1.0 / Abs(a1 - a0)) else None
  }

  /** IEEE addition where infinity absorbs (los.cpp:80, :83). */
  function Plus(a: Option<real>, d: Option<real>): Option<real>
  {
    if a.Some? && d.Some? then Some(a.value + d.value) else None
  }

  /** IEEE `a < b` with `None` as +infinity. */
  predicate Less(a: Option<real>, b: Option<real>)
  {
    a.Some? && (b.None? || a.value < b.value)
  }

  function EndX(ray: Ray): int
  {
    ray.x1.Floor
  }

  function EndY(ray: Ray): int
  {
    ray.y1.Floor
  }

  /** The observer's cell with its first crossings (los.cpp:23-24, :35-51):
      the cell that contains the observer. */
  function Start(ray: Ray): (c: Cursor)
    ensures c.x as real <= ray.x0 < (c.x + 1) as real
    ensures c.y as real <= ray.y0 < (c.y + 1) as real
  {
    Cursor(ray.x0.Floor, ray.y0.Floor,
           Crossing(ray.x0, ray.x1, ray.x0.Floor), Crossing(ray.y0, ray.y1, ray.y0.Floor))
  }

  predicate AtEnd(ray: Ray, c: Cursor)
  {
    c.x == EndX(ray) && c.y == EndY(ray)
  }

  /** Whether the walk steps along x from `c` (los.cpp:79): whenever the x
      crossing comes first, never along an axis the ray does not cross, and
      under los.cpp's rule never on a tie. */
  predicate StepsX(ray: Ray, rule: TieRule, c: Cursor)
    ensures Less(c.tMaxX, c.tMaxY) ==> StepsX(ray, rule, c)
    ensures StepsX(ray, rule, c) ==> c.tMaxX.Some?
    ensures rule == TieStepsY && c.tMaxX == c.tMaxY ==> !StepsX(ray, rule, c)
  {
    Less(c.tMaxX, c.tMaxY) ||
    (rule == TieKeepsEndRow && c.tMaxX.Some? && c.tMaxX == c.tMaxY && c.y == EndY(ray))
  }

  /** One step of the walk: exactly one of x and y moves by one cell
      (los.cpp:79-85). */
  function Next(ray: Ray, rule: TieRule, c: Cursor): (n: Cursor)
    ensures AbsInt(n.x - c.x) + AbsInt(n.y - c.y) == 1
    ensures n.x != c.x <==> StepsX(ray, rule, c)
  {
    if StepsX(ray, rule, c) then
      c.(x := c.x + Step(ray.x0, ray.x1), tMaxX := Plus(c.tMaxX, Delta(ray.x0, ray.x1)))
    else
      c.(y := c.y + Step(ray.y0, ray.y1), tMaxY := Plus(c.tMaxY, Delta(ray.y0, ray.y1)))
  }

  predicate InBounds(width: int, height: int, x: int, y: int)
  {
    0 <= x < width && 0 <= y < height
  }

  /** The guard at los.cpp:55 makes the terrain read at los.cpp:71 safe: an
      in-bounds cell's row-major index lies inside a width*height heightmap. */
  lemma CellIndexInBounds(width: int, height: int, x: int, y: int)
    requires InBounds(width, height, x, y)
    ensures 0 <= y * width + x < width * height
  {
    assert y * width <= (height - 1) * width by {
      assert (height - 1 - y) * width >= 0;
    }
  }

  /** The ray parameter used for cell (x, y): measured along the dominant axis
      from the cell's lower corner, clamped to [0, 1] (los.cpp:59-67). */
  function RayParam(ray: Ray, x: int, y: int): (t: real)
    requires ray.Valid()
    ensures 0.0 <= t <= 1.0
  {
    var dx, dy := ray.x1 - ray.x0, ray.y1 - ray.y0;
    var t := if Abs(dx) > Abs(dy) then (x as real - ray.x0) / dx else (y as real - ray.y0) / dy;
    if t < 0.0 then 0.0 else if t > 1.0 then 1.0 else t
  }

  /** The sight line's height over cell (x, y) (los.cpp:69); with the parameter
      clamped it lies between the two endpoint heights. */
  function RayHeight(ray: Ray, x: int, y: int): (z: real)
    requires ray.Valid()
    ensures Min2(ray.z0, ray.z1) <= z <= Max2(ray.z0, ray.z1)
  {
    var t, dz := RayParam(ray, x, y), ray.z1 - ray.z0;
    ScaleWithinUnit(t, dz);
    assert dz >= 0.0 ==> ray.z0 <= ray.z0 + t * dz <= ray.z1;
    assert dz < 0.0 ==> ray.z1 <= ray.z0 + t * dz <= ray.z0;
    ray.z0 + t * dz
  }

  lemma RayHeightIs(ray: Ray, x: int, y: int, t: real, dz: real)
    requires ray.Valid() && t == RayParam(ray, x, y) && dz == ray.z1 - ray.z0
    ensures RayHeight(ray, x, y) == ray.z0 + t * dz
  {
  }

  /** A fraction t in [0, 1] of d lies between 0 and d. */
  lemma ScaleWithinUnit(t: real, d: real)
    requires 0.0 <= t <= 1.0
    ensures d >= 0.0 ==> 0.0 <= t * d <= d
    ensures d < 0.0 ==> d <= t * d <= 0.0
  {
    if d >= 0.0 {
      assert t * d >= 0.0 * d;
      assert (1.0 - t) * d >= 0.0;
    } else {
      assert t * (-d) >= 0.0;
      assert (1.0 - t) * (-d) >= 0.0;
    }
  }

  /** The terrain of an in-bounds cell, read row-major (los.cpp:71). */
  function Terrain(heightmap: seq<real>, width: int, height: int, x: int, y: int): (t: real)
    requires |heightmap| == width * height && InBounds(width, height, x, y)
    ensures t in heightmap
  {
    CellIndexInBounds(width, height, x, y);
    heightmap[y * width + x]
  }

  /** The terrain of an in-bounds cell rises above the sight line (los.cpp:71-74). */
  predicate Blocks(heightmap: seq<real>, width: int, height: int, ray: Ray, x: int, y: int)
    requires |heightmap| == width * height && ray.Valid() && InBounds(width, height, x, y)
  {
    Terrain(heightmap, width, height, x, y) > RayHeight(ray, x, y)
  }

  /** Terrain at or below the lower endpoint never blocks. */
  lemma LowTerrainNeverBlocks(heightmap: seq<real>, width: int, height: int, ray: Ray, x: int, y: int)
    requires |heightmap| == width * height && ray.Valid() && InBounds(width, height, x, y)
    requires Terrain(heightmap, width, height, x, y) <= Min2(ray.z0, ray.z1)
    ensures !Blocks(heightmap, width, height, ray, x, y)
  {
  }

  /** Terrain above the higher endpoint blocks wherever the walk meets it. */
  lemma HighTerrainBlocks(heightmap: seq<real>, width: int, height: int, ray: Ray, x: int, y: int)
    requires |heightmap| == width * height && ray.Valid() && InBounds(width, height, x, y)
    requires Terrain(heightmap, width, height, x, y) > Max2(ray.z0, ray.z1)
    ensures Blocks(heightmap, width, height, ray, x, y)
  {
  }

  /** The walk goes on past cell `c`: it is in bounds, not blocked and not the
      target's cell. */
  predicate Continues(heightmap: seq<real>, width: int, height: int, ray: Ray, c: Cursor)
    requires |heightmap| == width * height && ray.Valid()
  {
    InBounds(width, height, c.x, c.y) && !Blocks(heightmap, width, height, ray, c.x, c.y) && !AtEnd(ray, c)
  }

  /** The number of steps the walk can still take before leaving the grid,
      counting towards the edges it moves to. */
  function EdgeDistance(ray: Ray, width: int, height: int, c: Cursor): int
  {
    (if Step(ray.x0, ray.x1) > 0 then width - c.x else c.x + 1) +
    (if Step(ray.y0, ray.y1) > 0 then height - c.y else c.y + 1)
  }

  /** The outcome of the walk from `c`: 0.0 when it leaves the grid or meets
      blocking terrain, 1.0 when it reaches the target's cell unblocked. */
  function Walk(heightmap: seq<real>, width: int, height: int, ray: Ray, rule: TieRule, c: Cursor): (r: real)
    requires |heightmap| == width * height && ray.Valid()
    ensures r == 0.0 || r == 1.0
    ensures r == 1.0 ==> InBounds(width, height, c.x, c.y) && !Blocks(heightmap, width, height, ray, c.x, c.y)
    decreases EdgeDistance(ray, width, height, c)
  {
    if !InBounds(width, height, c.x, c.y) then 0.0
    else if Blocks(heightmap, width, height, ray, c.x, c.y) then 0.0
    else if AtEnd(ray, c) then 1.0
    else Walk(heightmap, width, height, ray, rule, Next(ray, rule, c))
  }

  /** One unfolding of Walk at a cell the walk moves on from. */
  lemma WalkMovesOn(heightmap: seq<real>, width: int, height: int, ray: Ray, rule: TieRule, c: Cursor)
    requires |heightmap| == width * height && ray.Valid()
    requires Continues(heightmap, width, height, ray, c)
    ensures Walk(heightmap, width, height, ray, rule, c) == Walk(heightmap, width, height, ray, rule, Next(ray, rule, c))
  {
  }

  /** One unfolding of Walk at a cell where the walk decides. */
  lemma WalkDecides(heightmap: seq<real>, width: int, height: int, ray: Ray, rule: TieRule, c: Cursor)
    requires |heightmap| == width * height && ray.Valid()
    ensures !InBounds(width, height, c.x, c.y) ==> Walk(heightmap, width, height, ray, rule, c) == 0.0
    ensures InBounds(width, height, c.x, c.y) && Blocks(heightmap, width, height, ray, c.x, c.y) ==>
              Walk(heightmap, width, height, ray, rule, c) == 0.0
    ensures InBounds(width, height, c.x, c.y) && !Blocks(heightmap, width, height, ray, c.x, c.y) && AtEnd(ray, c) ==>
              Walk(heightmap, width, height, ray, rule, c) == 1.0
  {
  }

  /** `trace` is a run of the walk: each cursor is the step of the one before. */
  ghost predicate IsWalk(ray: Ray, rule: TieRule, trace: seq<Cursor>)
  {
    forall k :: 0 <= k < |trace| - 1 ==> trace[k + 1] == Next(ray, rule, trace[k])
  }

  /** The walk decides `r` at cell `c`: 1.0 exactly when `c` is the target's
      cell, in bounds and unblocked; 0.0 exactly when `c` is outside the grid or
      blocked (los.cpp:55-56, :73-77). */
  predicate Decides(heightmap: seq<real>, width: int, height: int, ray: Ray, c: Cursor, r: real)
    requires |heightmap| == width * height && ray.Valid()
  {
    (r == 1.0 <==> InBounds(width, height, c.x, c.y) && !Blocks(heightmap, width, height, ray, c.x, c.y) && AtEnd(ray, c)) &&
    (r == 0.0 <==> !InBounds(width, height, c.x, c.y) || Blocks(heightmap, width, height, ray, c.x, c.y))
  }

  /** The body of one iteration after the bounds guard: the clamped ray
      parameter, the sight-line height and the terrain comparison
      (los.cpp:64-74). */
  method TerrainBlocks(heightmap: seq<real>, width: int, height: int,
                       x0: real, y0: real, z0: real, x1: real, y1: real, z1: real, x: int, y: int)
    returns (blocked: bool)
    requires |heightmap| == width * height && (x0 != x1 || y0 != y1) && InBounds(width, height, x, y)
    ensures blocked <==> Blocks(heightmap, width, height, Ray(x0, y0, z0, x1, y1, z1), x, y)
  {
    ghost var ray := Ray(x0, y0, z0, x1, y1, z1);
    var dx := x1 - x0;
    var dy := y1 - y0;
    var dz := z1 - z0;
    var t: real;
    if Abs(dx) > Abs(dy) {
      t := (x as real - x0) / dx;
    } else {
      t := (y as real - y0) / dy;
    }
    if t < 0.0 { t := 0.0; }
    if t > 1.0 { t := 1.0; }
    assert t == RayParam(ray, x, y);
    var rayHeight := z0 + t * dz;
    RayHeightIs(ray, x, y, t, dz);

    CellIndexInBounds(width, height, x, y);
    var terrain := heightmap[y * width + x];
    blocked := terrain > rayHeight;
  }

  /** The set-up of one axis (los.cpp:35-51): the ray parameter at which the
      ray leaves the observer's cell along the axis, and the growth of that
      parameter per cell; both infinite when the ray does not move along it.
      The observer lies inside its cell, so the first crossing comes no later
      than one cell's growth. */
  method FirstCrossing(a0: real, a1: real) returns (tMax: Option<real>, tDelta: Option<real>)
    ensures tMax == Crossing(a0, a1, a0.Floor) && tDelta == Delta(a0, a1)
    ensures tMax.Some? <==> a1 != a0
    ensures tMax.Some? ==> 0.0 <= tMax.value <= tDelta.value
  {
    var d := a1 - a0;
    var k := a0.Floor;
    var step := if d > 0.0 then 1 else -1;
    if d != 0.0 {
      var nextGrid := if step > 0 then k as real + 1.0 else k as real;
      tMax := Some((nextGrid - a0) / d);
      tDelta := Some(1.0 / Abs(d));
    } else {
      tMax, tDelta := None, None;
    }
  }

  /** los_boolean (los.cpp:7-89). `trace` is the sequence of cells the loop
      visits; the last is the one where it decides. */
  method LosBoolean(heightmap: seq<real>, width: int, height: int,
                    x0: real, y0: real, z0: real, x1: real, y1: real, z1: real)
    returns (r: real, ghost trace: seq<Cursor>)
    requires |heightmap| == width * height
    requires x0 != x1 || y0 != y1
    ensures r == 0.0 || r == 1.0
    ensures r == Walk(heightmap, width, height, Ray(x0, y0, z0, x1, y1, z1), TieStepsY, Start(Ray(x0, y0, z0, x1, y1, z1)))
    ensures |trace| >= 1 && trace[0] == Start(Ray(x0, y0, z0, x1, y1, z1))
    ensures IsWalk(Ray(x0, y0, z0, x1, y1, z1), TieStepsY, trace)
    ensures forall k :: 0 <= k < |trace| - 1 ==> Continues(heightmap, width, height, Ray(x0, y0, z0, x1, y1, z1), trace[k])
    ensures Decides(heightmap, width, height, Ray(x0, y0, z0, x1, y1, z1), trace[|trace| - 1], r)
  {
    ghost var ray := Ray(x0, y0, z0, x1, y1, z1);
    var dx := x1 - x0;
    var dy := y1 - y0;
    var dz := z1 - z0;

    var x := x0.Floor;
    var y := y0.Floor;
    var endX := x1.Floor;
    var endY := y1.Floor;

    var stepX := if dx > 0.0 then 1 else -1;
    var stepY := if dy > 0.0 then 1 else -1;

    var tMaxX, tDeltaX := FirstCrossing(x0, x1);
    var tMaxY, tDeltaY := FirstCrossing(y0, y1);

    trace := [Cursor(x, y, tMaxX, tMaxY)];
    while true
      invariant |trace| >= 1 && trace[0] == Start(ray) && trace[|trace| - 1] == Cursor(x, y, tMaxX, tMaxY)
      invariant IsWalk(ray, TieStepsY, trace)
      invariant forall k :: 0 <= k < |trace| - 1 ==> Continues(heightmap, width, height, ray, trace[k])
      invariant stepX == Step(x0, x1) && stepY == Step(y0, y1)
      invariant tDeltaX == Delta(x0, x1) && tDeltaY == Delta(y0, y1)
      invariant Walk(heightmap, width, height, ray, TieStepsY, Start(ray))
             == Walk(heightmap, width, height, ray, TieStepsY, Cursor(x, y, tMaxX, tMaxY))
      decreases EdgeDistance(ray, width, height, Cursor(x, y, tMaxX, tMaxY))
    {
      WalkDecides(heightmap, width, height, ray, TieStepsY, Cursor(x, y, tMaxX, tMaxY));
      if x < 0 || y < 0 || x >= width || y >= height {
        r := 0.0;
        return;
      }

      var blocked := TerrainBlocks(heightmap, width, height, x0, y0, z0, x1, y1, z1, x, y);
      if blocked {
        r := 0.0;
        return;
      }

      if x == endX && y == endY {
        break;
      }

      ghost var before := Cursor(x, y, tMaxX, tMaxY);
      if Less(tMaxX, tMaxY) {
        tMaxX := Plus(tMaxX, tDeltaX);
        x := x + stepX;
      } else {
        tMaxY := Plus(tMaxY, tDeltaY);
        y := y + stepY;
      }
      assert Cursor(x, y, tMaxX, tMaxY) == Next(ray, TieStepsY, before);
      WalkMovesOn(heightmap, width, height, ray, TieStepsY, before);
      trace := trace + [Cursor(x, y, tMaxX, tMaxY)];
    }
    r := 1.0;
  }

  // ---------------------------------------------------------------------------
  // The walk moves one cell at a time, monotonically.

  /** Along a run of the walk x and y never move against their step direction,
      and the run advances by exactly one cell per step (los.cpp:29-30, :79-85). */
  lemma {:induction false} WalkIsMonotone(ray: Ray, rule: TieRule, trace: seq<Cursor>)
    requires IsWalk(ray, rule, trace)
    ensures forall k, l :: 0 <= k <= l < |trace| ==>
              Progress(ray, trace[l]).0 >= Progress(ray, trace[k]).0 &&
              Progress(ray, trace[l]).1 >= Progress(ray, trace[k]).1 &&
              Progress(ray, trace[l]).0 + Progress(ray, trace[l]).1
                == Progress(ray, trace[k]).0 + Progress(ray, trace[k]).1 + (l - k)
  {
    if |trace| > 1 {
      var prefix := trace[..|trace| - 1];
      assert IsWalk(ray, rule, prefix) by {
        forall k | 0 <= k < |prefix| - 1
          ensures prefix[k + 1] == Next(ray, rule, prefix[k])
        {
          assert prefix[k] == trace[k] && prefix[k + 1] == trace[k + 1];
        }
      }
      WalkIsMonotone(ray, rule, prefix);
      var n := |trace| - 1;
      assert trace[n] == Next(ray, rule, trace[n - 1]);
      forall k, l | 0 <= k <= l < |trace|
        ensures Progress(ray, trace[l]).0 >= Progress(ray, trace[k]).0 &&
                Progress(ray, trace[l]).1 >= Progress(ray, trace[k]).1 &&
                Progress(ray, trace[l]).0 + Progress(ray, trace[l]).1
                  == Progress(ray, trace[k]).0 + Progress(ray, trace[k]).1 + (l - k)
      {
        if l < n {
          assert trace[k] == prefix[k] && trace[l] == prefix[l];
        } else if k < n {
          assert trace[k] == prefix[k] && trace[n - 1] == prefix[n - 1];
        }
      }
    }
  }

  /** How far a cursor has moved in each axis's step direction. */
  function Progress(ray: Ray, c: Cursor): (int, int)
  {
    (c.x * Step(ray.x0, ray.x1), c.y * Step(ray.y0, ray.y1))
  }

  // ---------------------------------------------------------------------------
  // One axis: where the crossings lie relative to 1, the parameter of the target.

  /** Cell k lies between the observer's and the target's cell along one axis. */
  predicate Between(a0: real, a1: real, k: int)
  {
    (a0.Floor <= k <= a1.Floor) || (a1.Floor <= k <= a0.Floor)
  }

  predicate IsIntegral(a: real)
  {
    a == a.Floor as real
  }

  /** n/d compared with 1, for d of either sign. */
  lemma QuotientVersusOne(n: real, d: real)
    requires d != 0.0
    ensures d > 0.0 ==> (n / d <= 1.0 <==> n <= d) && (n / d < 1.0 <==> n < d)
    ensures d < 0.0 ==> (n / d <= 1.0 <==> n >= d) && (n / d < 1.0 <==> n > d)
    ensures n / d == 1.0 <==> n == d
  {
    var q := n / d;
    assert q * d == n;
    assert (q - 1.0) * d == n - d;
    if d > 0.0 {
      assert q < 1.0 ==> (q - 1.0) * d < 0.0;
      assert q > 1.0 ==> (q - 1.0) * d > 0.0;
    } else {
      assert q < 1.0 ==> (q - 1.0) * d > 0.0;
      assert q > 1.0 ==> (q - 1.0) * d < 0.0;
    }
  }

  /** Along an axis the ray moves on, the observer's and the target's cells are
      ordered by the direction of motion; along an axis it does not move on,
      they coincide. */
  lemma AxisDirection(a0: real, a1: real)
    ensures a1 - a0 > 0.0 ==> a0.Floor <= a1.Floor
    ensures a1 - a0 < 0.0 ==> a1.Floor <= a0.Floor
    ensures a1 - a0 == 0.0 ==> a0.Floor == a1.Floor
  {
  }

  /** At the target's cell the ray crosses its boundary no earlier than at the
      target itself: later when moving up, exactly at it when moving down onto
      an integral target. */
  lemma CrossingAtEnd(a0: real, a1: real)
    requires a1 - a0 != 0.0
    ensures Crossing(a0, a1, a1.Floor).Some? && Crossing(a0, a1, a1.Floor).value >= 1.0
    ensures a1 - a0 > 0.0 ==> Crossing(a0, a1, a1.Floor).value > 1.0
    ensures Crossing(a0, a1, a1.Floor).value == 1.0 <==> a1 - a0 < 0.0 && IsIntegral(a1)
  {
    var d, e := a1 - a0, a1.Floor;
    if d > 0.0 {
      QuotientVersusOne((e + 1) as real - a0, d);
    } else {
      QuotientVersusOne(e as real - a0, d);
    }
  }

  /** At a cell short of the target's the ray leaves the cell no later than at
      the target: earlier when moving down, exactly at it only when moving up
      onto an integral target from the neighbouring cell. */
  lemma CrossingBeforeEnd(a0: real, a1: real, k: int)
    requires Between(a0, a1, k) && k != a1.Floor
    ensures a1 - a0 != 0.0 && Crossing(a0, a1, k).Some? && Crossing(a0, a1, k).value <= 1.0
    ensures a1 - a0 < 0.0 ==> Crossing(a0, a1, k).value < 1.0
    ensures Crossing(a0, a1, k).value == 1.0 <==> a1 - a0 > 0.0 && IsIntegral(a1) && k + 1 == a1.Floor
  {
    AxisDirection(a0, a1);
    var d, e := a1 - a0, a1.Floor;
    if d > 0.0 {
      QuotientVersusOne((k + 1) as real - a0, d);
    } else {
      QuotientVersusOne(k as real - a0, d);
    }
  }

  /** Stepping from a cell short of the target's keeps the walk between the two
      cells, one cell nearer the target's, with the crossing advanced by the
      per-cell delta (los.cpp:80-84). */
  lemma CrossingAdvance(a0: real, a1: real, k: int)
    requires Between(a0, a1, k) && k != a1.Floor
    ensures Between(a0, a1, k + Step(a0, a1))
    ensures Crossing(a0, a1, k + Step(a0, a1)) == Plus(Crossing(a0, a1, k), Delta(a0, a1))
    ensures AbsInt(a1.Floor - (k + Step(a0, a1))) == AbsInt(a1.Floor - k) - 1
  {
    AxisDirection(a0, a1);
    var d := a1 - a0;
    if d > 0.0 {
      assert ((k + 2) as real - a0) / d == ((k + 1) as real - a0) / d + 1.0 / d;
    } else {
      assert ((k - 1) as real - a0) / d == (k as real - a0) / d + 1.0 / (-d);
    }
  }

  function AbsInt(n: int): nat
  {
    if n < 0 then -n else n
  }

  // ---------------------------------------------------------------------------
  // Reaching the target's cell.

  /** The cursor is on the way to the target: its cell lies between the
      observer's and the target's cells on both axes, and its crossings are
      those of its cell. */
  ghost predicate Placed(ray: Ray, c: Cursor)
  {
    Between(ray.x0, ray.x1, c.x) && Between(ray.y0, ray.y1, c.y) &&
    c.tMaxX == Crossing(ray.x0, ray.x1, c.x) && c.tMaxY == Crossing(ray.y0, ray.y1, c.y)
  }

  /** The number of cells the walk still has to move to reach the target's cell. */
  function EndDistance(ray: Ray, c: Cursor): nat
  {
    AbsInt(EndX(ray) - c.x) + AbsInt(EndY(ray) - c.y)
  }

  /** The target lies on a grid corner (both coordinates integral) and is
      approached with x increasing and y decreasing. */
  predicate CornerApproach(ray: Ray)
  {
    ray.x1 - ray.x0 > 0.0 && ray.y1 - ray.y0 < 0.0 && IsIntegral(ray.x1) && IsIntegral(ray.y1)
  }

  lemma StartIsPlaced(ray: Ray)
    ensures Placed(ray, Start(ray))
  {
    AxisDirection(ray.x0, ray.x1);
    AxisDirection(ray.y0, ray.y1);
  }

  /** From a cell on the way, the corrected walk, and los.cpp's walk on every
      ray but a corner approach, step along an axis on which the target's cell
      is not yet reached: the next cursor is on the way and one cell nearer. */
  lemma NextApproachesEnd(ray: Ray, rule: TieRule, c: Cursor)
    requires ray.Valid() && Placed(ray, c) && !AtEnd(ray, c)
    requires rule == TieKeepsEndRow || !CornerApproach(ray)
    ensures Placed(ray, Next(ray, rule, c))
    ensures EndDistance(ray, Next(ray, rule, c)) == EndDistance(ray, c) - 1
  {
    if c.x == EndX(ray) {
      InEndColumnStepsY(ray, rule, c);
      CrossingAdvance(ray.y0, ray.y1, c.y);
    } else if c.y == EndY(ray) {
      InEndRowStepsX(ray, rule, c);
      CrossingAdvance(ray.x0, ray.x1, c.x);
    } else {
      CrossingAdvance(ray.x0, ray.x1, c.x);
      CrossingAdvance(ray.y0, ray.y1, c.y);
    }
  }

  /** In the target's column, short of its row, the walk steps y: the x
      crossing lies beyond the target, the y crossing not. */
  lemma InEndColumnStepsY(ray: Ray, rule: TieRule, c: Cursor)
    requires Placed(ray, c) && c.x == EndX(ray) && c.y != EndY(ray)
    ensures !StepsX(ray, rule, c)
  {
    CrossingBeforeEnd(ray.y0, ray.y1, c.y);
    if ray.x1 - ray.x0 != 0.0 {
      CrossingAtEnd(ray.x0, ray.x1);
    }
  }

  /** In the target's row, short of its column, the walk steps x, except on
      a corner approach under los.cpp's tie rule. */
  lemma InEndRowStepsX(ray: Ray, rule: TieRule, c: Cursor)
    requires Placed(ray, c) && c.y == EndY(ray) && c.x != EndX(ray)
    requires rule == TieKeepsEndRow || !CornerApproach(ray)
    ensures StepsX(ray, rule, c)
  {
    CrossingBeforeEnd(ray.x0, ray.x1, c.x);
    if ray.y1 - ray.y0 != 0.0 {
      CrossingAtEnd(ray.y0, ray.y1);
    }
  }

  /** A cell between two in-bounds cells is in bounds. */
  lemma PlacedInBounds(width: int, height: int, ray: Ray, c: Cursor)
    requires Placed(ray, c)
    requires InBounds(width, height, Start(ray).x, Start(ray).y) && InBounds(width, height, EndX(ray), EndY(ray))
    ensures InBounds(width, height, c.x, c.y)
  {
  }

  /** With every terrain value at or below both endpoints, the walk from a
      cursor on the way reaches the target's cell and reports it visible. */
  lemma {:induction false} WalkReachesEnd(heightmap: seq<real>, width: int, height: int, ray: Ray, rule: TieRule, c: Cursor)
    requires |heightmap| == width * height && ray.Valid() && Placed(ray, c)
    requires rule == TieKeepsEndRow || !CornerApproach(ray)
    requires InBounds(width, height, Start(ray).x, Start(ray).y) && InBounds(width, height, EndX(ray), EndY(ray))
    requires forall i :: 0 <= i < |heightmap| ==> heightmap[i] <= Min2(ray.z0, ray.z1)
    ensures Walk(heightmap, width, height, ray, rule, c) == 1.0
    decreases EndDistance(ray, c)
  {
    PlacedInBounds(width, height, ray, c);
    CellIndexInBounds(width, height, c.x, c.y);
    LowTerrainNeverBlocks(heightmap, width, height, ray, c.x, c.y);
    WalkDecides(heightmap, width, height, ray, rule, c);
    if !AtEnd(ray, c) {
      WalkMovesOn(heightmap, width, height, ray, rule, c);
      NextApproachesEnd(ray, rule, c);
      WalkReachesEnd(heightmap, width, height, ray, rule, Next(ray, rule, c));
    }
  }

  /** Terrain that nowhere rises above the lower endpoint never hides the
      target, when both endpoints' cells lie in the grid: for the corrected tie
      rule on every ray, and for los.cpp's rule on every ray but a corner
      approach (static_test.py:17-26). */
  lemma FlatTerrainVisible(heightmap: seq<real>, width: int, height: int, ray: Ray, rule: TieRule)
    requires |heightmap| == width * height && ray.Valid()
    requires rule == TieKeepsEndRow || !CornerApproach(ray)
    requires InBounds(width, height, Start(ray).x, Start(ray).y) && InBounds(width, height, EndX(ray), EndY(ray))
    requires forall i :: 0 <= i < |heightmap| ==> heightmap[i] <= Min2(ray.z0, ray.z1)
    ensures Walk(heightmap, width, height, ray, rule, Start(ray)) == 1.0
  {
    StartIsPlaced(ray);
    WalkReachesEnd(heightmap, width, height, ray, rule, Start(ray));
  }

  /** Off a corner approach the two tie rules step alike from a cell on the
      way to the target: a tie can only differ in the target's row, and there
      los.cpp's rule already steps x. */
  lemma RulesStepAlike(ray: Ray, c: Cursor)
    requires Placed(ray, c) && !AtEnd(ray, c) && !CornerApproach(ray)
    ensures Next(ray, TieStepsY, c) == Next(ray, TieKeepsEndRow, c)
  {
    if c.y == EndY(ray) {
      InEndRowStepsX(ray, TieStepsY, c);
    }
  }

  lemma {:induction false} RulesWalkAlike(heightmap: seq<real>, width: int, height: int, ray: Ray, c: Cursor)
    requires |heightmap| == width * height && ray.Valid() && Placed(ray, c) && !CornerApproach(ray)
    ensures Walk(heightmap, width, height, ray, TieStepsY, c) == Walk(heightmap, width, height, ray, TieKeepsEndRow, c)
    decreases EndDistance(ray, c)
  {
    WalkDecides(heightmap, width, height, ray, TieStepsY, c);
    WalkDecides(heightmap, width, height, ray, TieKeepsEndRow, c);
    if Continues(heightmap, width, height, ray, c) {
      WalkMovesOn(heightmap, width, height, ray, TieStepsY, c);
      WalkMovesOn(heightmap, width, height, ray, TieKeepsEndRow, c);
      RulesStepAlike(ray, c);
      NextApproachesEnd(ray, TieStepsY, c);
      RulesWalkAlike(heightmap, width, height, ray, Next(ray, TieStepsY, c));
    }
  }

  /** The corrected tie rule changes los.cpp's answer on corner approaches
      only: on every other ray and every heightmap both rules give the same
      result. */
  lemma TieRuleMattersOnlyOnCorners(heightmap: seq<real>, width: int, height: int, ray: Ray)
    requires |heightmap| == width * height && ray.Valid() && !CornerApproach(ray)
    ensures Walk(heightmap, width, height, ray, TieStepsY, Start(ray)) ==
            Walk(heightmap, width, height, ray, TieKeepsEndRow, Start(ray))
  {
    StartIsPlaced(ray);
    RulesWalkAlike(heightmap, width, height, ray, Start(ray));
  }

  // ---------------------------------------------------------------------------
  // The tie rule of los.cpp:79 on a corner approach.

  /** Once the walk has moved past the target's row in a downward walk, it can
      never come back to it: the target's cell is never reached and the walk
      reports the target hidden, whatever the terrain. */
  lemma {:induction false} NeverArrivesPastEndRow(heightmap: seq<real>, width: int, height: int, ray: Ray, rule: TieRule, c: Cursor)
    requires |heightmap| == width * height && ray.Valid()
    requires ray.y1 - ray.y0 <= 0.0 && c.y < EndY(ray)
    ensures Walk(heightmap, width, height, ray, rule, c) == 0.0
    decreases EdgeDistance(ray, width, height, c)
  {
    WalkDecides(heightmap, width, height, ray, rule, c);
    if InBounds(width, height, c.x, c.y) && !Blocks(heightmap, width, height, ray, c.x, c.y) {
      WalkMovesOn(heightmap, width, height, ray, rule, c);
      NeverArrivesPastEndRow(heightmap, width, height, ray, rule, Next(ray, rule, c));
    }
  }

  /** On a corner approach, los.cpp's walk from a cell on the way that has not
      reached the target's column never reaches the target's cell: in the
      column before it the x crossing equals 1, a tie with the y crossing in
      the target's row, and the tie steps y past that row. */
  lemma {:induction false} CornerWalkOvershoots(heightmap: seq<real>, width: int, height: int, ray: Ray, c: Cursor)
    requires |heightmap| == width * height && CornerApproach(ray)
    requires Placed(ray, c) && c.x < EndX(ray)
    ensures Walk(heightmap, width, height, ray, TieStepsY, c) == 0.0
    decreases EdgeDistance(ray, width, height, c)
  {
    WalkDecides(heightmap, width, height, ray, TieStepsY, c);
    if InBounds(width, height, c.x, c.y) && !Blocks(heightmap, width, height, ray, c.x, c.y) {
      WalkMovesOn(heightmap, width, height, ray, TieStepsY, c);
      var n := Next(ray, TieStepsY, c);
      AxisDirection(ray.x0, ray.x1);
      AxisDirection(ray.y0, ray.y1);
      CrossingBeforeEnd(ray.x0, ray.x1, c.x);
      CrossingAdvance(ray.x0, ray.x1, c.x);
      if c.y == EndY(ray) {
        CrossingAtEnd(ray.y0, ray.y1);
        if c.x + 1 < EndX(ray) {
          assert n.x == c.x + 1 && n.y == c.y;
          CornerWalkOvershoots(heightmap, width, height, ray, n);
        } else {
          assert n.y == c.y - 1;
          NeverArrivesPastEndRow(heightmap, width, height, ray, TieStepsY, n);
        }
      } else {
        CrossingBeforeEnd(ray.y0, ray.y1, c.y);
        CrossingAdvance(ray.y0, ray.y1, c.y);
        CornerWalkOvershoots(heightmap, width, height, ray, n);
      }
    }
  }

  /** In exact arithmetic, los.cpp's walk reports a target on a grid corner,
      approached with x increasing and y decreasing, as hidden whatever the
      terrain: the walk never visits the target's cell. In doubles this holds
      whenever the rounded tMaxX and tMaxY at the end row come out equal, as
      in `TieOvershootExample`; where rounding breaks the tie, x steps first
      and the walk can reach the target. */
  lemma CornerTargetNeverVisible(heightmap: seq<real>, width: int, height: int, ray: Ray)
    requires |heightmap| == width * height && CornerApproach(ray)
    ensures Walk(heightmap, width, height, ray, TieStepsY, Start(ray)) == 0.0
  {
    StartIsPlaced(ray);
    CornerWalkOvershoots(heightmap, width, height, ray, Start(ray));
  }

  /** A flat 4x2 grid at height 0 seen from (0, 1.5, 1) towards (2, 1, 1): the
      sight line is clear and both cells lie in the grid, yet los.cpp's walk
      reports 0.0, while the corrected tie rule reports 1.0. */
  lemma TieOvershootExample()
    ensures var ray := Ray(0.0, 1.5, 1.0, 2.0, 1.0, 1.0);
            InBounds(4, 2, Start(ray).x, Start(ray).y) && InBounds(4, 2, EndX(ray), EndY(ray)) &&
            Walk(seq(8, _ => 0.0), 4, 2, ray, TieStepsY, Start(ray)) == 0.0 &&
            Walk(seq(8, _ => 0.0), 4, 2, ray, TieKeepsEndRow, Start(ray)) == 1.0
  {
    var ray := Ray(0.0, 1.5, 1.0, 2.0, 1.0, 1.0);
    var hm: seq<real> := seq(8, _ => 0.0);
    CornerTargetNeverVisible(hm, 4, 2, ray);
    FlatTerrainVisible(hm, 4, 2, ray, TieKeepsEndRow);
  }

  // ---------------------------------------------------------------------------
  // The heightmap los.cpp reads: a DEM grid, flattened row-major.

  /** A DEM grid of `height` rows of `width` elevations, flattened row-major
      as numpy hands it to los.cpp, is a heightmap of width*height cells whose
      cell (x, y) is row y, column x of the grid. */
  lemma GridTerrain(grid: seq<seq<real>>, width: int, height: int, x: int, y: int)
    requires Stats.IsGrid(grid, width, height) && InBounds(width, height, x, y)
    ensures |Stats.Flatten(grid)| == width * height
    ensures Terrain(Stats.Flatten(grid), width, height, x, y) == grid[y][x]
  {
    Stats.FlattenLength(grid, width);
    Stats.FlattenIndex(grid, width, y, x);
  }

  // ---------------------------------------------------------------------------
  // The scenarios of static_test.py on a 1000x1000 grid.

  /** The diagonal sight line of static_test.py: (100, 100) to (900, 900). */
  function DiagonalRay(z: real): Ray
  {
    Ray(100.0, 100.0, z, 900.0, 900.0, z)
  }

  /** A 1000x1000 heightmap, flat at 0 except for a hill of height 50 at
      cell (500, 500) (static_test.py:28-31). */
  function HillMap(): seq<real>
  {
    seq(1000000, i => if i == 500500 then 50.0 else 0.0)
  }

  /** Flat terrain at height 0 with both endpoints at height 10: visible
      (static_test.py:17-22). */
  lemma StaticFlatVisible()
    ensures Walk(seq(1000000, _ => 0.0), 1000, 1000, DiagonalRay(10.0), TieStepsY, Start(DiagonalRay(10.0))) == 1.0
  {
    FlatTerrainVisible(seq(1000000, _ => 0.0), 1000, 1000, DiagonalRay(10.0), TieStepsY);
  }

  /** Raised to height 100, both endpoints see over the hill (static_test.py:33-35). */
  lemma StaticRaisedVisible()
    ensures Walk(HillMap(), 1000, 1000, DiagonalRay(100.0), TieStepsY, Start(DiagonalRay(100.0))) == 1.0
  {
    FlatTerrainVisible(HillMap(), 1000, 1000, DiagonalRay(100.0), TieStepsY);
  }

  /** On the diagonal, the walk alternates a tie (stepping y) and an x step;
      from cell (k, k) it reaches the hill at (500, 500), which rises above the
      sight line at height 10. */
  lemma {:induction false} DiagonalMeetsHill(k: int)
    requires 100 <= k <= 500
    ensures var ray := DiagonalRay(10.0);
            Walk(HillMap(), 1000, 1000, ray, TieStepsY,
                 Cursor(k, k, Crossing(100.0, 900.0, k), Crossing(100.0, 900.0, k))) == 0.0
    decreases 500 - k
  {
    var ray, hm := DiagonalRay(10.0), HillMap();
    var c := Cursor(k, k, Crossing(100.0, 900.0, k), Crossing(100.0, 900.0, k));
    assert Terrain(hm, 1000, 1000, k, k) == hm[k * 1000 + k];
    WalkDecides(hm, 1000, 1000, ray, TieStepsY, c);
    if k < 500 {
      LowTerrainNeverBlocks(hm, 1000, 1000, ray, k, k);
      WalkMovesOn(hm, 1000, 1000, ray, TieStepsY, c);
      var m := Next(ray, TieStepsY, c);
      CrossingAdvance(100.0, 900.0, k);
      assert m == Cursor(k, k + 1, Crossing(100.0, 900.0, k), Crossing(100.0, 900.0, k + 1));
      assert Terrain(hm, 1000, 1000, k, k + 1) == hm[(k + 1) * 1000 + k];
      LowTerrainNeverBlocks(hm, 1000, 1000, ray, k, k + 1);
      WalkMovesOn(hm, 1000, 1000, ray, TieStepsY, m);
      assert Next(ray, TieStepsY, m) == Cursor(k + 1, k + 1, Crossing(100.0, 900.0, k + 1), Crossing(100.0, 900.0, k + 1));
      DiagonalMeetsHill(k + 1);
    } else {
      HighTerrainBlocks(hm, 1000, 1000, ray, k, k);
    }
  }

  /** The hill at (500, 500) hides the target from the observer at height 10
      (static_test.py:28-31). */
  lemma StaticHillBlocks()
    ensures Walk(HillMap(), 1000, 1000, DiagonalRay(10.0), TieStepsY, Start(DiagonalRay(10.0))) == 0.0
  {
    DiagonalMeetsHill(100);
  }
}
