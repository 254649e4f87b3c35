/** Reductions over sequences of reals, as numpy computes them on an array:
    minimum, maximum, sum, mean, row-major flattening and the defined (non-NaN)
    values of a sequence of cells. */
module Stats {
  import opened Wrappers

  /** numpy `a.min()` on a non-empty array: the least element, which occurs in `s`. */
  function Min(s: seq<real>): (m: real)
    requires |s| > 0
    ensures m in s
    ensures forall i :: 0 <= i < |s| ==> m <= s[i]
  {
    if |s| == 1 then s[0]
    else
      var rest := Min(s[1..]);
      if s[0] <= rest then s[0] else rest
  }

  /** numpy `a.max()` on a non-empty array: the greatest element, which occurs in `s`. */
  function Max(s: seq<real>): (m: real)
    requires |s| > 0
    ensures m in s
    ensures forall i :: 0 <= i < |s| ==> s[i] <= m
  {
    if |s| == 1 then s[0]
    else
      var rest := Max(s[1..]);
      if s[0] >= rest then s[0] else rest
  }

  function Sum(s: seq<real>): real
  {
    if s == [] then 0.0 else s[0] + Sum(s[1..])
  }

  /** A sum of terms that all lie in [lo, hi] lies between |s|*lo and |s|*hi. */
  lemma {:induction false} SumBounds(s: seq<real>, lo: real, hi: real)
    requires forall i :: 0 <= i < |s| ==> lo <= s[i] <= hi
    ensures (|s| as real) * lo <= Sum(s) <= (|s| as real) * hi
  {
    if s != [] {
      SumBounds(s[1..], lo, hi);
      assert (|s| as real) * lo == lo + (|s[1..]| as real) * lo;
      assert (|s| as real) * hi == hi + (|s[1..]| as real) * hi;
    }
  }

  /** Dividing by a positive count keeps a value that lies between count*lo and
      count*hi between lo and hi. */
  lemma QuotientBounds(x: real, n: real, lo: real, hi: real)
    requires n > 0.0 && n * lo <= x <= n * hi
    ensures lo <= x / n <= hi
  {
    var q := x / n;
    assert q * n == x;
    assert (q - lo) * n == x - n * lo;
    assert (hi - q) * n == n * hi - x;
  }

  /** The sum of a non-empty sequence of terms in [lo, hi], over its length,
      lies in [lo, hi]. */
  lemma MeanWithin(s: seq<real>, lo: real, hi: real)
    requires |s| > 0
    requires forall i :: 0 <= i < |s| ==> lo <= s[i] <= hi
    ensures lo <= Sum(s) / (|s| as real) <= hi
  {
    SumBounds(s, lo, hi);
    QuotientBounds(Sum(s), |s| as real, lo, hi);
  }

  /** The arithmetic mean of a non-empty sequence lies between its least and
      greatest element. */
  function Mean(s: seq<real>): (m: real)
    requires |s| > 0
    ensures Min(s) <= m <= Max(s)
  {
    MeanWithin(s, Min(s), Max(s));
    Sum(s) / (|s| as real)
  }

  /** Adding copies of a value that lies between the extremes of a non-empty
      sequence leaves its least and greatest element where they were. */
  lemma SameExtrema(d: seq<real>, e: seq<real>, v: real)
    requires |d| > 0 && Min(d) <= v <= Max(d)
    requires forall x :: x in d ==> x in e
    requires forall x :: x in e ==> x in d || x == v
    ensures |e| > 0 && Min(e) == Min(d) && Max(e) == Max(d)
  {
    assert d[0] in e;
    assert Min(d) in e && Max(d) in e;
    var lo, hi := Min(e), Max(e);
    assert lo in d || lo == v;
    assert hi in d || hi == v;
  }

  /** Row-major flattening of a two-dimensional grid (numpy's C order). */
  function Flatten<T>(g: seq<seq<T>>): seq<T>
  {
    if g == [] then [] else g[0] + Flatten(g[1..])
  }

  /** `g` has `height` rows of `width` cells each. */
  ghost predicate IsGrid<T>(g: seq<seq<T>>, width: int, height: int)
  {
    |g| == height && forall i :: 0 <= i < |g| ==> |g[i]| == width
  }

  /** A value occurs in the flattened grid exactly when it is some cell of the grid. */
  lemma {:induction false} FlattenMembership<T>(g: seq<seq<T>>)
    ensures forall v :: v in Flatten(g) <==>
              exists i, j :: 0 <= i < |g| && 0 <= j < |g[i]| && g[i][j] == v
  {
    if g != [] {
      FlattenMembership(g[1..]);
      forall v
        ensures v in Flatten(g) <==>
                exists i, j :: 0 <= i < |g| && 0 <= j < |g[i]| && g[i][j] == v
      {
        if v in Flatten(g) {
          if v in g[0] {
            var j :| 0 <= j < |g[0]| && g[0][j] == v;
            assert g[0][j] == v;
          } else {
            assert v in Flatten(g[1..]);
            var i, j :| 0 <= i < |g[1..]| && 0 <= j < |g[1..][i]| && g[1..][i][j] == v;
            assert g[i + 1][j] == v;
          }
        }
        if exists i, j :: 0 <= i < |g| && 0 <= j < |g[i]| && g[i][j] == v {
          var i, j :| 0 <= i < |g| && 0 <= j < |g[i]| && g[i][j] == v;
          if i == 0 {
            assert v in g[0];
          } else {
            assert g[1..][i - 1][j] == v;
          }
        }
      }
    }
  }

  /** A grid of rows that all have `width` cells flattens to |g|*width cells. */
  lemma {:induction false} FlattenLength<T>(g: seq<seq<T>>, width: nat)
    requires forall i :: 0 <= i < |g| ==> |g[i]| == width
    ensures |Flatten(g)| == |g| * width
  {
    if g != [] {
      FlattenLength(g[1..], width);
      assert |g| * width == width + (|g| - 1) * width;
    }
  }

  /** In a grid of rows that all have `width` cells, cell (i, j) lands at index
      i*width + j of the flattening: the layout the line-of-sight walk reads. */
  lemma {:induction false} FlattenIndex<T>(g: seq<seq<T>>, width: nat, i: nat, j: nat)
    requires forall r :: 0 <= r < |g| ==> |g[r]| == width
    requires i < |g| && j < width
    ensures i * width + j < |Flatten(g)| && Flatten(g)[i * width + j] == g[i][j]
  {
    if i > 0 {
      FlattenIndex(g[1..], width, i - 1, j);
      assert i * width + j == width + ((i - 1) * width + j);
    }
  }

  /** The defined values of a sequence of cells, in order (numpy's `a[~isnan(a)]`). */
  function Defined(s: seq<Option<real>>): (d: seq<real>)
    ensures forall v :: v in d <==> Some(v) in s
    ensures forall v :: multiset(d)[v] == multiset(s)[Some(v)]
    ensures |d| <= |s|
  {
    if s == [] then []
    else
      assert s == [s[0]] + s[1..];
      if s[0].Some? then [s[0].value] + Defined(s[1..])
      else Defined(s[1..])
  }
}
