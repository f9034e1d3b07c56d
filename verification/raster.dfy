/** Greyscale and binary images as grids of 8-bit pixels (rows of columns),
    the ink count and ink ratio of a grid, and rectangular crops. */
module Raster {

  /** One `uint8` pixel. */
  type Pixel = p: int | 0 <= p < 256

  /** A grid indexed `g[row][col]`, as numpy indexes an image array. */
  type Grid = seq<seq<Pixel>>

  /** The ink value of a thresholded image; background is `Paper`. */
  const Ink: Pixel := 0
  const Paper: Pixel := 255

  predicate IsGrid(g: Grid, h: nat, w: nat) {
    |g| == h && forall i :: 0 <= i < h ==> |g[i]| == w
  }

  predicate SameShape(a: Grid, b: Grid) {
    |a| == |b| && forall i :: 0 <= i < |a| ==> |a[i]| == |b[i]|
  }

  predicate IsBinary(g: Grid) {
    forall i, j :: 0 <= i < |g| && 0 <= j < |g[i]| ==> g[i][j] == Ink || g[i][j] == Paper
  }

  /** Number of ink cells of a row. */
  function RowInk(row: seq<Pixel>): (n: nat)
    ensures n <= |row|
  {
    if row == [] then 0
    else RowInk(row[..|row| - 1]) + (if row[|row| - 1] == Ink then 1 else 0)
  }

  /** Number of ink cells of a grid, `np.sum(g == 0)`. */
  function GridInk(g: Grid): nat {
    if g == [] then 0 else GridInk(g[..|g| - 1]) + RowInk(g[|g| - 1])
  }

  /** The row count is the multiplicity of the ink value among the row's cells. */
  lemma {:induction false} RowInkIsMultiplicity(row: seq<Pixel>)
    ensures RowInk(row) == multiset(row)[Ink]
  {
    if row != [] {
      var pre := row[..|row| - 1];
      assert row == pre + [row[|row| - 1]];
      RowInkIsMultiplicity(pre);
    }
  }

  lemma {:induction false} RowInkZero(row: seq<Pixel>)
    ensures RowInk(row) == 0 <==> forall j :: 0 <= j < |row| ==> row[j] != Ink
  {
    if row != [] {
      RowInkZero(row[..|row| - 1]);
    }
  }

  lemma {:induction false} RowInkFull(row: seq<Pixel>)
    ensures RowInk(row) == |row| <==> forall j :: 0 <= j < |row| ==> row[j] == Ink
  {
    if row != [] {
      RowInkFull(row[..|row| - 1]);
    }
  }

  /** One more row of w cells. */
  lemma RowsStep(h: nat, w: nat)
    requires h > 0
    ensures (h - 1) * w + w == h * w
  {
  }

  lemma {:induction false} GridInkBound(g: Grid, h: nat, w: nat)
    requires IsGrid(g, h, w)
    ensures GridInk(g) <= h * w
  {
    if g != [] {
      GridInkBound(g[..h - 1], h - 1, w);
      RowsStep(h, w);
    }
  }

  lemma {:induction false} GridInkZero(g: Grid)
    ensures GridInk(g) == 0 <==>
      forall i, j :: 0 <= i < |g| && 0 <= j < |g[i]| ==> g[i][j] != Ink
  {
    if g != [] {
      var pre := g[..|g| - 1];
      GridInkZero(pre);
      RowInkZero(g[|g| - 1]);
      assert forall i :: 0 <= i < |pre| ==> pre[i] == g[i];
    }
  }

  lemma {:induction false} GridInkFull(g: Grid, h: nat, w: nat)
    requires IsGrid(g, h, w)
    ensures GridInk(g) == h * w <==>
      forall i, j :: 0 <= i < h && 0 <= j < w ==> g[i][j] == Ink
  {
    if g != [] {
      var pre := g[..h - 1];
      GridInkFull(pre, h - 1, w);
      GridInkBound(pre, h - 1, w);
      RowInkFull(g[h - 1]);
      RowsStep(h, w);
      assert forall i :: 0 <= i < |pre| ==> pre[i] == g[i];
    }
  }

  /** The ink ratio `np.sum(g == 0) / (w * h)`: the fraction of ink cells. */
  function InkRatio(g: Grid, h: nat, w: nat): (r: real)
    requires h > 0 && w > 0 && IsGrid(g, h, w)
    ensures 0.0 <= r <= 1.0
    ensures r == 0.0 <==> forall i, j :: 0 <= i < h && 0 <= j < w ==> g[i][j] != Ink
    ensures r == 1.0 <==> forall i, j :: 0 <= i < h && 0 <= j < w ==> g[i][j] == Ink
  {
    GridInkBound(g, h, w);
    GridInkZero(g);
    GridInkFull(g, h, w);
    FractionFacts(GridInk(g), h * w);
    GridInk(g) as real / (h * w) as real
  }

  lemma FractionFacts(n: nat, d: nat)
    requires 0 < d && n <= d
    ensures 0.0 <= n as real / d as real <= 1.0
    ensures n as real / d as real == 0.0 <==> n == 0
    ensures n as real / d as real == 1.0 <==> n == d
  {
    var q := n as real / d as real;
    assert q * d as real == n as real;
  }

  /** The window `g[y0:y0+h, x0:x0+w]` of a grid that contains it. */
  function Crop(g: Grid, x0: int, y0: int, w: nat, h: nat): (c: Grid)
    requires 0 <= x0 && 0 <= y0 && y0 + h <= |g|
    requires forall i :: y0 <= i < y0 + h ==> x0 + w <= |g[i]|
    ensures IsGrid(c, h, w)
    ensures forall i, j :: 0 <= i < h && 0 <= j < w ==> c[i][j] == g[y0 + i][x0 + j]
  {
    seq(h, i requires 0 <= i < h => g[y0 + i][x0..x0 + w])
  }
}
