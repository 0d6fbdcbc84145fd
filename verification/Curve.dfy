/** The `hilbert-curve` package as the scripts use it. Its source is not part
    of this model: `indexToPoint(i, n)` and `construct(data, order)` are
    parameters of the members that call them, and what the callers rely on
    is stated as hypotheses (CurveFits) of the lemmas that need it. */
module Curve {
  import opened Arith

  /** The `{x, y}` object indexToPoint returns: column x, row y. */
  datatype Point = Point(x: int, y: int)

  /** The assumption about `indexToPoint(i, n)`: for every i below n*n it
      returns a cell of the n x n grid, and no two indices share a cell. */
  ghost predicate CurveFits(toPoint: (nat, nat) -> Point, n: nat) {
    && (forall i :: 0 <= i < n * n ==> 0 <= toPoint(i, n).x < n && 0 <= toPoint(i, n).y < n)
    && (forall i, j :: 0 <= i < j < n * n ==> toPoint(i, n) != toPoint(j, n))
  }

  /** The raster position of a cell: row-major, n cells per row. */
  function PixelOf(p: Point, n: nat): int {
    p.y * n + p.x
  }

  /** A grid cell has a raster position inside the grid. */
  lemma PixelInGrid(p: Point, n: nat)
    requires 0 <= p.x < n && 0 <= p.y < n
    ensures 0 <= PixelOf(p, n) < n * n
  {
    MulLe(p.y, n - 1, n);
  }

  /** Different cells have different raster positions, and the cell can be
      read back from its position. */
  lemma PixelDecodes(p: Point, n: nat)
    requires 0 <= p.x < n && 0 <= p.y < n
    ensures PixelOf(p, n) / n == p.y && PixelOf(p, n) % n == p.x
  {
    DivIs(PixelOf(p, n), n, p.y);
  }

  lemma PixelInjective(p: Point, p': Point, n: nat)
    requires 0 <= p.x < n && 0 <= p.y < n
    requires 0 <= p'.x < n && 0 <= p'.y < n
    requires p != p'
    ensures PixelOf(p, n) != PixelOf(p', n)
  {
    PixelDecodes(p, n);
    PixelDecodes(p', n);
  }
}
