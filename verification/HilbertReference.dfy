/** A reference Hilbert curve, written here from the textbook recursive
    construction. It is not the `hilbert-curve` package and says nothing
    about that package's numbering: it shows that the CurveFits hypothesis
    the raster lemmas rest on can be met, by a curve that is a bijection
    between the indices below 4^k and the cells of the 2^k x 2^k grid. */
module HilbertReference {
  import opened Arith
  import opened Curve
  import opened Raster

  /** 4^k, the number of cells of the order-k grid. */
  function Pow4(k: nat): (p: nat)
    ensures p >= 1
  {
    if k == 0 then 1 else 4 * Pow4(k - 1)
  }

  lemma {:induction false} Pow4IsSquare(k: nat)
    ensures Pow4(k) == Pow2(k) * Pow2(k)
  {
    if k > 0 {
      Pow4IsSquare(k - 1);
      var h := Pow2(k - 1);
      assert Pow2(k) * Pow2(k) == (2 * h) * (2 * h) == 4 * (h * h);
    }
  }

  /** The index of place r of quadrant q, in a grid of 4m cells. */
  function IndexIn(q: nat, r: nat, m: nat): (d: nat)
    requires q < 4 && r < m
    ensures d < 4 * m
  {
    MulLe(q, 3, m);
    q * m + r
  }

  /** Index d of a grid of 4m cells lies in quadrant q at place r of it. */
  function QuadrantOf(d: nat, m: nat): (qr: (nat, nat))
    requires 0 < m && d < 4 * m
    ensures qr.0 < 4 && qr.1 < m && d == IndexIn(qr.0, qr.1, m)
  {
    MulLe(4, d / m, m);
    (d / m, d % m)
  }

  /** The quadrant and the place are recovered from the index. */
  lemma QuadrantOfIndex(q: nat, r: nat, m: nat)
    requires q < 4 && r < m
    ensures QuadrantOf(IndexIn(q, r, m), m) == (q, r)
  {
    MulLe(q, 3, m);
    DivIs(q * m + r, m, q);
  }

  /** Where a cell c of the order k - 1 curve (side h) lands in quadrant q
      of the order k grid: transposed in the lower-left quadrant, shifted
      into the upper-left and upper-right ones, turned back in the
      lower-right one. */
  function Place(q: nat, c: Point, h: nat): Point {
    if q == 0 then Point(c.y, c.x)
    else if q == 1 then Point(c.x, c.y + h)
    else if q == 2 then Point(c.x + h, c.y + h)
    else Point(2 * h - 1 - c.y, h - 1 - c.x)
  }

  /** The quadrant, in curve order, that holds cell p of a grid of side 2h. */
  function Quadrant(p: Point, h: nat): nat {
    if p.x < h && p.y < h then 0 else if p.x < h then 1 else if p.y >= h then 2 else 3
  }

  /** Cell p taken back out of its quadrant. */
  function Inner(p: Point, h: nat): Point {
    if p.x < h && p.y < h then Point(p.y, p.x)
    else if p.x < h then Point(p.x, p.y - h)
    else if p.y >= h then Point(p.x - h, p.y - h)
    else Point(h - 1 - p.y, 2 * h - 1 - p.x)
  }

  lemma PlaceInverse(q: nat, c: Point, h: nat)
    requires q < 4 && 0 <= c.x < h && 0 <= c.y < h
    ensures var p := Place(q, c, h);
      0 <= p.x < 2 * h && 0 <= p.y < 2 * h && Quadrant(p, h) == q && Inner(p, h) == c
  {
  }

  lemma InnerInverse(p: Point, h: nat)
    requires 0 <= p.x < 2 * h && 0 <= p.y < 2 * h
    ensures var c := Inner(p, h);
      0 <= c.x < h && 0 <= c.y < h && Quadrant(p, h) < 4 && Place(Quadrant(p, h), c, h) == p
  {
  }

  /** The cell of index d on the order-k curve. */
  function D2xy(k: nat, d: nat): (p: Point)
    requires d < Pow4(k)
    ensures 0 <= p.x < Pow2(k) && 0 <= p.y < Pow2(k)
  {
    if k == 0 then Point(0, 0)
    else
      var qr := QuadrantOf(d, Pow4(k - 1));
      var c := D2xy(k - 1, qr.1);
      PlaceInverse(qr.0, c, Pow2(k - 1));
      Place(qr.0, c, Pow2(k - 1))
  }

  /** The index of a cell: its quadrant's offset plus the index, on the
      order k - 1 curve, of the cell taken back out of the quadrant. */
  function Xy2d(k: nat, p: Point): (d: nat)
    requires 0 <= p.x < Pow2(k) && 0 <= p.y < Pow2(k)
    ensures d < Pow4(k)
  {
    if k == 0 then 0
    else
      var h := Pow2(k - 1);
      InnerInverse(p, h);
      var q := Quadrant(p, h);
      IndexIn(q, Xy2d(k - 1, Inner(p, h)), Pow4(k - 1))
  }

  /** Every index comes back from its cell. */
  lemma {:induction false} Xy2dOfD2xy(k: nat, d: nat)
    requires d < Pow4(k)
    ensures Xy2d(k, D2xy(k, d)) == d
  {
    if k > 0 {
      var qr := QuadrantOf(d, Pow4(k - 1));
      var c := D2xy(k - 1, qr.1);
      PlaceInverse(qr.0, c, Pow2(k - 1));
      Xy2dOfD2xy(k - 1, qr.1);
    }
  }

  /** Every cell comes back from its index. */
  lemma {:induction false} D2xyOfXy2d(k: nat, p: Point)
    requires 0 <= p.x < Pow2(k) && 0 <= p.y < Pow2(k)
    ensures D2xy(k, Xy2d(k, p)) == p
  {
    if k > 0 {
      var h := Pow2(k - 1);
      InnerInverse(p, h);
      var c := Inner(p, h);
      D2xyOfXy2d(k - 1, c);
      QuadrantOfIndex(Quadrant(p, h), Xy2d(k - 1, c), Pow4(k - 1));
    }
  }

  /** The reference curve as an `indexToPoint`: D2xy on the indices of the
      grid, a fixed cell past them. */
  function RefPoint(k: nat, i: nat): Point {
    if i < Pow4(k) then D2xy(k, i) else Point(0, 0)
  }

  /** The hypothesis of the raster lemmas holds for the reference curve on
      its own grid side: it is not vacuous. */
  lemma ReferenceFits(k: nat)
    ensures CurveFits((i: nat, n: nat) => RefPoint(k, i), Pow2(k))
  {
    var tp := (i: nat, n: nat) => RefPoint(k, i);
    var n := Pow2(k);
    Pow4IsSquare(k);
    forall i, j | 0 <= i < j < n * n
      ensures tp(i, n) != tp(j, n)
    {
      Xy2dOfD2xy(k, i);
      Xy2dOfD2xy(k, j);
    }
  }
}
