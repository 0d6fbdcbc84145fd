/** The value row of the image tool (index.js, generateImage): the file
    prefix followed by one cell per pixel of the RGBA buffer, in raster
    order, written as one tab-separated line. */
module ValueRow {
  import opened Js
  import opened Grayscale
  import opened Curve
  import opened Raster
  import opened LineBuffer

  /** The grayscale cell of a pixel, read from its red byte: white 0,
      mid-gray 0.5, anything else (black) 1. */
  function GrayCell(r: Byte): (v: Shade)
    ensures v == 0.0 <==> r == 255
    ensures v == 0.5 <==> r == 127
  {
    if r == 255 then 0.0 else if r == 127 then 0.5 else 1.0
  }

  /** The colour cell as index.js builds it: red, green, and red + 2 in the
      place of blue (the blue byte is never read). */
  function RgbCellAsWritten(r: Byte, g: Byte, b: Byte): (cell: string)
    ensures Free(cell, '\t') && Free(cell, '\n')
  {
    var parts := [NumberText(r), NumberText(g), NumberText(r as int + 2)];
    JoinFree(parts, ',', '\t');
    JoinFree(parts, ',', '\n');
    Join(parts, ',')
  }

  /** The colour cell as evidently intended, with the blue byte read from
      the pixel: `r,g,b`. */
  function RgbCell(r: Byte, g: Byte, b: Byte): string {
    Join([NumberText(r), NumberText(g), NumberText(b)], ',')
  }

  /** The cell of the pixel whose bytes start at i. */
  function Cell(img: seq<Byte>, i: nat, grayscale: bool): (cell: string)
    requires i + 2 < |img|
    ensures Free(cell, '\t') && Free(cell, '\n')
  {
    if grayscale then
      ShadeTextReadsBack(GrayCell(img[i]));
      ShadeText(GrayCell(img[i]))
    else RgbCellAsWritten(img[i], img[i + 1], img[i + 2])
  }

  /** The cells of the first k pixels. */
  function Cells(img: seq<Byte>, grayscale: bool, k: nat): (cells: seq<string>)
    requires 4 * k <= |img|
    ensures |cells| == k
    ensures forall q :: 0 <= q < k ==> Free(cells[q], '\t') && Free(cells[q], '\n')
  {
    seq(k, q requires 0 <= q < k => Cell(img, 4 * q, grayscale))
  }

  /** The row: the prefix, then one cell per pixel. */
  function RowOf(prefix: string, img: seq<Byte>, grayscale: bool): (row: seq<string>)
    requires |img| % 4 == 0
    ensures |row| == 1 + |img| / 4 && row[0] == prefix
  {
    [prefix] + Cells(img, grayscale, |img| / 4)
  }

  /** The row loop: one push per pixel, stepping through the buffer four
      bytes at a time. */
  method BuildRow(prefix: string, imageData: array<Byte>, grayscale: bool) returns (row: seq<string>)
    requires imageData.Length % 4 == 0
    ensures row == RowOf(prefix, imageData[..], grayscale)
    ensures |row| == 1 + imageData.Length / 4
  {
    row := [prefix];
    var i := 0;
    while i < imageData.Length
      invariant 0 <= i <= imageData.Length && i % 4 == 0
      invariant row == [prefix] + Cells(imageData[..], grayscale, i / 4)
    {
      var cell: string;
      if grayscale {
        if imageData[i] == 255 {
          cell := ShadeText(0.0);
        } else if imageData[i] == 127 {
          cell := ShadeText(0.5);
        } else {
          cell := ShadeText(1.0);
        }
      } else {
        cell := RgbCellAsWritten(imageData[i], imageData[i + 1], imageData[i + 2]);
      }
      assert Cells(imageData[..], grayscale, i / 4 + 1) == Cells(imageData[..], grayscale, i / 4) + [cell];
      row := row + [cell];
      i := i + 4;
    }
  }

  // ---------------------------------------------------------------------
  // Reading the value file back
  // ---------------------------------------------------------------------

  /** The value file is one line, and splitting it on tabs gives back the
      row: the prefix and every pixel's cell, in raster order. */
  lemma RowReadsBack(prefix: string, img: seq<Byte>, grayscale: bool)
    requires |img| % 4 == 0
    requires Free(prefix, '\t') && Free(prefix, '\n')
    ensures var row := RowOf(prefix, img, grayscale);
      Lines(TsvLine(row)) == [Join(row, '\t')] && Split(Lines(TsvLine(row))[0], '\t') == row
  {
    var row := RowOf(prefix, img, grayscale);
    assert forall k :: 0 < k < |row| ==> row[k] == Cells(img, grayscale, |img| / 4)[k - 1];
    TsvLineReadsBack(row);
  }

  // ---------------------------------------------------------------------
  // What the row says about the genotypes
  // ---------------------------------------------------------------------

  /** The cell the colour mode writes for a genotype's pixel. */
  function ColourCellOf(code: int): (cell: string)
    ensures code != 0 && code != 1 ==> cell == RgbCellAsWritten(0, 0, 0)
  {
    var px := ExpectedPixel(code, false);
    RgbCellAsWritten(px[0], px[1], px[2])
  }

  /** The row cell of the pixel q is the cell of its four bytes. */
  lemma RowCell(prefix: string, img: seq<Byte>, grayscale: bool, q: nat)
    requires |img| % 4 == 0 && q < |img| / 4
    ensures 4 * q + 3 < |img|
    ensures RowOf(prefix, img, grayscale)[q + 1] == Cell(img, 4 * q, grayscale)
  {
  }

  /** Each genotype's cell, at place PixelOf(...) + 1 of the row: in
      grayscale mode its shade on the reversed scale (hom-ref 0, het 0.5,
      hom-alt 1, any other code 0.5); in colour mode the bytes of its
      pixel. */
  lemma GenotypeCell(prefix: string, genotypes: seq<Byte>, n: nat, grayscale: bool,
                     toPoint: (nat, nat) -> Point, i: nat)
    requires CurveFits(toPoint, n) && |genotypes| <= n * n
    requires i < |genotypes|
    ensures var q := PixelOf(toPoint(i, n), n);
      0 <= q < n * n &&
      RowOf(prefix, Raster.Raster(genotypes, n, grayscale, toPoint), grayscale)[q + 1] ==
        if !grayscale then ColourCellOf(genotypes[i])
        else if genotypes[i] <= 2 then ShadeText(GrayOf(2 - genotypes[i]))
        else ShadeText(0.5)
  {
    var img := Raster.Raster(genotypes, n, grayscale, toPoint);
    var q := PixelOf(toPoint(i, n), n);
    HitPixel(genotypes, n, grayscale, toPoint, i);
    var px := ExpectedPixel(genotypes[i], grayscale);
    assert img[4 * q] == px[0] && img[4 * q + 1] == px[1] && img[4 * q + 2] == px[2] by {
      assert img[4 * q..4 * q + 4] == px;
    }
    RowCell(prefix, img, grayscale, q);
  }

  /** A pixel no genotype maps to reads 1 in grayscale mode, the same as
      hom-alt, and "0,0,2" in colour mode, the same as hom-alt too. */
  lemma UnhitCell(prefix: string, genotypes: seq<Byte>, n: nat, grayscale: bool,
                  toPoint: (nat, nat) -> Point, q: nat)
    requires CurveFits(toPoint, n) && |genotypes| <= n * n
    requires q < n * n
    requires forall i :: 0 <= i < |genotypes| ==> PixelOf(toPoint(i, n), n) != q
    ensures RowOf(prefix, Raster.Raster(genotypes, n, grayscale, toPoint), grayscale)[q + 1] ==
      if grayscale then ShadeText(1.0) else RgbCellAsWritten(0, 0, 0)
  {
    var img := Raster.Raster(genotypes, n, grayscale, toPoint);
    UnhitPixel(genotypes, n, grayscale, toPoint, q);
    assert img[4 * q] == 0 && img[4 * q + 1] == 0 && img[4 * q + 2] == 0 by {
      var px := img[4 * q..4 * q + 4];
      assert px[0] == 0 && px[1] == 0 && px[2] == 0;
    }
    RowCell(prefix, img, grayscale, q);
  }

  /** A colour cell reads back as three fields: the pixel's red, its
      green, and its red + 2. */
  lemma RgbCellAsWrittenReadsBack(r: Byte, g: Byte, b: Byte)
    ensures var fields := Split(RgbCellAsWritten(r, g, b), ',');
      |fields| == 3 && ParseInt(fields[0]) == Some(r) && ParseInt(fields[1]) == Some(g)
      && ParseInt(fields[2]) == Some(r + 2)
  {
    var parts := [NumberText(r), NumberText(g), NumberText(r + 2)];
    SplitJoin(parts, ',');
    ParseIntNumberText(r, "");
    ParseIntNumberText(g, "");
    ParseIntNumberText(r + 2, "");
    assert NumberText(r) + "" == NumberText(r);
    assert NumberText(g) + "" == NumberText(g);
    assert NumberText(r + 2) + "" == NumberText(r + 2);
  }

  /** The blue byte never reaches the cell: two pixels that differ only in
      blue get the same cell. */
  lemma AsWrittenIgnoresBlue(r: Byte, g: Byte, b: Byte, b': Byte)
    ensures RgbCellAsWritten(r, g, b) == RgbCellAsWritten(r, g, b')
  {
  }

  /** As written, the three calls still get three different colour cells,
      but hom-alt's cell is exactly the cell of an unpainted pixel: the value
      file cannot tell hom-alt from padding. */
  lemma ColourCellsAsWritten(a: int, b: int)
    requires 0 <= a <= 2 && 0 <= b <= 2
    ensures ColourCellOf(a) == ColourCellOf(b) <==> a == b
    ensures ColourCellOf(a) == RgbCellAsWritten(0, 0, 0) <==> a == 2
  {
    var pa := ExpectedPixel(a, false);
    var pb := ExpectedPixel(b, false);
    RgbCellAsWrittenReadsBack(pa[0], pa[1], pa[2]);
    RgbCellAsWrittenReadsBack(pb[0], pb[1], pb[2]);
    RgbCellAsWrittenReadsBack(0, 0, 0);
  }

  /** The same examples written out: hom-alt (0,0,255) and an unpainted
      pixel (0,0,0) both give "0,0,2", and hom-ref gives "255,0,257". */
  lemma AsWrittenLosesBlue()
    ensures RgbCellAsWritten(0, 0, 255) == RgbCellAsWritten(0, 0, 0) == "0,0,2"
    ensures RgbCellAsWritten(255, 0, 0) == "255,0,257"
  {
    assert NumberText(0) == "0" && NumberText(2) == "2";
    Join3("0", "0", "2", ',');
    assert NumberText(25) == "25";
    assert NumberText(255) == "255";
    assert NumberText(257) == "257";
    Join3("255", "0", "257", ',');
  }

  // ---------------------------------------------------------------------
  // The colour cell as evidently intended
  // ---------------------------------------------------------------------

  /** The corrected cell of a genotype's pixel: its red, green and blue. */
  function CorrectedCellOf(code: int): (cell: string)
    ensures code == 2 ==> cell == RgbCell(0, 0, 255)
    ensures !(0 <= code <= 2) ==> cell == RgbCell(0, 0, 0)
  {
    var px := ExpectedPixel(code, false);
    RgbCell(px[0], px[1], px[2])
  }

  /** A corrected colour cell reads back, field by field, as the pixel's
      red, green and blue bytes. */
  lemma RgbCellReadsBack(r: Byte, g: Byte, b: Byte)
    ensures var fields := Split(RgbCell(r, g, b), ',');
      |fields| == 3 && ParseInt(fields[0]) == Some(r) && ParseInt(fields[1]) == Some(g)
      && ParseInt(fields[2]) == Some(b)
  {
    var parts := [NumberText(r), NumberText(g), NumberText(b)];
    SplitJoin(parts, ',');
    ParseIntNumberText(r, "");
    ParseIntNumberText(g, "");
    ParseIntNumberText(b, "");
    assert NumberText(r) + "" == NumberText(r);
    assert NumberText(g) + "" == NumberText(g);
    assert NumberText(b) + "" == NumberText(b);
  }

  /** With the corrected cell the three calls and an unpainted pixel have
      four different cells: the value file tells every call apart. */
  lemma ColourCellsSeparate(a: int, b: int)
    requires 0 <= a <= 2 && 0 <= b <= 2
    ensures CorrectedCellOf(a) == CorrectedCellOf(b) <==> a == b
    ensures CorrectedCellOf(a) != RgbCell(0, 0, 0)
  {
    var pa := ExpectedPixel(a, false);
    var pb := ExpectedPixel(b, false);
    RgbCellReadsBack(pa[0], pa[1], pa[2]);
    RgbCellReadsBack(pb[0], pb[1], pb[2]);
    RgbCellReadsBack(0, 0, 0);
  }
}
