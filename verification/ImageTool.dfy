/** `generateImage` of the image tool (index.js) put together: the parsed
    calls, binned when a width is set, painted along the curve into an RGBA
    buffer of side n, read out as a value row, and named after the input. */
module ImageTool {
  import opened Js
  import opened Binning
  import opened Curve
  import opened Raster
  import opened ValueRow
  import opened FileNames
  import opened LineBuffer

  /** What one input produces: the value file's name and text, the image
      file's name (when images are on), the RGBA bytes and the side. */
  datatype Output = Output(valueFile: string, values: string, imageFile: Option<string>,
                           pixels: seq<Byte>, side: nat)

  /** The vector that is drawn: the calls as parsed, or width*width bins;
      width 0 stands for an unset (falsy) option. */
  function Drawn(parsed: seq<Byte>, width: nat): (g: seq<Byte>)
    ensures width > 0 ==> |g| == width * width
    ensures width == 0 ==> g == parsed
  {
    if width == 0 then parsed else Binned(parsed, width * width)
  }

  method GenerateImage(parsed: seq<Byte>, file: string, width: nat, grayscale: bool, image: bool,
                       toPoint: (nat, nat) -> Point)
    returns (out: Output)
    ensures var genotypes := Drawn(parsed, width);
      var prefix := Prefix(file);
      && out.side == GridSide(|genotypes|)
      && out.pixels == Raster.Raster(genotypes, out.side, grayscale, toPoint)
      && out.values == TsvLine(RowOf(prefix, out.pixels, grayscale))
      && out.valueFile == OutputName(prefix, width, "tsv")
      && out.imageFile == (if image then Some(OutputName(prefix, width, "png")) else None)
  {
    var genotypes: seq<Byte>;
    if width == 0 {
      genotypes := parsed;
    } else {
      var binned := BinMax(parsed, width * width);
      genotypes := binned[..];
    }
    var n := GridSide(|genotypes|);
    var imageData := PaintRaster(genotypes, n, grayscale, toPoint);
    var prefix := Prefix(file);
    var row := BuildRow(prefix, imageData, grayscale);
    var valueFile := OutputName(prefix, width, "tsv");
    var imageFile := if image then Some(OutputName(prefix, width, "png")) else None;
    out := Output(valueFile, TsvLine(row), imageFile, imageData[..], n);
  }

  /** Without a width, every parsed call gets a cell of its own in the value
      row, at its curve position: the row shows each call (in grayscale on
      the reversed scale: hom-ref 0, het 0.5, hom-alt 1). This holds for
      any prefix, in particular the `Prefix(file)` that generateImage uses. */
  lemma EveryCallInRow(parsed: seq<Byte>, prefix: string, grayscale: bool, toPoint: (nat, nat) -> Point, i: nat)
    requires CurveFits(toPoint, GridSide(|parsed|))
    requires i < |parsed|
    ensures var n := GridSide(|parsed|);
      var q := PixelOf(toPoint(i, n), n);
      var row := RowOf(prefix, Raster.Raster(parsed, n, grayscale, toPoint), grayscale);
      0 <= q < n * n && |row| == 1 + n * n &&
      row[q + 1] == if !grayscale then ColourCellOf(parsed[i])
                    else if parsed[i] <= 2 then Grayscale.ShadeText(Grayscale.GrayOf(2 - parsed[i]))
                    else Grayscale.ShadeText(0.5)
  {
    var n := GridSide(|parsed|);
    GridSideLeast(|parsed|);
    GenotypeCell(prefix, parsed, n, grayscale, toPoint, i);
  }

  /** A width that is a power of two gives an image of exactly that side, as
      the file names say. */
  lemma PowerWidthSide(parsed: seq<Byte>, k: nat)
    ensures GridSide(|Drawn(parsed, Pow2(k))|) == Pow2(k)
  {
    GridSideOfSquare(k);
  }

  /** Any other width is rounded up: width 3 gives 9 bins drawn on a 4 x 4
      image, while the files are named 3x3. */
  lemma OtherWidthRoundsUp(parsed: seq<Byte>)
    ensures GridSide(|Drawn(parsed, 3)|) == 4
    ensures OutputName("a", 3, "png") == "a.3x3.png"
  {
    assert Levels(3) == 1;
    assert Levels(9) == 2;
    assert NumberText(3) == "3";
    assert SizeText(3) == "3x3";
  }
}
