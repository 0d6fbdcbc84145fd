/** The RGBA raster of the image tool (index.js, `generateImage` and
    `offset`): the side n of the square image, the byte offset of a channel
    of a pixel, and the loop that paints one pixel per genotype at the cell
    `indexToPoint(index, n)` of the Hilbert curve. */
module Raster {
  import opened Js
  import opened Arith
  import opened Curve

  // ---------------------------------------------------------------------
  // The side of the image: 2 ** Math.ceil(Math.log2(Math.sqrt(len)))
  // ---------------------------------------------------------------------

  function Pow2(k: nat): (p: nat)
    ensures p >= 1
  {
    if k == 0 then 1 else 2 * Pow2(k - 1)
  }

  /** Math.ceil(Math.log2(Math.sqrt(len))) for a non-empty input: the least
      k with 4^k >= len, found by halving the side (quartering the area).
      For an empty input the source's level count is -Infinity, which
      `GridSide` handles. */
  function Levels(len: nat): (k: nat)
    requires len >= 1
    ensures k == 0 <==> len == 1
  {
    if len == 1 then 0 else 1 + Levels((len + 3) / 4)
  }

  /** `n`: for an empty input Math.log2(0) is -Infinity and 2 ** -Infinity
      is 0. */
  function GridSide(len: nat): (n: nat)
    ensures n == 0 <==> len == 0
  {
    if len == 0 then 0 else Pow2(Levels(len))
  }

  lemma {:induction false} LevelsLeast(len: nat)
    requires len >= 1
    ensures Pow2(Levels(len)) * Pow2(Levels(len)) >= len
    ensures Levels(len) > 0 ==> Pow2(Levels(len) - 1) * Pow2(Levels(len) - 1) < len
  {
    if len > 1 {
      var m := (len + 3) / 4;
      assert 1 <= m && len <= 4 * m && 4 * (m - 1) < len;
      LevelsLeast(m);
      var h := Pow2(Levels(m));
      assert Pow2(Levels(len)) == 2 * h;
      DoubleSquare(h);
      if Levels(m) > 0 {
        var h0 := Pow2(Levels(m) - 1);
        assert h == 2 * h0;
        DoubleSquare(h0);
      } else {
        assert h == 1;
      }
    }
  }

  lemma DoubleSquare(h: nat)
    ensures (2 * h) * (2 * h) == 4 * (h * h)
  {
  }

  lemma {:induction false} Pow2Mono(j: nat, k: nat)
    requires j <= k
    ensures Pow2(j) <= Pow2(k)
  {
    if j < k {
      Pow2Mono(j, k - 1);
    }
  }

  /** `n` is the least power of two whose square holds all `len` values; it
      is 0 only for an empty input. */
  lemma GridSideLeast(len: nat)
    ensures GridSide(len) * GridSide(len) >= len
    ensures GridSide(len) == 0 <==> len == 0
    ensures len > 0 ==> exists k :: GridSide(len) == Pow2(k)
    ensures forall k :: Pow2(k) * Pow2(k) >= len ==> Pow2(k) >= GridSide(len)
  {
    if len > 0 {
      LevelsLeast(len);
      var l := Levels(len);
      forall k | Pow2(k) * Pow2(k) >= len
        ensures Pow2(k) >= GridSide(len)
      {
        if k < l {
          Pow2Mono(k, l - 1);
          MulLe(Pow2(k), Pow2(l - 1), Pow2(k));
          MulLe(Pow2(k), Pow2(l - 1), Pow2(l - 1));
        } else {
          Pow2Mono(l, k);
        }
      }
    }
  }

  /** A square of side 2^k is drawn at exactly that side. */
  lemma GridSideOfSquare(k: nat)
    ensures GridSide(Pow2(k) * Pow2(k)) == Pow2(k)
  {
    var p := Pow2(k);
    GridSideLeast(p * p);
    var n := GridSide(p * p);
    assert n <= p;
    SquareMono(n, p);
  }

  // ---------------------------------------------------------------------
  // offset(column, row, channel, width)
  // ---------------------------------------------------------------------

  /** "rgba".indexOf(channel): -1 for anything else, `undefined` included. */
  function ChannelIndex(channel: Option<char>): (k: int)
    ensures -1 <= k <= 3
    ensures k >= 0 ==> channel.Some?
  {
    if channel == Some('r') then 0
    else if channel == Some('g') then 1
    else if channel == Some('b') then 2
    else if channel == Some('a') then 3
    else -1
  }

  /** offset(column, row, channel, width): four bytes per pixel, `width`
      pixels per row, then the channel's index. */
  function Offset(column: int, row: int, channel: Option<char>, width: int): (offset: int)
    ensures width >= 0 && ChannelIndex(channel) >= 0 ==>
      offset / 4 == PixelOf(Point(column, row), width) && offset % 4 == ChannelIndex(channel)
  {
    row * (width * 4) + column * 4 + ChannelIndex(channel)
  }

  /** genotypeChannel[code] with genotypeChannel = "rgb": `undefined` past 2. */
  function CodeChannel(code: int): (channel: Option<char>)
    ensures 0 <= code <= 2 <==> channel.Some?
    ensures 0 <= code <= 2 ==> ChannelIndex(channel) == code
    ensures !(0 <= code <= 2) ==> ChannelIndex(channel) == -1
  {
    if code == 0 then Some('r') else if code == 1 then Some('g') else if code == 2 then Some('b') else None
  }

  /** The offset of a channel is four bytes per pixel before it plus the
      channel's index. */
  lemma OffsetOfPixel(column: int, row: int, channel: Option<char>, width: nat)
    ensures Offset(column, row, channel, width) == 4 * PixelOf(Point(column, row), width) + ChannelIndex(channel)
  {
  }

  /** A channel of a pixel of the grid lies inside the 4 * w * w buffer. */
  lemma OffsetInRange(column: int, row: int, channel: Option<char>, width: nat)
    requires 0 <= column < width && 0 <= row < width
    requires ChannelIndex(channel) >= 0
    ensures 0 <= Offset(column, row, channel, width) < 4 * (width * width)
  {
    PixelInGrid(Point(column, row), width);
  }

  /** Different channels or pixels of the grid never share a byte. */
  lemma OffsetInjective(column: int, row: int, channel: Option<char>,
                        column': int, row': int, channel': Option<char>, width: nat)
    requires 0 <= column < width && 0 <= row < width && ChannelIndex(channel) >= 0
    requires 0 <= column' < width && 0 <= row' < width && ChannelIndex(channel') >= 0
    requires Offset(column, row, channel, width) == Offset(column', row', channel', width)
    ensures column == column' && row == row' && channel == channel'
  {
    var p, p' := Point(column, row), Point(column', row');
    assert PixelOf(p, width) == PixelOf(p', width);
    if p != p' {
      PixelInjective(p, p', width);
    }
  }

  // ---------------------------------------------------------------------
  // The paint loop
  // ---------------------------------------------------------------------

  /** An element assignment on a Uint8ClampedArray: ignored outside the
      buffer (the values written here, 127 and 255, need no clamping). */
  function Store(img: seq<Byte>, off: int, v: Byte): (r: seq<Byte>)
    ensures |r| == |img|
    ensures forall o :: 0 <= o < |img| ==> r[o] == if o == off then v else img[o]
  {
    if 0 <= off < |img| then img[off := v] else img
  }

  /** The writes of one loop iteration, for the cell p of a genotype `code`. */
  function PaintOne(img: seq<Byte>, code: Byte, p: Point, n: nat, grayscale: bool): (r: seq<Byte>)
    ensures |r| == |img|
  {
    var img1 := Store(img, Offset(p.x, p.y, Some('a'), n), 255);
    if grayscale && code != 2 then
      var value: Byte := if code == 0 then 255 else 127;
      var img2 := Store(img1, Offset(p.x, p.y, Some('r'), n), value);
      var img3 := Store(img2, Offset(p.x, p.y, Some('g'), n), value);
      Store(img3, Offset(p.x, p.y, Some('b'), n), value)
    else if !grayscale then
      Store(img1, Offset(p.x, p.y, CodeChannel(code), n), 255)
    else img1
  }

  /** The buffer after the first k iterations. */
  function RasterUpTo(genotypes: seq<Byte>, n: nat, grayscale: bool, toPoint: (nat, nat) -> Point, k: nat): (r: seq<Byte>)
    requires k <= |genotypes|
    ensures |r| == 4 * (n * n)
  {
    if k == 0 then seq(4 * (n * n), _ => 0)
    else PaintOne(RasterUpTo(genotypes, n, grayscale, toPoint, k - 1), genotypes[k - 1], toPoint(k - 1, n), n, grayscale)
  }

  function Raster(genotypes: seq<Byte>, n: nat, grayscale: bool, toPoint: (nat, nat) -> Point): (r: seq<Byte>)
    ensures |r| == 4 * (n * n) && |r| % 4 == 0 && |r| / 4 == n * n
  {
    RasterUpTo(genotypes, n, grayscale, toPoint, |genotypes|)
  }

  /** `imageData[offset] = value` */
  method Write(img: array<Byte>, off: int, v: Byte)
    modifies img
    ensures img[..] == Store(old(img[..]), off, v)
  {
    if 0 <= off < img.Length {
      img[off] := v;
    }
  }

  /** The paint loop: a zeroed n*n*4 buffer; for each genotype its pixel made
      opaque, then either its gray written to r, g and b (grayscale mode,
      except for hom-alt, which stays black) or 255 written to the channel the
      code names (colour mode). */
  method PaintRaster(genotypes: seq<Byte>, n: nat, grayscale: bool, toPoint: (nat, nat) -> Point)
    returns (imageData: array<Byte>)
    ensures imageData[..] == Raster(genotypes, n, grayscale, toPoint)
  {
    imageData := new Byte[4 * (n * n)](_ => 0);
    for index := 0 to |genotypes|
      invariant imageData[..] == RasterUpTo(genotypes, n, grayscale, toPoint, index)
    {
      var point := toPoint(index, n);
      var code := genotypes[index];
      Write(imageData, Offset(point.x, point.y, Some('a'), n), 255);
      if grayscale && code != 2 {
        var value: Byte := if code == 0 then 255 else 127;
        Write(imageData, Offset(point.x, point.y, Some('r'), n), value);
        Write(imageData, Offset(point.x, point.y, Some('g'), n), value);
        Write(imageData, Offset(point.x, point.y, Some('b'), n), value);
      } else if !grayscale {
        Write(imageData, Offset(point.x, point.y, CodeChannel(code), n), 255);
      }
    }
  }

  // ---------------------------------------------------------------------
  // What the picture shows
  // ---------------------------------------------------------------------

  /** The r, g, b, a bytes a genotype is drawn with. Grayscale: hom-ref
      white, het mid-gray, hom-alt black, any other code mid-gray. Colour:
      hom-ref red, het green, hom-alt blue, any other code black. */
  function ExpectedPixel(code: int, grayscale: bool): (px: seq<Byte>)
    ensures |px| == 4 && px[3] == 255
  {
    if grayscale then
      if code == 2 then [0, 0, 0, 255]
      else if code == 0 then [255, 255, 255, 255]
      else [127, 127, 127, 255]
    else
      [if code == 0 then 255 else 0, if code == 1 then 255 else 0, if code == 2 then 255 else 0, 255]
  }

  /** One iteration seen byte by byte: it makes its pixel q opaque, sets or
      keeps q's r, g and b as the mode says, and touches nothing else except,
      in colour mode for a code above 2, the byte before q (the alpha of
      pixel q - 1, as indexOf gives -1). */
  lemma PaintOneByte(img: seq<Byte>, code: Byte, p: Point, n: nat, grayscale: bool, o: nat)
    requires |img| == 4 * (n * n) && o < |img|
    requires 0 <= p.x < n && 0 <= p.y < n
    ensures var q := PixelOf(p, n);
      var r := PaintOne(img, code, p, n, grayscale);
      (o == 4 * q + 3 ==> r[o] == 255) &&
      (4 * q <= o < 4 * q + 3 ==>
        r[o] == if grayscale then (if code == 2 then img[o] else if code == 0 then 255 else 127)
                else if o - 4 * q == code then 255 else img[o]) &&
      (!(4 * q <= o <= 4 * q + 3) ==>
        r[o] == if !grayscale && code > 2 && o == 4 * q - 1 then 255 else img[o])
  {
    PixelInGrid(p, n);
    var q := PixelOf(p, n);
    OffsetOfPixel(p.x, p.y, Some('a'), n);
    OffsetOfPixel(p.x, p.y, Some('r'), n);
    OffsetOfPixel(p.x, p.y, Some('g'), n);
    OffsetOfPixel(p.x, p.y, Some('b'), n);
    OffsetOfPixel(p.x, p.y, CodeChannel(code), n);
  }

  /** The r, g, b bytes of a pixel that none of the first k genotypes maps
      to are still 0. */
  lemma {:induction false} RgbUntouched(genotypes: seq<Byte>, n: nat, grayscale: bool, toPoint: (nat, nat) -> Point,
                                        k: nat, q: nat, c: nat)
    requires CurveFits(toPoint, n) && k <= |genotypes| <= n * n
    requires q < n * n && c < 3
    requires forall i :: 0 <= i < k ==> PixelOf(toPoint(i, n), n) != q
    ensures RasterUpTo(genotypes, n, grayscale, toPoint, k)[4 * q + c] == 0
  {
    if k > 0 {
      RgbUntouched(genotypes, n, grayscale, toPoint, k - 1, q, c);
      PaintOneByte(RasterUpTo(genotypes, n, grayscale, toPoint, k - 1), genotypes[k - 1], toPoint(k - 1, n), n, grayscale, 4 * q + c);
    }
  }

  /** Right after its own iteration, the pixel of genotype i shows
      ExpectedPixel: no earlier genotype shares its cell. */
  lemma HitPixelFirst(genotypes: seq<Byte>, n: nat, grayscale: bool, toPoint: (nat, nat) -> Point, i: nat, c: nat)
    requires CurveFits(toPoint, n) && |genotypes| <= n * n
    requires i < |genotypes| && c < 4
    ensures 0 <= PixelOf(toPoint(i, n), n) < n * n
    ensures RasterUpTo(genotypes, n, grayscale, toPoint, i + 1)[4 * PixelOf(toPoint(i, n), n) + c] == ExpectedPixel(genotypes[i], grayscale)[c]
  {
    var p := toPoint(i, n);
    var q := PixelOf(p, n);
    PixelInGrid(p, n);
    if c < 3 {
      forall j | 0 <= j < i
        ensures PixelOf(toPoint(j, n), n) != q
      {
        PixelInjective(toPoint(j, n), p, n);
      }
      RgbUntouched(genotypes, n, grayscale, toPoint, i, q, c);
    }
    OwnStep(RasterUpTo(genotypes, n, grayscale, toPoint, i), genotypes[i], p, n, grayscale, c);
  }

  /** One iteration seen from its own pixel: on black r, g, b it leaves
      exactly ExpectedPixel. */
  lemma OwnStep(img: seq<Byte>, code: Byte, p: Point, n: nat, grayscale: bool, c: nat)
    requires |img| == 4 * (n * n) && c < 4
    requires 0 <= p.x < n && 0 <= p.y < n
    requires c < 3 && 4 * PixelOf(p, n) + c < |img| ==> img[4 * PixelOf(p, n) + c] == 0
    ensures 0 <= PixelOf(p, n) < n * n
    ensures PaintOne(img, code, p, n, grayscale)[4 * PixelOf(p, n) + c] == ExpectedPixel(code, grayscale)[c]
  {
    PixelInGrid(p, n);
    PaintOneByte(img, code, p, n, grayscale, 4 * PixelOf(p, n) + c);
  }

  /** The pixel of genotype i keeps showing ExpectedPixel: later genotypes
      map to other cells and only ever set alpha bytes to 255. */
  lemma {:induction false} HitPixelUpTo(genotypes: seq<Byte>, n: nat, grayscale: bool, toPoint: (nat, nat) -> Point,
                                        k: nat, i: nat, c: nat)
    requires CurveFits(toPoint, n) && k <= |genotypes| <= n * n
    requires i < k && c < 4
    ensures 0 <= PixelOf(toPoint(i, n), n) < n * n
    ensures RasterUpTo(genotypes, n, grayscale, toPoint, k)[4 * PixelOf(toPoint(i, n), n) + c] == ExpectedPixel(genotypes[i], grayscale)[c]
  {
    if k - 1 == i {
      HitPixelFirst(genotypes, n, grayscale, toPoint, i, c);
    } else {
      var p := toPoint(i, n);
      var pk := toPoint(k - 1, n);
      HitPixelUpTo(genotypes, n, grayscale, toPoint, k - 1, i, c);
      PixelInjective(p, pk, n);
      PaintOneByte(RasterUpTo(genotypes, n, grayscale, toPoint, k - 1), genotypes[k - 1], pk, n, grayscale, 4 * PixelOf(p, n) + c);
    }
  }

  /** Each genotype's pixel shows its code as ExpectedPixel says, alpha 255. */
  lemma HitPixel(genotypes: seq<Byte>, n: nat, grayscale: bool, toPoint: (nat, nat) -> Point, i: nat)
    requires CurveFits(toPoint, n) && |genotypes| <= n * n
    requires i < |genotypes|
    ensures var q := PixelOf(toPoint(i, n), n);
      0 <= q < n * n &&
      Raster(genotypes, n, grayscale, toPoint)[4 * q..4 * q + 4] == ExpectedPixel(genotypes[i], grayscale)
  {
    var q := PixelOf(toPoint(i, n), n);
    var r := Raster(genotypes, n, grayscale, toPoint);
    HitPixelUpTo(genotypes, n, grayscale, toPoint, |genotypes|, i, 0);
    HitPixelUpTo(genotypes, n, grayscale, toPoint, |genotypes|, i, 1);
    HitPixelUpTo(genotypes, n, grayscale, toPoint, |genotypes|, i, 2);
    HitPixelUpTo(genotypes, n, grayscale, toPoint, |genotypes|, i, 3);
    FourBytes(r, 4 * q, ExpectedPixel(genotypes[i], grayscale));
  }

  /** Four bytes that match a pixel one by one are that pixel. */
  lemma FourBytes(s: seq<Byte>, j: nat, px: seq<Byte>)
    requires j + 4 <= |s| && |px| == 4
    requires s[j] == px[0] && s[j + 1] == px[1] && s[j + 2] == px[2] && s[j + 3] == px[3]
    ensures s[j..j + 4] == px
  {
  }

  /** Some genotype among the first k maps to pixel q with a code outside
      0..2. */
  ghost predicate StrayFrom(genotypes: seq<Byte>, n: nat, toPoint: (nat, nat) -> Point, k: nat, q: int)
    requires k <= |genotypes|
  {
    exists i :: 0 <= i < k && PixelOf(toPoint(i, n), n) == q && genotypes[i] > 2
  }

  /** A pixel no genotype maps to stays black; it stays transparent too,
      except in colour mode when the next pixel holds a code above 2, whose
      write lands on this pixel's alpha. */
  lemma {:induction false} UnhitAlphaUpTo(genotypes: seq<Byte>, n: nat, grayscale: bool, toPoint: (nat, nat) -> Point,
                                          k: nat, q: nat)
    requires CurveFits(toPoint, n) && k <= |genotypes| <= n * n
    requires q < n * n
    requires forall i :: 0 <= i < k ==> PixelOf(toPoint(i, n), n) != q
    ensures RasterUpTo(genotypes, n, grayscale, toPoint, k)[4 * q + 3] ==
      if !grayscale && StrayFrom(genotypes, n, toPoint, k, q + 1) then 255 else 0
  {
    if k > 0 {
      UnhitAlphaUpTo(genotypes, n, grayscale, toPoint, k - 1, q);
      var pk := toPoint(k - 1, n);
      PixelInGrid(pk, n);
      AlphaStep(RasterUpTo(genotypes, n, grayscale, toPoint, k - 1), genotypes[k - 1], pk, n, grayscale, q);
      StrayStep(genotypes, n, toPoint, k, q + 1);
    }
  }

  /** One iteration seen from the alpha of another pixel q: only a stray
      colour-mode write from pixel q + 1 reaches it. */
  lemma AlphaStep(img: seq<Byte>, code: Byte, p: Point, n: nat, grayscale: bool, q: nat)
    requires |img| == 4 * (n * n) && q < n * n
    requires 0 <= p.x < n && 0 <= p.y < n && PixelOf(p, n) != q
    ensures PaintOne(img, code, p, n, grayscale)[4 * q + 3] ==
      if !grayscale && code > 2 && PixelOf(p, n) == q + 1 then 255 else img[4 * q + 3]
  {
    var pq := PixelOf(p, n);
    PaintOneByte(img, code, p, n, grayscale, 4 * q + 3);
    assert !(4 * pq <= 4 * q + 3 <= 4 * pq + 3);
    assert 4 * q + 3 == 4 * pq - 1 <==> pq == q + 1;
  }

  /** One more genotype: it is a stray write onto q when it maps to q with a
      code above 2. */
  lemma StrayStep(genotypes: seq<Byte>, n: nat, toPoint: (nat, nat) -> Point, k: nat, q: int)
    requires 0 < k <= |genotypes|
    ensures StrayFrom(genotypes, n, toPoint, k, q) <==>
      StrayFrom(genotypes, n, toPoint, k - 1, q) || (PixelOf(toPoint(k - 1, n), n) == q && genotypes[k - 1] > 2)
  {
    if StrayFrom(genotypes, n, toPoint, k, q) && !(PixelOf(toPoint(k - 1, n), n) == q && genotypes[k - 1] > 2) {
      var i :| 0 <= i < k && PixelOf(toPoint(i, n), n) == q && genotypes[i] > 2;
      assert i < k - 1;
    }
  }

  /** A pixel no genotype maps to: r, g, b stay 0 and alpha is 0 unless the
      colour-mode stray write of the next pixel reaches it. */
  lemma UnhitPixel(genotypes: seq<Byte>, n: nat, grayscale: bool, toPoint: (nat, nat) -> Point, q: nat)
    requires CurveFits(toPoint, n) && |genotypes| <= n * n
    requires q < n * n
    requires forall i :: 0 <= i < |genotypes| ==> PixelOf(toPoint(i, n), n) != q
    ensures Raster(genotypes, n, grayscale, toPoint)[4 * q..4 * q + 4] ==
      [0, 0, 0, if !grayscale && StrayFrom(genotypes, n, toPoint, |genotypes|, q + 1) then 255 else 0]
  {
    var r := Raster(genotypes, n, grayscale, toPoint);
    assert r == RasterUpTo(genotypes, n, grayscale, toPoint, |genotypes|);
    assert 4 * q + 4 <= |r|;
    var alpha: Byte := if !grayscale && StrayFrom(genotypes, n, toPoint, |genotypes|, q + 1) then 255 else 0;
    RgbUntouched(genotypes, n, grayscale, toPoint, |genotypes|, q, 0);
    RgbUntouched(genotypes, n, grayscale, toPoint, |genotypes|, q, 1);
    RgbUntouched(genotypes, n, grayscale, toPoint, |genotypes|, q, 2);
    UnhitAlphaUpTo(genotypes, n, grayscale, toPoint, |genotypes|, q);
    assert r[4 * q + 3] == alpha;
    FourBytes(r, 4 * q, [0, 0, 0, alpha]);
  }
}
