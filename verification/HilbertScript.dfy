/** `processFile` of the Hilbert-order script (hilbert-curve/index.js): the
    calls put in curve order by `construct(parsed, order)`, mapped to
    grayscale by a fill-then-overwrite loop, written as a one-line value
    file, and turned into the bytes of a one-channel image. */
module HilbertScript {
  import opened Js
  import opened Arith
  import opened Grayscale
  import opened Raster
  import opened FileNames
  import opened LineBuffer

  /** The grayscale loop: an array of 1s, with 0 written over each hom-alt
      call and 0.5 over each het call. */
  method FillGrayscale(genotypes: seq<int>) returns (gray: array<Shade>)
    ensures gray[..] == GrayscaleValues(genotypes)
  {
    gray := new Shade[|genotypes|](_ => 1.0);
    for i := 0 to |genotypes|
      invariant forall k :: 0 <= k < i ==> gray[k] == GrayOf(genotypes[k])
      invariant forall k :: i <= k < |genotypes| ==> gray[k] == 1.0
    {
      if genotypes[i] == 2 {
        gray[i] := 0.0;
      } else if genotypes[i] == 1 {
        gray[i] := 0.5;
      }
    }
  }

  /** [prefix].concat(...grayscaleValues), each value as join writes it. */
  function TsvRow(prefix: string, gray: seq<Shade>): (row: seq<string>)
    ensures |row| == 1 + |gray| && row[0] == prefix
  {
    [prefix] + seq(|gray|, i requires 0 <= i < |gray| => ShadeText(gray[i]))
  }

  /** The value file of valid calls loses nothing: it is one line, its first
      field is the prefix, and each further field reads back as the call at
      that curve position. */
  lemma ValueFileReadsBack(prefix: string, genotypes: seq<int>)
    requires Free(prefix, '\t') && Free(prefix, '\n')
    requires forall i :: 0 <= i < |genotypes| ==> 0 <= genotypes[i] <= 2
    ensures var line := TsvLine(TsvRow(prefix, GrayscaleValues(genotypes)));
      |Lines(line)| == 1 &&
      var fields := Split(Lines(line)[0], '\t');
      |fields| == 1 + |genotypes| && fields[0] == prefix &&
      forall i :: 0 <= i < |genotypes| ==>
        ShadeOfText(fields[i + 1]).Some? && CodeOf(ShadeOfText(fields[i + 1]).value) == genotypes[i]
  {
    var gray := GrayscaleValues(genotypes);
    var row := TsvRow(prefix, gray);
    forall k | 0 <= k < |row|
      ensures Free(row[k], '\t') && Free(row[k], '\n')
    {
      if k > 0 {
        ShadeTextReadsBack(gray[k - 1]);
      }
    }
    TsvLineReadsBack(row);
    forall i | 0 <= i < |genotypes|
      ensures ShadeOfText(row[i + 1]).Some? && CodeOf(ShadeOfText(row[i + 1]).value) == genotypes[i]
    {
      ShadeTextReadsBack(gray[i]);
    }
  }

  // ---------------------------------------------------------------------
  // File names
  // ---------------------------------------------------------------------

  /** The size in the names: 2 ** order, or unset (0) when no order was
      given (order 0 is falsy too). */
  function NamedSide(order: nat): (side: nat)
    ensures side == 0 <==> order == 0
    ensures order > 0 ==> side % 2 == 0 && side == Pow2(order)
  {
    if order == 0 then 0 else Pow2(order)
  }

  // ---------------------------------------------------------------------
  // Image bytes
  // ---------------------------------------------------------------------

  /** x * 256 - 1, the value the script hands to Buffer.from for a shade. */
  function PreBufferAsWritten(v: Shade): (x: int)
    ensures x == if v == 0.0 then -1 else if v == 0.5 then 127 else 255
  {
    (v * 256.0 - 1.0).Floor
  }

  /** Buffer.from on an array of integers keeps each one modulo 256. */
  function BufferByte(x: int): (b: Byte)
    ensures (x - b) % 256 == 0
    ensures 0 <= x < 256 ==> b == x
  {
    x % 256
  }

  /** grayscaleValues.map(x => x * 256 - 1), as Buffer.from stores it. */
  function ImageBytesAsWritten(gray: seq<Shade>): (bytes: seq<Byte>)
    ensures |bytes| == |gray|
  {
    seq(|gray|, i requires 0 <= i < |gray| => BufferByte(PreBufferAsWritten(gray[i])))
  }

  /** As written, black becomes -1, which Buffer.from stores as 255: hom-alt
      is drawn white, exactly like hom-ref. */
  lemma AsWrittenHomAltIsWhite()
    ensures PreBufferAsWritten(1.0) == 255 && PreBufferAsWritten(0.5) == 127 && PreBufferAsWritten(0.0) == -1
    ensures ImageBytesAsWritten(GrayscaleValues([2, 0])) == [255, 255]
  {
    var bytes := ImageBytesAsWritten(GrayscaleValues([2, 0]));
    assert bytes[0] == BufferByte(PreBufferAsWritten(0.0));
    assert bytes[1] == BufferByte(PreBufferAsWritten(1.0));
  }

  /** The image as written, for any calls: a het call is 127 and every
      other call is 255, so only het can be told apart; hom-alt (and any
      value outside 0..2) is drawn white like hom-ref. */
  lemma ImageBytesDecode(genotypes: seq<int>)
    ensures var bytes := ImageBytesAsWritten(GrayscaleValues(genotypes));
      forall i :: 0 <= i < |genotypes| ==>
        bytes[i] == (if genotypes[i] == 1 then 127 else 255)
  {
    var bytes := ImageBytesAsWritten(GrayscaleValues(genotypes));
    forall i | 0 <= i < |genotypes|
      ensures bytes[i] == (if genotypes[i] == 1 then 127 else 255)
    {
      AsWrittenHomAltIsWhite();
    }
  }

  /** The image bytes as evidently intended: x * 256 - 1 held at 0 from below: white 255, mid-gray 127, black 0. */
  function PreBuffer(v: Shade): (b: Byte) {
    var x := (v * 256.0 - 1.0).Floor;
    if x < 0 then 0 else x
  }

  function ImageBytes(gray: seq<Shade>): (bytes: seq<Byte>)
    ensures |bytes| == |gray|
  {
    seq(|gray|, i requires 0 <= i < |gray| => PreBuffer(gray[i]))
  }

  /** The image tells the three calls apart, and draws each in the gray the
      image tool's grayscale mode uses for it. */
  lemma ImageBytesSeparateCalls(a: int, b: int)
    requires 0 <= a <= 2 && 0 <= b <= 2
    ensures PreBuffer(GrayOf(a)) == PreBuffer(GrayOf(b)) <==> a == b
    ensures PreBuffer(GrayOf(a)) == ExpectedPixel(a, true)[0]
  {
  }

  /** The corrected image of a vector of valid calls reads back as the
      calls: 255, 127 and 0 for hom-ref, het and hom-alt. */
  lemma CorrectedBytesDecode(genotypes: seq<int>)
    requires forall i :: 0 <= i < |genotypes| ==> 0 <= genotypes[i] <= 2
    ensures var bytes := ImageBytes(GrayscaleValues(genotypes));
      forall i :: 0 <= i < |genotypes| ==>
        bytes[i] == (if genotypes[i] == 0 then 255 else if genotypes[i] == 1 then 127 else 0)
  {
  }

  /** Math.sqrt(len) rounded down. */
  function FloorSqrt(len: nat): (s: nat)
    ensures s * s <= len < (s + 1) * (s + 1)
  {
    SqrtFrom(len, 0)
  }

  function SqrtFrom(len: nat, s: nat): (r: nat)
    requires s * s <= len
    ensures r * r <= len < (r + 1) * (r + 1)
    decreases len - s * s
  {
    if (s + 1) * (s + 1) <= len then
      MulLe(s, s + 1, s);
      MulLe(s, s + 1, s + 1);
      SqrtFrom(len, s + 1)
    else s
  }

  /** The side sharp is given, Math.sqrt(len), when it is a whole number;
      None when the length is not a square. */
  function ImageSide(len: nat): (side: Option<nat>)
    ensures side.Some? ==> side.value * side.value == len
  {
    var s := FloorSqrt(len);
    if s * s == len then Some(s) else None
  }

  /** When construct yields 4^order values, the image is 2^order wide and
      high, as the file names say. */
  lemma SideMatchesName(order: nat, prefix: string, gray: seq<Shade>)
    requires order > 0 && |gray| == Pow2(order) * Pow2(order)
    requires Free(prefix, '.')
    ensures ImageSide(|ImageBytesAsWritten(gray)|) == Some(NamedSide(order))
    ensures Split(OutputName(prefix, NamedSide(order), "png"), '.') == [prefix, SizeText(NamedSide(order)), "png"]
    ensures ParseInt(SizeText(NamedSide(order))) == Some(NamedSide(order))
  {
    ImageSideOfSquare(Pow2(order));
    OutputNameReadsBack(prefix, Pow2(order), "png");
  }

  /** A square length gives back its side. */
  lemma ImageSideOfSquare(p: nat)
    ensures ImageSide(p * p) == Some(p)
  {
    var s := FloorSqrt(p * p);
    SquareMono(p, s);
    MulLe(s + 1, p, s + 1);
    MulLe(s + 1, p, p);
  }

  /** What processFile produces for one input. */
  datatype Output = Output(valueFile: string, values: string, imageFile: Option<string>,
                           bytes: seq<Byte>, side: Option<nat>)

  method ProcessFile(parsed: seq<Byte>, file: string, order: nat, image: bool,
                     construct: (seq<Byte>, nat) -> seq<int>)
    returns (out: Output)
    ensures var gray := GrayscaleValues(construct(parsed, order));
      var prefix := Prefix(file);
      && out.valueFile == OutputName(prefix, NamedSide(order), "tsv")
      && out.values == TsvLine(TsvRow(prefix, gray))
      && out.imageFile == (if image then Some(OutputName(prefix, NamedSide(order), "png")) else None)
      && out.bytes == (if image then ImageBytesAsWritten(gray) else [])
      && out.side == (if image then ImageSide(|gray|) else None)
  {
    var genotypes := construct(parsed, order);
    var grayscaleValues := FillGrayscale(genotypes);
    var prefix := Prefix(file);
    var tsvRow := TsvRow(prefix, grayscaleValues[..]);
    var valueFile := OutputName(prefix, NamedSide(order), "tsv");
    out := Output(valueFile, TsvLine(tsvRow), None, [], None);
    if image {
      var imageData := ImageBytesAsWritten(grayscaleValues[..]);
      var imageFile := OutputName(prefix, NamedSide(order), "png");
      out := out.(imageFile := Some(imageFile), bytes := imageData, side := ImageSide(|imageData|));
    }
  }
}
