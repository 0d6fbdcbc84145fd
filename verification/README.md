# ancient: genotype vectors, Hilbert images and value files

This project models the data path of the *ancient* ancestry tool in Dafny.

- **Browser client, reference panel** (`client/workers/loadSnps.js`). A
  worker reads the panel, a tab-separated text. It turns the panel into
  two lookup tables. `rs` maps each rsId to its line's ordinal. `affy`
  maps each Affymetrix id to an `{rsId, allele}` entry.
- **Browser client, genotype file** (`client/workers/processInput.js`). A
  second worker reads a tab-separated genotype file one character at a
  time.
  - `#` lines are skipped.
  - The first other line names the samples. Each sample gets a zeroed byte
    vector with one entry per panel rsId.
  - Every later line whose rsId the panel knows stores one call per
    sample, at that rsId's ordinal. A call is parsed with
    `Number.parseInt`, and values outside 0..2 become 0.
  - Each vector is then put into Hilbert order by `construct` and mapped to
    grayscale: hom-alt 0, het 0.5, anything else 1.
- **Image tool** (`index.js`). This command-line script takes a vector of
  calls. It optionally down-samples the vector into `width * width` bins,
  keeping the maximum of each bin. It then paints the calls along a
  Hilbert curve into an RGBA raster whose side is the least power of two
  that fits them. From the raster it writes a one-line, tab-separated value
  file with one cell per pixel, and names its outputs after the input.
- **Hilbert script** (`hilbert-curve/index.js`). This second script puts
  the calls in curve order with `construct`. It maps them to grayscale
  with a fill-then-overwrite loop. It writes the grayscale values as a
  one-line value file and as the bytes of a one-channel image.

JavaScript's own behaviour is modelled explicitly where the results depend
on it:

- `undefined` used as a property key becomes the key `"undefined"`.
- `Number.parseInt(s, 10)` skips leading white space and reads an optional
  sign and a run of digits. Otherwise it gives NaN.
- A typed-array store turns NaN into 0 and ignores writes outside the
  array.
- `"rgba".indexOf(undefined)` is -1.
- `2 ** Math.ceil(Math.log2(Math.sqrt(0)))` is 0.
- `String.prototype.split` and `Array.prototype.join` are modelled on
  characters.

Shared helpers:

- `Js` models these JavaScript semantics.
- `LineBuffer` models the character-by-character line accumulator that
  both workers use.
- `Curve` models the `hilbert-curve` package, which is not part of this
  model. `indexToPoint` and `construct` are function parameters. What the
  raster lemmas need of the curve is stated as the hypothesis `CurveFits`:
  the curve maps the indices below n² to distinct cells of the n×n grid.
- `HilbertReference` is a textbook Hilbert curve. It shows that
  `CurveFits` can be met, so the hypothesis is not vacuous.

Structure follows the source:

- `SnpPanel.Load`, `InputReader.OnLoad`, `Binning.BinMax`,
  `Raster.PaintRaster`, `ValueRow.BuildRow` and
  `HilbertScript.FillGrayscale` are the source's loops. Each is a method
  proved against a function that specifies it.
- The worker's `samples`/`genotypes` closure state is the class
  `GenotypeLoader.InputReader`. Its vectors are arrays that its methods
  update in place.
- Two outputs are evidently not what the authors meant: the image tool's
  colour cell and the Hilbert script's image bytes (see "## Findings"). The
  model follows the code as written on every path. The corrected
  definitions sit beside it, each with its intended property proved.

## Model

| member | source | states |
|---|---|---|
| `SnpPanel.Load` | client/workers/loadSnps.js:11-33 | Walking the text a character at a time handles exactly the '\n'-terminated lines, in order. The final `index` is the number of '\n' characters. The panel is that of the terminated lines read in order, line k having ordinal k. |
| `SnpPanel.RsKey` | client/workers/loadSnps.js:22-23 | The `rs` key of a line: its third tab-separated field, or "undefined" when it has fewer. |
| `SnpPanel.AffyKey` | client/workers/loadSnps.js:22-24 | The `affy` key of a line: its fourth field, or "undefined". |
| `SnpPanel.AffyOf` | client/workers/loadSnps.js:22-24 | The `affy` entry of a line: `rsId` is the third field and `allele` the fifth. Each is `undefined` exactly when the line is too short to have it. |
| `SnpPanel.PanelOf` | client/workers/loadSnps.js:20-30 | The specification of the panel: the lines handled in order, line k with ordinal k, a later line overwriting an earlier one with the same key. It carries no contract of its own. `RsIsLastOrdinal`, `AffyIsLastEntry` and `RsBelowLineCount` state what it holds. |
| `SnpPanel.RsIsLastOrdinal` | client/workers/loadSnps.js:22-23 | An id is a key of `rs` iff some line's third field is that id. Its value is the ordinal of the last such line: later lines overwrite earlier ones. |
| `SnpPanel.RsBelowLineCount` | client/workers/loadSnps.js:23-25 | Every ordinal stored in `rs` is the position of a line that was read. |
| `SnpPanel.AffyIsLastEntry` | client/workers/loadSnps.js:22-24 | An id is a key of `affy` iff some line's fourth field is that id. Its entry is the rsId and allele of the last such line. |
| `SnpPanel.ShortLineKeepsOrdinal` | client/workers/loadSnps.js:22-24 | A line with fewer than three fields is not rejected. Its missing fields destructure to `undefined`, and its ordinal is stored under the key "undefined". |
| `SnpPanel.DistinctIdsArePositions` | client/workers/loadSnps.js:22-25 | When all rsIds differ, `rs` has one key per line and line k's id maps to k. |
| `SnpPanel.KeyCount` | client/workers/loadSnps.js:22-25 | `rs` never has more keys than there are lines. It has strictly fewer as soon as two lines share an rsId. |
| `SnpPanel.OrdinalsFitIffDistinct` | client/workers/processInput.js:26 | `numSnps` is the number of `rs` keys. Every stored ordinal is below it iff no two panel lines share an rsId. Otherwise the last line's ordinal falls outside every vector. |
| `SnpPanel.UnterminatedTailIgnored` | client/workers/loadSnps.js:20-30 | Text after the last '\n' never reaches the panel. |
| `LineBuffer.Step` | client/workers/loadSnps.js:20-30 | One character either terminates the pending line and appends it to the lines, or extends the pending line. |
| `LineBuffer.LineCount` | client/workers/processInput.js:40-41 | The number of lines handled equals the number of '\n' characters (the worker's `count`). |
| `LineBuffer.NoNewlineInLines` | client/workers/processInput.js:39-76 | No handled line and no pending tail contains a '\n'. |
| `LineBuffer.Reassemble` | client/workers/processInput.js:39-76 | Nothing is lost: the lines, each followed by its '\n', followed by the pending tail, give back the text. |
| `LineBuffer.TailIgnored` | client/workers/processInput.js:39-76 | Characters after the last '\n' add no line. |
| `LineBuffer.TsvLineReadsBack` | index.js:102 | `row.join("\t") + "\n"` with tab-free, newline-free cells is exactly one line, and splitting it on tabs gives the row back. |
| `GenotypeLoader.Clamp` | client/workers/processInput.js:66-68 | NaN stays NaN. Every number becomes a call in 0..2. A call already in 0..2 is kept. |
| `GenotypeLoader.ToUint8` | client/workers/processInput.js:69 | A Uint8Array element always holds a byte. NaN is stored as 0 and an in-range value as itself. |
| `GenotypeLoader.CallByte` | client/workers/processInput.js:64-69 | The stored call is always 0, 1 or 2. It is the parsed value when that is in 0..2, and 0 for NaN or an out-of-range value. |
| `GenotypeLoader.CallByteOfDigit` | client/workers/processInput.js:64-69 | The fields "0", "1" and "2" are stored as themselves. "3" to "9" are stored as hom-ref 0. |
| `GenotypeLoader.CallByteOfNegative` | client/workers/processInput.js:64-69 | A negative call such as "-1" is stored as hom-ref 0. |
| `GenotypeLoader.CallByteOfNonNumber` | client/workers/processInput.js:64-69 | A no-call field such as "." or "NA" is stored as 0. So is a call missing from a short line. |
| `GenotypeLoader.Zip` | client/workers/processInput.js:63 | `_.zip` pairs the samples with the calls. It is as long as the longer list, and it pads the shorter one with `undefined`. |
| `GenotypeLoader.Put` | client/workers/processInput.js:69 | A typed-array write changes only the element at the index. A write past the end changes nothing. |
| `GenotypeLoader.AddSamples` | client/workers/processInput.js:51-54 | After the header, every header name has a zeroed vector of length `numSnps`, and no existing key is lost. |
| `GenotypeLoader.WriteCalls` | client/workers/processInput.js:63-70 | The writes of one data line, pair by pair. A line that does not throw keeps the set of samples. A line whose last pair names a sample with no vector throws. |
| `GenotypeLoader.StepLine` | client/workers/processInput.js:45-71 | One terminated line. A comment leaves the state unchanged. Once the header is read, a line never replaces it. |
| `GenotypeLoader.ScanLines` | client/workers/processInput.js:39-76 | The specification of the parsing loop: the lines in order, a throw ending the scan. It carries no contract of its own. `ScanLinesAppend`, `CommentsDropped`, `HeaderSetOnce`, `UnknownIdsDropped` and `ScanWellFormed` state what it does. |
| `GenotypeLoader.AddSamplesContents` | client/workers/processInput.js:51-54 | After the header every named sample has a zeroed vector of length `numSnps`. Other keys keep their vectors. |
| `GenotypeLoader.InputReader.constructor` | client/workers/processInput.js:26-28 | `numSnps` is the number of rsIds of the panel. `samples` is unset and there are no vectors. |
| `GenotypeLoader.InputReader.ReadHeader` | client/workers/processInput.js:50-54 | Sets `samples` to the header's fields after the first. Gives each a fresh zeroed vector and leaves the other vectors untouched. |
| `GenotypeLoader.InputReader.AddVectors` | client/workers/processInput.js:52-54 | The header's loop adds a zeroed vector per name; a repeated name gets a second fresh vector. |
| `GenotypeLoader.InputReader.AddVector` | client/workers/processInput.js:53 | Adds one fresh zeroed vector under the name. Every other vector is the same array with the same contents. |
| `GenotypeLoader.InputReader.WriteLine` | client/workers/processInput.js:63-70 | Storing a line's calls leaves the vectors as the pairwise writes specify. It fails exactly when a pair's sample has no vector (the TypeError). |
| `GenotypeLoader.InputReader.WritePair` | client/workers/processInput.js:64-69 | Stores the parsed, clamped call in its sample's vector at the index, or reports that the sample has no vector. |
| `GenotypeLoader.InputReader.StoreCall` | client/workers/processInput.js:69 | Only the named sample's vector changes, and only at the index. |
| `GenotypeLoader.InputReader.HandleLine` | client/workers/processInput.js:45-71 | One line is handled as the line-level specification says: a comment is skipped, the first other line is the header, a known rsId's line is written, an unknown one is skipped. It reports whether `snpCount` grows. |
| `GenotypeLoader.InputReader.OnLoad` | client/workers/processInput.js:30-76 | The character loop leaves `samples` and the vectors as the scan of the file's terminated lines specifies. `count` is the number of lines and `snpCount` the number of known-rsId lines. It reports a throw as a failure. |
| `GenotypeLoader.InputReader.Results` | client/workers/processInput.js:81-128 | Gives one result per header sample, in header order. Each result's `hilbert` is the grayscale of `construct(vector, 7)`. With no header line `samples.length` throws. |
| `GenotypeLoader.WriteCallsOnlyIndex` | client/workers/processInput.js:61-70 | A data line adds no sample and resizes no vector. It changes no position other than its rsId's ordinal. |
| `GenotypeLoader.WriteCallsWellFormed` | client/workers/processInput.js:63-69 | Every vector keeps length `numSnps`, and each of its entries stays a call in 0..2. |
| `GenotypeLoader.WriteCallsLastWriter` | client/workers/processInput.js:62-69 | When every pair's sample has a vector, the line does not throw. Each sample's entry at the ordinal holds the call of the last pair naming it, so a repeated header name takes its later column. |
| `GenotypeLoader.ResolvedLineStoresCalls` | client/workers/processInput.js:62-69 | With distinct sample names and no extra calls, sample k's entry at the rsId's ordinal becomes the k-th call. A short line gives 0 for the missing calls. |
| `GenotypeLoader.ExtraCallThrows` | client/workers/processInput.js:63-69 | A line with more calls than samples throws. The extra call's sample is `undefined`, which has no vector. |
| `GenotypeLoader.NonComment` | client/workers/processInput.js:45-48 | The lines kept are never comments, and there are no more of them than lines. |
| `GenotypeLoader.CommentsDropped` | client/workers/processInput.js:45-48 | Comment lines have no effect anywhere in the file: scanning the file equals scanning it without them. |
| `GenotypeLoader.HeaderSetOnce` | client/workers/processInput.js:50-71 | Once the header is read, no line changes the samples or the set of vectors. `snpCount` grows by at most one per line. |
| `GenotypeLoader.HeaderIsFirstLine` | client/workers/processInput.js:49-54 | The samples are the first non-comment line without its first field. A file of comments leaves them unset. |
| `GenotypeLoader.UnknownIdsDropped` | client/workers/processInput.js:55-60 | After the header has been read, lines whose rsId is not in the panel, and comments, leave the scan unchanged. (Before the header, such a line becomes the header.) |
| `GenotypeLoader.ScanWellFormed` | client/workers/processInput.js:39-76 | Starting from well-formed vectors, the whole file keeps every vector of length `numSnps` with entries in 0..2. |
| `GenotypeLoader.ScanLinesAppend` | client/workers/processInput.js:39-76 | Scanning two runs of lines is scanning the second from the state the first leaves. |
| `Grayscale.CodeOf` | client/workers/processInput.js:90-98 | A shade reads back as a call in 0..2. |
| `Grayscale.GrayOf` | client/workers/processInput.js:90-98 | The shade of a call reads back as that call: hom-alt 0, het 0.5, hom-ref 1. Any value outside 0..2 is drawn 1 and reads back as hom-ref. |
| `Grayscale.ShadeText` | hilbert-curve/index.js:59 | The text `join` writes for a shade reads back as that shade. |
| `Grayscale.GrayscaleValues` | client/workers/processInput.js:90-98 | The mapping keeps the length: one shade per call. |
| `Grayscale.GrayscaleDecodes` | client/workers/processInput.js:90-98 | The grayscale vector of valid calls loses nothing: decoding it element by element gives the calls back. |
| `Grayscale.GrayOfSeparatesCalls` | client/workers/processInput.js:90-98 | Two valid calls get the same shade iff they are the same call. |
| `Grayscale.ShadeTextReadsBack` | hilbert-curve/index.js:59 | The text `join` writes for a shade reads back as that shade and holds no tab or newline. |
| `Binning.Lo` | index.js:49 | The start of a bin's chunk never passes the end of the input. |
| `Binning.Hi` | index.js:50 | The end of a bin's chunk never passes the end of the input. |
| `Binning.MaxOf` | index.js:54 | `Math.max(...chunk)` is one of the chunk's calls, and no call of the chunk exceeds it. |
| `Binning.Bounds` | index.js:46-51 | Consecutive chunks do not overlap. |
| `Binning.Chunk` | index.js:48-51 | A chunk is empty iff its bounds cross. Otherwise it is the slice between them. |
| `Binning.Binned` | index.js:45 | There is one bin per cell of the `width * width` grid. |
| `Binning.BinMax` | index.js:45-56 | The loop leaves each bin at the maximum of its chunk, or at 0 for an empty chunk, as `Binned` specifies. |
| `Binning.BinAt` | index.js:52-55 | An access lemma that unfolds `Binned` at one index: bin i is the maximum of chunk i, or 0 when the chunk is empty. |
| `Binning.ChunksDisjoint` | index.js:46-51 | Chunks of different bins never share a call, and they come in input order. |
| `Binning.BinIsChunkMax` | index.js:52-55 | A non-empty bin's value is a call of its chunk, and no call of the chunk is larger. |
| `Binning.BinningIdentity` | index.js:45-57 | With as many bins as calls, binning gives the calls back unchanged. |
| `Binning.EqualPieces` | index.js:46-51 | When the bin count divides the input length, chunk i is exactly the i-th run of `length / bins` calls. |
| `Binning.StraddlingCallsDropped` | index.js:48-51 | The ceiling/floor slicing drops a call that straddles two bins. Five calls in four bins lose every hom-alt call. |
| `Raster.LevelsLeast` | index.js:60 | `2 ** levels` squared holds every call, and one level fewer would not. |
| `Raster.Levels` | index.js:60 | `Math.ceil(Math.log2(Math.sqrt(len)))`, computed exactly for a non-empty input. It is 0 exactly for a single call. For an empty input the source's level count is -Infinity, which `GridSide` handles. `LevelsLeast` proves it is the least level count that fits. |
| `Raster.GridSide` | index.js:60-61 | `n = 2 ** levels`. It is 0 exactly for an empty input, where `2 ** -Infinity` gives 0. |
| `Raster.GridSideLeast` | index.js:60-61 | `n` is 0 exactly for an empty input, and otherwise a power of two. `n * n` holds every call, and no smaller power of two does. |
| `Raster.GridSideOfSquare` | index.js:60-61 | A vector of (2^k)² calls is drawn at side 2^k. |
| `Raster.ChannelIndex` | index.js:128-129 | `"rgba".indexOf` gives 0..3 for a channel letter and -1 for anything else, `undefined` included. |
| `Raster.CodeChannel` | index.js:65 | `"rgb"[code]` is a channel exactly for codes 0..2, whose index is the code. Any other code gives `undefined`, whose index is -1. |
| `Raster.OffsetOfPixel` | index.js:127-130 | A channel's offset is four bytes per pixel in row-major order plus the channel's index. |
| `Raster.Offset` | index.js:127-130 | `offset(column, row, channel, width)` lands in the pixel at (column, row) of a `width`-wide raster, at the channel's index in "rgba" within its four bytes. |
| `Raster.OffsetInRange` | index.js:127-130 | Every channel of every grid cell lies inside the `n * n * 4` buffer. |
| `Raster.OffsetInjective` | index.js:127-130 | Different cells or channels never share a byte. |
| `Raster.Store` | index.js:69 | An element write changes only its own byte, and a write outside the buffer changes nothing. |
| `Raster.Write` | index.js:72 | Writing one element leaves the buffer as `Store` specifies. |
| `Raster.PaintOne` | index.js:68-79 | One iteration's writes for a call at a cell. It keeps the buffer length. |
| `Raster.RasterUpTo` | index.js:63-80 | The zeroed `n * n * 4` buffer after the first k iterations. |
| `Raster.Raster` | index.js:63-80 | The buffer after every iteration. It has one pixel, four bytes, per grid cell. |
| `Raster.PaintRaster` | index.js:63-80 | The paint loop leaves the buffer equal to the raster specification: a zeroed buffer with each call's writes applied in index order. |
| `Raster.ExpectedPixel` | index.js:69-78 | Every painted pixel is opaque. |
| `Raster.PaintOneByte` | index.js:67-79 | One call's iteration writes only its own pixel, plus, for a code above 2, the alpha byte just before it. |
| `Raster.HitPixel` | index.js:67-79 | Each call's pixel is opaque. In grayscale mode it is white for hom-ref, gray 127 for het and black for hom-alt. In colour mode it is pure red, green or blue for codes 0, 1, 2. Any other code is gray in grayscale mode and black in colour mode. |
| `Raster.RgbUntouched` | index.js:63-79 | A pixel that no call maps to keeps black r, g and b. |
| `Raster.UnhitPixel` | index.js:63-79 | A pixel that no call maps to stays black. It stays transparent unless the next pixel holds a colour-mode code above 2, whose -1 channel offset makes it opaque. |
| `Curve.PixelInGrid` | index.js:68 | A grid cell's row-major position lies inside the grid. |
| `Curve.PixelDecodes` | index.js:68 | The cell can be read back from its position: row by division, column by remainder. |
| `Curve.PixelInjective` | index.js:68 | Different cells have different positions. |
| `HilbertReference.D2xy` | index.js:68 | The reference curve maps each index below 4^k to a cell of the 2^k grid. |
| `HilbertReference.Xy2d` | index.js:68 | The reference inverse maps each cell back to an index below 4^k. |
| `HilbertReference.Xy2dOfD2xy` | index.js:68 | Each index comes back from its cell. |
| `HilbertReference.D2xyOfXy2d` | index.js:68 | Each cell comes back from its index. |
| `HilbertReference.ReferenceFits` | index.js:68 | The reference curve satisfies `CurveFits` on its own grid side. |
| `ValueRow.BuildRow` | index.js:83-96 | The row loop yields the prefix followed by one cell per pixel, in raster order. Each cell is the grayscale shade or the colour cell as index.js writes it: red, green and red + 2. |
| `ValueRow.GrayCell` | index.js:86-92 | The grayscale cell of a pixel, read from its red byte: 0 exactly for 255, 0.5 exactly for 127, and 1 for anything else. |
| `ValueRow.RgbCellAsWritten` | index.js:94 | The colour cell as written, red, green and red + 2, never holds a tab or a line break. |
| `ValueRow.Cell` | index.js:85-95 | The cell of the pixel at byte i, in either mode, holds no tab or line break. |
| `ValueRow.Cells` | index.js:84-96 | One cell for each of the first k pixels, none holding a tab or a line break. |
| `ValueRow.RowOf` | index.js:82-96 | The row has the prefix first and then one cell per pixel. |
| `ValueRow.ColourCellOf` | index.js:75-94 | Hom-alt and every code outside 0..2 get the same as-written cell as an unpainted pixel. |
| `ValueRow.CorrectedCellOf` | index.js:94 | Corrected half of the first finding: with the `r,g,b` cell, hom-alt gives "0,0,255", and a code outside 0..2 gives the unpainted "0,0,0". |
| `ValueRow.RowReadsBack` | index.js:83-102 | The value file is one line, and splitting it on tabs gives the prefix and every pixel's cell back. |
| `ValueRow.GenotypeCell` | index.js:67-96 | A call's cell sits at its curve position plus one. In grayscale it is the reversed shade: hom-ref 0, het 0.5, hom-alt 1. In colour it is the as-written cell of the call's pixel: "255,0,257" for hom-ref, "0,255,2" for het, "0,0,2" for hom-alt. |
| `ValueRow.UnhitCell` | index.js:63-96 | A pixel that no call maps to reads 1 in grayscale and "0,0,2" in colour. Both are the same as hom-alt. |
| `ValueRow.RgbCellReadsBack` | index.js:94 | Corrected half of the first finding: the corrected cell `r,g,b` splits on ',' into three fields that parse back as the pixel's red, green and blue. |
| `ValueRow.RgbCellAsWrittenReadsBack` | index.js:94 | The cell as written splits on ',' into three fields that parse as red, green and red + 2. |
| `ValueRow.AsWrittenIgnoresBlue` | index.js:94 | As written, two pixels that differ only in blue get the same cell. |
| `ValueRow.ColourCellsAsWritten` | index.js:75-94 | As written, the three calls get three different colour cells. Hom-alt's cell equals an unpainted pixel's cell, and no other call's does. |
| `ValueRow.ColourCellsSeparate` | index.js:75-94 | Corrected half of the first finding: with the `r,g,b` cell, the three calls and an unpainted pixel have four different cells. |
| `ValueRow.AsWrittenLosesBlue` | index.js:94 | The same on concrete pixels: hom-alt and an unpainted pixel both give "0,0,2", and hom-ref gives "255,0,257". |
| `FileNames.TrimSlashes` | index.js:82 | Trailing slashes are removed and nothing else is. |
| `FileNames.Basename` | index.js:82 | `path.basename`: the last '/'-separated segment of the path once trailing slashes are removed. It is a '/'-free suffix of the trimmed path that is either all of it or preceded by a '/'. |
| `FileNames.Prefix` | index.js:82 | `basename(file).split(".")[0]`: the leading part of the base name up to its first '.', or all of it when it has none. It holds no '.' or '/'. |
| `FileNames.SizeText` | index.js:98-100 | The size part of a name, `${w}x${w}`. It holds no '.' or '/', so it stays one part of the name. |
| `FileNames.SizeTextParses` | index.js:98-100 | `parseInt` reads the width back from the `${w}x${w}` part. |
| `FileNames.OutputName` | index.js:98-100 | `${prefix}.${w}x${w}.${ext}` when a size is set, otherwise `${prefix}.${ext}`. The name is longer than prefix and extension together. `OutputNameReadsBack` and `PrefixOfOutputName` state how it splits back. |
| `FileNames.OutputNameReadsBack` | index.js:98-100 | A file name splits on '.' into the prefix, the size part when a size is set, and the extension. The size part reads back as the width. |
| `FileNames.PrefixOfOutputName` | index.js:113-115 | Outputs are named after their input: the prefix of an output name is the input's prefix. |
| `ImageTool.Drawn` | index.js:41-58 | With no width the parsed calls are drawn as they are. With a width, exactly `width * width` bins are drawn. |
| `ImageTool.GenerateImage` | index.js:35-125 | `generateImage` draws the calls, binned or not, at the least fitting power-of-two side. Its value file is the row of that raster, with colour cells as written (red, green, red + 2). Its files are named after the input and the width. |
| `ImageTool.EveryCallInRow` | index.js:67-96 | Without a width, every parsed call gets its own cell in the value file, at its curve position. In colour mode that cell is the as-written cell of the call's pixel. |
| `ImageTool.PowerWidthSide` | index.js:60-61 | A power-of-two width gives an image of exactly that side. |
| `ImageTool.OtherWidthRoundsUp` | index.js:98-100 | Width 3 gives a 4 × 4 image whose files are named "3x3". |
| `HilbertScript.FillGrayscale` | hilbert-curve/index.js:41-50 | The fill-then-overwrite loop gives the same shades as the worker's grayscale mapping. |
| `HilbertScript.TsvRow` | hilbert-curve/index.js:53 | The row is the prefix followed by one field per shade. |
| `HilbertScript.ValueFileReadsBack` | hilbert-curve/index.js:52-59 | The value file of valid calls is one line. Its first field is the prefix, and each further field reads back as the call at that curve position. |
| `HilbertScript.ImageBytesAsWritten` | hilbert-curve/index.js:66-67 | There is one image byte per shade. |
| `HilbertScript.PreBufferAsWritten` | hilbert-curve/index.js:66 | `x * 256 - 1` for each shade: -1 for black, 127 for gray and 255 for white. |
| `HilbertScript.BufferByte` | hilbert-curve/index.js:67 | `Buffer.from` stores each integer as the byte congruent to it modulo 256. A value already in 0..255 is stored as itself. |
| `HilbertScript.AsWrittenHomAltIsWhite` | hilbert-curve/index.js:66-67 | As written, `x * 256 - 1` gives -1 for black, which `Buffer.from` stores as 255. Hom-alt is drawn white like hom-ref. |
| `HilbertScript.ImageBytes` | hilbert-curve/index.js:66 | Corrected half of the second finding: one byte per shade, with black held at 0. |
| `HilbertScript.ImageBytesSeparateCalls` | hilbert-curve/index.js:66 | Corrected half of the second finding: with black held at 0, the three calls get three different bytes, the grays the image tool's grayscale mode paints. |
| `HilbertScript.CorrectedBytesDecode` | hilbert-curve/index.js:66 | Corrected half of the second finding: the corrected bytes are 255, 127 and 0 for hom-ref, het and hom-alt. |
| `HilbertScript.ImageBytesDecode` | hilbert-curve/index.js:66-67 | For any calls, the bytes as written are 127 for het and 255 for everything else. Hom-alt (and any value outside 0..2) is drawn white like hom-ref. |
| `HilbertScript.FloorSqrt` | hilbert-curve/index.js:69-70 | The integer square root, rounded down. |
| `HilbertScript.ImageSide` | hilbert-curve/index.js:69-70 | The side handed to `sharp`, `Math.sqrt(length)`. When it is a whole number, its square is the length. |
| `HilbertScript.NamedSide` | hilbert-curve/index.js:55-57 | The size in the names, `2 ** order`. It is unset (0) exactly when the order is unset, and `2 ** order` (so even) otherwise. |
| `HilbertScript.SideMatchesName` | hilbert-curve/index.js:69-77 | A curve of order k yields 4^k values. The image is 2^k on each side, as the size part of the file names says. |
| `HilbertScript.ImageSideOfSquare` | hilbert-curve/index.js:69-70 | `Math.sqrt` of a square length is its side. |
| `HilbertScript.ProcessFile` | hilbert-curve/index.js:34-86 | `processFile` writes the grayscale of the constructed vector as a one-line value file. With images on it also makes the image bytes as written (`x * 256 - 1`, stored modulo 256), sized by the square root of their count. Both files are named after the input and the order. |
| `Js.ParseIntNumberText` | client/workers/processInput.js:64 | `Number.parseInt(s, 10)` reads back exactly the number whose decimal text starts `s`. |
| `Js.ParseInt` | client/workers/processInput.js:64 | `Number.parseInt(s, 10)`. An empty text is NaN (`None`). A text that starts with a digit is a non-negative number. `ParseIntNumberText` proves that a written number reads back. |
| `Js.Split` | client/workers/processInput.js:49 | `s.split(sep)`: the pieces between separators. There is always at least one piece. |
| `Js.JoinSplit` | client/workers/processInput.js:49 | Joining the pieces of a split with the same separator gives the text back, so splitting loses nothing. |
| `Js.SplitFirstStops` | index.js:82 | `s.split(sep)[0]` runs up to the first separator. It is the whole text when there is a single piece, and otherwise it is followed by `sep`. |
| `Js.SplitLastFollows` | index.js:82 | The last piece of a split is a suffix of the text, preceded by the separator unless it is the whole text. |
| `Js.Join` | index.js:102 | `parts.join(sep)`. It carries no contract of its own. `SplitJoin` and `JoinSplit` prove that it is the inverse of `Split`. |
| `Js.ParseIntOfMinus` | client/workers/processInput.js:64 | A text starting with '-' parses as NaN or as a number no greater than 0. |
| `Js.SplitJoin` | index.js:102 | Splitting a join of separator-free parts gives the parts back. |

## Left out

- I/O is not modelled: reading files, fetching the panel over the network,
  gzip inflation and the `TextDecoder`. Each text reaches the model as a
  string. The worker's `FileReader` branch on the file's MIME type is part
  of that I/O.
- `sharp`, PNG encoding and writing files are not modelled. The model
  stops at the bytes and the side handed to `sharp`, and at the file's
  name and text.
- The TensorFlow prediction, the `vlSpec` chart and `postMessage` are not
  modelled: `model.predict` is foreign code. `Results` keeps the sample
  name and the grayscale vector of each result.
- `console.log` progress output is not modelled.
- The `commander` command line is not modelled. `width` and `order` arrive
  as `nat`, and 0 stands for an unset or falsy option. A negative or NaN
  value is not modelled.
- `Uint8Array.from` over the lines of the text is not modelled: the image
  tool and the Hilbert script take the parsed calls as a sequence of bytes.
- The `hilbert-curve` package is not part of this model. `indexToPoint`
  and `construct` are parameters, and `CurveFits` is the hypothesis about
  `indexToPoint`.
- JavaScript property lookups that reach the prototype chain, such as an
  rsId named `toString`, are not modelled. Keys are plain strings.
- `binSize` is a floating-point quotient and `Math.log2`/`Math.sqrt` are
  floating point. The model computes `Math.ceil(i * L / B)`,
  `Math.floor((i + 1) * L / B)`, the level count and the square root
  exactly, on integers. Rounding error of the floating-point operations is
  not modelled.
- `Uint8ClampedArray` clamping is not modelled. Every value the image tool
  stores is already in 0..255.
- `HilbertScript.ImageSide` is `None` when the length is not a perfect
  square. At that point `sharp` receives a fractional width and fails.
- `construct` is assumed to return a plain `Array`. The worker calls
  `.map` on its result directly (processInput.js:87-90). A typed array
  like its `Uint8Array` input would store het's 0.5 as 0, and
  `InputReader.Results` would then not hold. The Hilbert script copies
  into `new Array` first, so it does not depend on this.
- Engine limits on spread arguments are not modelled.
  `Math.max(...chunk)` (index.js:54) and `[prefix].concat(...grayscaleValues)`
  (hilbert-curve/index.js:53) throw a `RangeError` once the argument count
  passes that limit, which a large order can reach.
- The `TODO` about requiring 1% non-reference calls (processInput.js:79)
  has no code behind it.

## Findings

| source | as written | input that shows it | evidently intended | confidence | as-written member | corrected member |
|---|---|---|---|---|---|---|
| index.js:94 | the colour cell is `${imageData[i]},${imageData[i + 1]},${imageData[i] + 2}`, so the third number is red + 2, not blue | a hom-alt pixel (0,0,255) and an unpainted pixel (0,0,0) both give "0,0,2"; hom-ref (255,0,0) gives "255,0,257" | `${imageData[i + 2]}`: the blue byte | not executed | `ValueRow.ColourCellsAsWritten` | `ValueRow.ColourCellsSeparate` |
| hilbert-curve/index.js:66 | image bytes are `x * 256 - 1` handed to `Buffer.from`, so black 0 becomes -1, which is stored as 255 | calls [2, 0] (hom-alt, hom-ref) give the bytes [255, 255]: hom-alt is white like hom-ref | black stored as 0, so the three calls get the bytes 0, 127 and 255 | not executed | `HilbertScript.ImageBytesDecode` | `HilbertScript.ImageBytesSeparateCalls` |
